/** Path normalisation, label sanitisation and label fingerprints (labels.go). */
module Labels {
  import opened Text

  datatype Label = Label(name: string, value: string)

  /** Sanitisation settings; a maximum length of zero or less means no limit. */
  datatype LabelsConfig = LabelsConfig(normalizePaths: bool, maxLength: int)

  predicate IsDigit(c: char) { '0' <= c <= '9' }

  predicate IsHex(c: char) { IsDigit(c) || 'a' <= c <= 'f' || 'A' <= c <= 'F' }

  /** How many characters of `s` are hexadecimal digits. */
  function HexDigits(s: string): nat {
    if s == "" then 0 else HexDigits(s[..|s| - 1]) + if IsHex(s[|s| - 1]) then 1 else 0
  }

  /** Numbers, and words of hexadecimal digits and dashes with at least eight hexadecimal digits. */
  predicate IdLike(seg: string) {
    && seg != ""
    && (forall c | c in seg :: IsHex(c) || c == '-')
    && ((forall c | c in seg :: IsDigit(c)) || HexDigits(seg) >= 8)
  }

  /** Scans a segment once, counting digits and hexadecimal digits, and gives up at the first foreign character. */
  method IdSegment(seg: string) returns (r: bool)
    ensures r == IdLike(seg)
  {
    if seg == "" {
      return false;
    }
    var digits, hex := 0, 0;
    for i := 0 to |seg|
      invariant forall j :: 0 <= j < i ==> IsHex(seg[j]) || seg[j] == '-'
      invariant 0 <= digits <= i
      invariant digits == i <==> forall j :: 0 <= j < i ==> IsDigit(seg[j])
      invariant hex == HexDigits(seg[..i])
    {
      assert seg[..i + 1][..i] == seg[..i];
      if IsDigit(seg[i]) {
        digits, hex := digits + 1, hex + 1;
      } else if IsHex(seg[i]) {
        hex := hex + 1;
      } else if seg[i] == '-' {
      } else {
        return false;
      }
    }
    assert seg[..|seg|] == seg;
    return digits == |seg| || hex >= 8;
  }

  /**
   * Which segments are taken for ids: numbers; hexadecimal words of eight letters or more, and none shorter that is no
   * number; nothing with another letter in it, dashes aside.
   */
  lemma WhichAreIds(seg: string)
    ensures seg != "" && (forall c | c in seg :: '0' <= c <= '9') ==> IdLike(seg)
    ensures |seg| >= 8 && (forall c | c in seg :: '0' <= c <= '9' || 'a' <= c <= 'f' || 'A' <= c <= 'F') ==> IdLike(seg)
    ensures |seg| < 8 && (exists c | c in seg :: !('0' <= c <= '9')) ==> !IdLike(seg)
    ensures (exists c | c in seg :: c != '-' && !('0' <= c <= '9' || 'a' <= c <= 'f' || 'A' <= c <= 'F')) ==>
            !IdLike(seg)
  {
    HexDigitsAre(seg);
  }

  lemma {:induction false} HexDigitsAre(s: string)
    ensures HexDigits(s) <= |s|
    ensures (forall c | c in s :: IsHex(c)) ==> HexDigits(s) == |s|
  {
    if s != "" {
      HexDigitsAre(s[..|s| - 1]);
    }
  }

  const PLACEHOLDER: string := ":id"

  /** What one segment becomes. */
  function Canon(seg: string): string {
    if IdLike(seg) then PLACEHOLDER else seg
  }

  /** The slash-separated segments of a path, leading and trailing slashes trimmed. */
  function Segments(path: string): (segs: seq<string>)
    ensures |segs| >= 1
  {
    Split(Trim(path, '/'), '/')
  }

  /** The segments with every id-like one collapsed. */
  function CanonSegments(path: string): (segs: seq<string>)
    ensures |segs| == |Segments(path)|
    ensures forall i :: 0 <= i < |segs| ==> segs[i] == Canon(Segments(path)[i])
  {
    seq(|Segments(path)|, i requires 0 <= i < |Segments(path)| => Canon(Segments(path)[i]))
  }

  /** The normal form of a path. */
  function Normal(path: string): string {
    "/" + Join(CanonSegments(path), '/')
  }

  /** Collapses id-like segments, rewriting the list of segments position by position. */
  method NormalizePath(path: string) returns (r: string)
    ensures r == Normal(path)
  {
    if path == "" {
      assert CanonSegments(path) == [""];
      return "/";
    }
    var parts := Split(Trim(path, '/'), '/');
    for i := 0 to |parts|
      invariant |parts| == |Segments(path)|
      invariant forall j :: 0 <= j < i ==> parts[j] == Canon(Segments(path)[j])
      invariant forall j :: i <= j < |parts| ==> parts[j] == Segments(path)[j]
    {
      var idLike := IdSegment(parts[i]);
      if idLike {
        parts := parts[i := PLACEHOLDER];
      }
    }
    assert parts == CanonSegments(path);
    return "/" + Join(parts, '/');
  }

  /** The placeholder is no id, so collapsing twice is collapsing once. */
  lemma CanonIsFinal(seg: string)
    ensures !IdLike(Canon(seg)) && Canon(Canon(seg)) == Canon(seg)
  {
    assert PLACEHOLDER[0] == ':';
  }

  /** Slash-free parts with nonempty ends survive being joined behind a slash and read back. */
  lemma ReadBack(parts: seq<string>)
    requires parts != [] && Free(parts, '/')
    requires |parts| > 1 ==> parts[0] != "" && parts[|parts| - 1] != ""
    ensures Segments("/" + Join(parts, '/')) == parts
  {
    JoinBare(parts, '/');
    TrimPrefixed(Join(parts, '/'), '/');
    SplitJoin(parts, '/');
  }

  /** Collapsing keeps segments slash-free and, at the ends, nonempty. */
  lemma CanonShape(path: string)
    ensures var canon := CanonSegments(path);
            Free(canon, '/') && (|canon| > 1 ==> canon[0] != "" && canon[|canon| - 1] != "")
  {
    TrimIsBare(path, '/');
    JoinSplit(Trim(path, '/'), '/');
    BareSplit(Trim(path, '/'), '/');
    forall i | 0 <= i < |Segments(path)| ensures '/' !in CanonSegments(path)[i] {
      CanonSlashFree(Segments(path)[i]);
    }
  }

  lemma CanonSlashFree(seg: string)
    requires '/' !in seg
    ensures '/' !in Canon(seg)
  {
  }

  /** Reading back a normal form finds the segments of the path, every id replaced by ":id", and so no id. */
  lemma SegmentsOfNormal(path: string)
    ensures Segments(Normal(path)) == CanonSegments(path)
    ensures |Segments(Normal(path))| == |Segments(path)|
    ensures forall i :: 0 <= i < |Segments(path)| ==>
              Segments(Normal(path))[i] == if IdLike(Segments(path)[i]) then ":id" else Segments(path)[i]
    ensures forall seg | seg in Segments(Normal(path)) :: !IdLike(seg)
  {
    CanonShape(path);
    ReadBack(CanonSegments(path));
    forall i | 0 <= i < |Segments(path)| ensures !IdLike(CanonSegments(path)[i]) {
      CanonIsFinal(Segments(path)[i]);
    }
  }

  /** Normalisation is idempotent on every string. */
  lemma NormalizeIdempotent(path: string)
    ensures Normal(Normal(path)) == Normal(path)
  {
    SegmentsOfNormal(path);
    assert CanonSegments(Normal(path)) == CanonSegments(path);
  }

  /** Two segments that normalisation identifies. */
  predicate SameSegment(a: string, b: string) {
    a == b || ((IdLike(a) || a == PLACEHOLDER) && (IdLike(b) || b == PLACEHOLDER))
  }

  /** Two paths that agree segment by segment, ids aside. */
  ghost predicate SamePath(p: string, q: string) {
    && |Segments(p)| == |Segments(q)|
    && forall i :: 0 <= i < |Segments(p)| ==> SameSegment(Segments(p)[i], Segments(q)[i])
  }

  /** Exactly when normalisation identifies two paths. */
  lemma NormalizeEqualIff(p: string, q: string)
    ensures Normal(p) == Normal(q) <==> SamePath(p, q)
  {
    if Normal(p) == Normal(q) {
      SegmentsOfNormal(p);
      SegmentsOfNormal(q);
      var cp, cq := CanonSegments(p), CanonSegments(q);
      assert cp == cq;
      forall i | 0 <= i < |Segments(p)| ensures SameSegment(Segments(p)[i], Segments(q)[i]) {
        assert cp[i] == cq[i];
      }
    }
    if SamePath(p, q) {
      forall i | 0 <= i < |Segments(p)| ensures CanonSegments(p)[i] == CanonSegments(q)[i] {
        assert SameSegment(Segments(p)[i], Segments(q)[i]);
      }
      assert CanonSegments(p) == CanonSegments(q);
    }
  }

  /** A string that normalisation leaves alone. */
  predicate NormalForm(t: string) {
    && t != "" && t[0] == '/'
    && Bare(t[1..], '/')
    && forall seg | seg in Split(t[1..], '/') :: !IdLike(seg)
  }

  /** The fixed points of normalisation are exactly the normal forms. */
  lemma FixedIffNormalForm(t: string)
    ensures Normal(t) == t <==> NormalForm(t)
  {
    if Normal(t) == t {
      CanonShape(t);
      SegmentsOfNormal(t);
      JoinBare(CanonSegments(t), '/');
      TrimPrefixed(t[1..], '/');
      assert t == "/" + t[1..];
    }
    if NormalForm(t) {
      assert t == "/" + t[1..];
      TrimPrefixed(t[1..], '/');
      JoinSplit(t[1..], '/');
      assert CanonSegments(t) == Segments(t);
    }
  }

  /** The part of a path after its last slash, the leading slash left aside. */
  function LastSegment(t: string): string
    requires t != ""
  {
    var parts := Split(t[1..], '/');
    parts[|parts| - 1]
  }

  /** A cut that does not end in a slash, unless that is all there is, nor in a piece that looks like an id. */
  predicate CleanCut(t: string)
    requires t != ""
  {
    (|t| > 1 ==> t[|t| - 1] != '/') && !IdLike(LastSegment(t))
  }

  /** No segment but perhaps the last is an id. */
  ghost predicate PlainButLast(parts: seq<string>) {
    forall i :: 0 <= i < |parts| - 1 ==> !IdLike(parts[i])
  }

  /** The pieces of a cut normal form: all but the last are whole segments, so no ids. */
  lemma CutPieces(path: string, t: string)
    requires t != "" && t <= Normal(path)
    ensures t[0] == '/' && (|t| > 1 ==> t[1] != '/')
    ensures PlainButLast(Split(t[1..], '/'))
  {
    var canon := CanonSegments(path);
    var whole := Join(canon, '/');
    CanonShape(path);
    JoinBare(canon, '/');
    SplitJoin(canon, '/');
    SplitPrefix(whole, |t| - 1, '/');
    assert t[1..] == whole[..|t| - 1];
    forall i | 0 <= i < |canon| ensures !IdLike(canon[i]) {
      CanonIsFinal(Segments(path)[i]);
    }
  }

  /** Only its last character and its last segment decide whether a cut normal form is one itself. */
  lemma CutIsNormalFormIff(path: string, t: string)
    requires t != "" && t <= Normal(path)
    ensures NormalForm(t) <==> CleanCut(t)
  {
    CutPieces(path, t);
    LastDecides(Split(t[1..], '/'));
    assert |t| > 1 ==> t[1..][0] == t[1] && t[1..][|t| - 2] == t[|t| - 1];
  }

  lemma LastDecides(parts: seq<string>)
    requires parts != [] && PlainButLast(parts)
    ensures (forall seg | seg in parts :: !IdLike(seg)) <==> !IdLike(parts[|parts| - 1])
  {
    assert parts[|parts| - 1] in parts;
  }

  /** Joined segments are no prefix of their collapsed join if one of them was collapsed. */
  lemma {:induction false} CollapsedIsNoExtension(segs: seq<string>, canon: seq<string>)
    requires |segs| == |canon| && segs != []
    requires forall i :: 0 <= i < |segs| ==> canon[i] == Canon(segs[i])
    ensures Join(segs, '/') <= Join(canon, '/') ==> segs == canon
  {
    if IdLike(segs[0]) {
      assert segs[0][0] in segs[0];
      assert Join(segs, '/')[0] == segs[0][0];
      assert Join(canon, '/')[0] == PLACEHOLDER[0];
    } else if |segs| > 1 {
      var n := |segs[0]| + 1;
      assert Join(segs, '/')[n..] == Join(segs[1..], '/');
      assert Join(canon, '/')[n..] == Join(canon[1..], '/');
      CollapsedIsNoExtension(segs[1..], canon[1..]);
    }
  }

  /** A nonempty prefix of its own normal form is that normal form. */
  lemma PrefixOfNormal(t: string)
    requires t != "" && t <= Normal(t)
    ensures t == Normal(t)
  {
    var segs, canon := Segments(t), CanonSegments(t);
    assert Bare(Join(canon, '/'), '/') by {
      CanonShape(t);
      JoinBare(canon, '/');
    }
    assert t[0] == '/' && t[1..] <= Join(canon, '/');
    assert Join(segs, '/') == Trim(t, '/') <= t[1..] by {
      TrimOneSlash(t);
      JoinSplit(Trim(t, '/'), '/');
    }
    CollapsedIsNoExtension(segs, canon);
    assert |Normal(t)| <= |t|;
  }

  lemma TrimOneSlash(t: string)
    requires t != "" && t[0] == '/' && (|t| > 1 ==> t[1] != '/')
    ensures Trim(t, '/') <= t[1..]
  {
    assert TrimLeft(t, '/') == TrimLeft(t[1..], '/') == t[1..];
    TrimRightEnds(t[1..], '/');
  }

  /** The value after the first rule: paths are normalised when the configuration says so. */
  function Routed(name: string, value: string, cfg: LabelsConfig): string {
    if cfg.normalizePaths && name == "path" then Normal(value) else value
  }

  predicate TooLong(value: string, cfg: LabelsConfig) {
    cfg.maxLength > 0 && |value| > cfg.maxLength
  }

  /** A sanitised label value: normalised, then cut to the configured length; empty values stay empty. */
  function Sanitized(name: string, value: string, cfg: LabelsConfig): (r: string)
    ensures cfg.maxLength > 0 ==> |r| <= cfg.maxLength
  {
    if value == "" then ""
    else
      var v := Routed(name, value, cfg);
      if TooLong(v, cfg) then v[..cfg.maxLength] else v
  }

  /**
   * What is left of a value: nothing of an empty one; of others a prefix of the value, or of the normal form of a path
   * that is to be normalised, as long as the limit allows.
   */
  lemma SanitizedIsPrefix(name: string, value: string, cfg: LabelsConfig)
    ensures var r := Sanitized(name, value, cfg);
            var whole := if cfg.normalizePaths && name == "path" then Normal(value) else value;
            && (value == "" ==> r == "")
            && (value != "" ==>
                  && r <= whole
                  && |r| == if cfg.maxLength > 0 && |whole| > cfg.maxLength then cfg.maxLength else |whole|)
  {
  }

  method SanitizeLabelValue(name: string, value: string, cfg: LabelsConfig) returns (r: string)
    ensures r == Sanitized(name, value, cfg)
  {
    if value == "" {
      return value;
    }
    r := value;
    if cfg.normalizePaths && name == "path" {
      r := NormalizePath(r);
    }
    if cfg.maxLength > 0 && |r| > cfg.maxLength {
      r := r[..cfg.maxLength];
    }
  }

  /**
   * Exactly when sanitising twice is sanitising once: unless a path was cut, always; a cut path must not end in a slash
   * or in a piece that looks like an id.
   */
  lemma SanitizeIdempotentIff(name: string, value: string, cfg: LabelsConfig)
    ensures var once := Sanitized(name, value, cfg);
            Sanitized(name, once, cfg) == once <==>
            (cfg.normalizePaths && name == "path" && value != "" && TooLong(Normal(value), cfg) ==>
             CleanCut(Normal(value)[..cfg.maxLength]))
  {
    var once := Sanitized(name, value, cfg);
    if value != "" && cfg.normalizePaths && name == "path" {
      NormalizeIdempotent(value);
      FixedIffNormalForm(once);
      if TooLong(Normal(value), cfg) {
        CutIsNormalFormIff(value, once);
        if Sanitized(name, once, cfg) == once {
          PrefixOfNormal(once);
        }
      }
    }
  }

  /** A cut path that normalises further: the cut leaves a number as last segment. */
  lemma SanitizeNotIdempotent()
    ensures var cfg := LabelsConfig(true, 2);
            var once := Sanitized("path", "/1x", cfg);
            once == "/1" && Sanitized("path", once, cfg) != once
  {
    var cfg := LabelsConfig(true, 2);
    var whole, cut := "/1x", "/1";
    SplitWhole(whole[1..], '/');
    assert whole[1..] == "1x" && whole[2] in "1x" && !IdLike("1x") && Split("1x", '/') == ["1x"];
    FixedIffNormalForm(whole);
    assert whole[..2] == cut;
    SplitWhole(cut[1..], '/');
    assert cut[1..] == "1" && IdLike("1") && "1" in Split("1", '/');
    SanitizeIdempotentIff("path", whole, cfg);
  }

  /** Every label sanitised, names and positions kept. */
  function SanitizedAll(labels: seq<Label>, cfg: LabelsConfig): (r: seq<Label>)
    ensures |r| == |labels|
  {
    seq(|labels|, i requires 0 <=
        i < |labels| => Label(labels[i].name, Sanitized(labels[i].name, labels[i].value, cfg)))
  }

  method SanitizeLabels(labels: seq<Label>, cfg: LabelsConfig) returns (out: seq<Label>)
    ensures out == SanitizedAll(labels, cfg)
  {
    if cfg.maxLength == 0 && !cfg.normalizePaths {
      return labels;
    }
    out := [];
    for i := 0 to |labels|
      invariant out == SanitizedAll(labels, cfg)[..i]
    {
      var value := SanitizeLabelValue(labels[i].name, labels[i].value, cfg);
      out := out + [Label(labels[i].name, value)];
    }
  }

  /** One field of a fingerprint. */
  function Field(l: Label): string {
    l.name + "=" + l.value
  }

  function Fields(labels: seq<Label>): (r: seq<string>)
    ensures |r| == |labels|
  {
    seq(|labels|, i requires 0 <= i < |labels| => Field(labels[i]))
  }

  const NUL: char := '\0'

  /** The fingerprint of a list of labels. */
  function Fingerprint(labels: seq<Label>): string {
    Join(Fields(labels), NUL)
  }

  /** Writes the fields one after the other into a buffer, separated by zero bytes. */
  method FingerprintLabels(labels: seq<Label>) returns (b: string)
    ensures b == Fingerprint(labels)
  {
    if |labels| == 0 {
      return "";
    }
    b := "";
    for i := 0 to |labels|
      invariant b == Join(Fields(labels)[..i], NUL)
    {
      if i > 0 {
        b := b + [NUL];
      }
      b := b + labels[i].name;
      b := b + "=";
      b := b + labels[i].value;
      assert Fields(labels)[..i + 1] == Fields(labels)[..i] + [Field(labels[i])];
      JoinSnoc(Fields(labels)[..i], Field(labels[i]), NUL);
      assert b == Join(Fields(labels)[..i], NUL) + (if i > 0 then [NUL] else "") + Field(labels[i]);
    }
    assert Fields(labels)[..|labels|] == Fields(labels);
  }

  /** Reads a field back, cutting at its first equals sign. */
  function ParseField(f: string): Label {
    if f == "" then Label("", "")
    else if f[0] == '=' then Label("", f[1..])
    else var rest := ParseField(f[1..]); Label([f[0]] + rest.name, rest.value)
  }

  function ParseFields(fields: seq<string>): seq<Label> {
    seq(|fields|, i requires 0 <= i < |fields| => ParseField(fields[i]))
  }

  /** Reads a fingerprint back into a list of labels. */
  function ParseFingerprint(fp: string): seq<Label> {
    if fp == "" then [] else ParseFields(Split(fp, NUL))
  }

  /** Names without equals sign or zero byte, values without zero byte. */
  ghost predicate WellNamed(labels: seq<Label>) {
    forall i :: 0 <= i < |labels| ==> '=' !in labels[i].name && NUL !in labels[i].name && NUL !in labels[i].value
  }

  lemma {:induction false} ParseOfField(l: Label)
    requires '=' !in l.name
    ensures ParseField(Field(l)) == l
    decreases |l.name|
  {
    if l.name == "" {
      assert Field(l)[1..] == l.value;
    } else {
      var m := Label(l.name[1..], l.value);
      ParseOfField(m);
      assert Field(l)[1..] == Field(m);
      assert [l.name[0]] + m.name == l.name;
    }
  }

  /** The parser inverts the fingerprint. */
  lemma FingerprintRoundTrip(labels: seq<Label>)
    requires WellNamed(labels)
    ensures ParseFingerprint(Fingerprint(labels)) == labels
  {
    if labels != [] {
      var fields := Fields(labels);
      SplitJoin(fields, NUL);
      JoinNonempty(fields, NUL);
      forall i | 0 <= i < |labels| ensures ParseField(fields[i]) == labels[i] {
        ParseOfField(labels[i]);
      }
      assert ParseFields(fields) == labels;
    }
  }
}
