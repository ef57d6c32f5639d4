/** The string operations of Go's strings package that the label code relies on. Strings are byte strings. */
module Text {

  /** The pieces of `s` between occurrences of `sep`; an empty string has one empty piece. */
  function Split(s: string, sep: char): (parts: seq<string>)
    ensures |parts| >= 1
  {
    if s == "" then [""]
    else
      var rest := Split(s[1..], sep);
      if s[0] == sep then [""] + rest else [[s[0]] + rest[0]] + rest[1..]
  }

  /** The parts with `sep` between neighbours. */
  function Join(parts: seq<string>, sep: char): string {
    if |parts| == 0 then ""
    else if |parts| == 1 then parts[0]
    else parts[0] + [sep] + Join(parts[1..], sep)
  }

  /** Every part is free of the separator. */
  ghost predicate Free(parts: seq<string>, sep: char) {
    forall i :: 0 <= i < |parts| ==> sep !in parts[i]
  }

  /** `s` without its leading occurrences of `c`. */
  function TrimLeft(s: string, c: char): string {
    if s != "" && s[0] == c then TrimLeft(s[1..], c) else s
  }

  /** `s` without its trailing occurrences of `c`. */
  function TrimRight(s: string, c: char): string {
    if s != "" && s[|s| - 1] == c then TrimRight(s[..|s| - 1], c) else s
  }

  /** `s` without leading and trailing occurrences of `c`. */
  function Trim(s: string, c: char): string {
    TrimRight(TrimLeft(s, c), c)
  }

  /** No `c` at either end. */
  predicate Bare(s: string, c: char) {
    s == "" || (s[0] != c && s[|s| - 1] != c)
  }

  lemma {:induction false} TrimRightEnds(s: string, c: char)
    ensures var t := TrimRight(s, c); t <= s && (t == "" || t[|t| - 1] != c)
  {
    if s != "" && s[|s| - 1] == c {
      TrimRightEnds(s[..|s| - 1], c);
    }
  }

  lemma {:induction false} TrimLeftEnds(s: string, c: char)
    ensures var t := TrimLeft(s, c); t == "" || t[0] != c
  {
    if s != "" && s[0] == c {
      TrimLeftEnds(s[1..], c);
    }
  }

  /** Trimming leaves no `c` at either end. */
  lemma TrimIsBare(s: string, c: char)
    ensures Bare(Trim(s, c), c)
  {
    TrimLeftEnds(s, c);
    TrimRightEnds(TrimLeft(s, c), c);
  }

  /** Trimming undoes one leading `c` in front of a bare string. */
  lemma TrimPrefixed(s: string, c: char)
    requires Bare(s, c)
    ensures Trim([c] + s, c) == s
  {
    assert ([c] + s)[1..] == s;
    assert TrimLeft([c] + s, c) == TrimLeft(s, c) == s;
  }

  /** Joining the pieces of a split gives the string back, and the pieces are free of the separator. */
  lemma {:induction false} JoinSplit(s: string, sep: char)
    ensures Join(Split(s, sep), sep) == s
    ensures Free(Split(s, sep), sep)
  {
    if s != "" {
      var rest := Split(s[1..], sep);
      JoinSplit(s[1..], sep);
      var parts := Split(s, sep);
      if s[0] == sep {
        assert parts[1..] == rest;
      } else if |rest| > 1 {
        assert parts[1..] == rest[1..];
        assert [s[0]] + rest[0] + [sep] + Join(rest[1..], sep) == [s[0]] + (rest[0] + [sep] + Join(rest[1..], sep));
      }
    }
  }

  /** Splitting after a separator-free head starts with that head. */
  lemma {:induction false} SplitHead(head: string, tail: string, sep: char)
    requires sep !in head
    ensures Split(head + [sep] + tail, sep) == [head] + Split(tail, sep)
  {
    var s := head + [sep] + tail;
    if head == "" {
      assert s[1..] == tail;
    } else {
      assert s[1..] == head[1..] + [sep] + tail;
      SplitHead(head[1..], tail, sep);
      assert Split(s[1..], sep)[0] == head[1..] && [head[0]] + head[1..] == head;
    }
  }

  lemma {:induction false} SplitWhole(s: string, sep: char)
    requires sep !in s
    ensures Split(s, sep) == [s]
  {
    if s != "" {
      SplitWhole(s[1..], sep);
      assert [s[0]] + s[1..] == s;
    }
  }

  /** Cutting a string changes none of its pieces but the last one that remains. */
  lemma {:induction false} SplitPrefix(s: string, n: nat, sep: char)
    requires n <= |s|
    ensures var kept, parts := Split(s[..n], sep), Split(s, sep);
            |kept| <= |parts| && forall i :: 0 <= i < |kept| - 1 ==> kept[i] == parts[i]
  {
    if n > 0 {
      var tail, cut := Split(s[1..], sep), Split(s[1..][..n - 1], sep);
      SplitPrefix(s[1..], n - 1, sep);
      assert s[..n][1..] == s[1..][..n - 1];
      if s[0] == sep {
        assert Split(s, sep) == [""] + tail && Split(s[..n], sep) == [""] + cut;
      } else {
        assert Split(s, sep) == [[s[0]] + tail[0]] + tail[1..] && Split(s[..n], sep) == [[s[0]] + cut[0]] + cut[1..];
      }
    }
  }

  /** Splitting a join of separator-free parts gives the parts back. */
  lemma {:induction false} SplitJoin(parts: seq<string>, sep: char)
    requires parts != [] && Free(parts, sep)
    ensures Split(Join(parts, sep), sep) == parts
  {
    if |parts| == 1 {
      SplitWhole(parts[0], sep);
    } else {
      SplitJoin(parts[1..], sep);
      SplitHead(parts[0], Join(parts[1..], sep), sep);
    }
  }

  /** A join of parts whose first and last are bare and nonempty is itself bare. */
  lemma {:induction false} JoinBare(parts: seq<string>, c: char)
    requires parts != [] && Free(parts, c)
    requires |parts| > 1 ==> parts[0] != "" && parts[|parts| - 1] != ""
    ensures Bare(Join(parts, c), c)
  {
    if |parts| > 1 {
      JoinLast(parts, c);
    }
  }

  /** A join ends with its last part. */
  lemma {:induction false} JoinLast(parts: seq<string>, c: char)
    requires parts != [] && parts[|parts| - 1] != ""
    ensures Join(parts, c) != ""
    ensures Join(parts, c)[|Join(parts, c)| - 1] == parts[|parts| - 1][|parts[|parts| - 1]| - 1]
  {
    if |parts| > 1 {
      JoinLast(parts[1..], c);
    }
  }

  /** The pieces of a bare string do not start or end with an empty piece, unless there is only one. */
  lemma BareSplit(s: string, c: char)
    requires Bare(s, c)
    ensures var parts := Split(s, c); |parts| > 1 ==> parts[0] != "" && parts[|parts| - 1] != ""
  {
    var parts := Split(s, c);
    JoinSplit(s, c);
    if |parts| > 1 {
      if parts[|parts| - 1] == "" {
        JoinEmptyLast(parts, c);
      }
    }
  }

  lemma {:induction false} JoinEmptyLast(parts: seq<string>, c: char)
    requires |parts| > 1 && parts[|parts| - 1] == ""
    ensures Join(parts, c) != "" && Join(parts, c)[|Join(parts, c)| - 1] == c
  {
    if |parts| > 2 {
      JoinEmptyLast(parts[1..], c);
    }
  }

  /** Joining one more part. */
  lemma {:induction false} JoinSnoc(parts: seq<string>, last: string, c: char)
    ensures Join(parts + [last], c) == Join(parts, c) + (if parts == [] then "" else [c]) + last
  {
    if parts != [] {
      assert (parts + [last])[1..] == parts[1..] + [last];
      JoinSnoc(parts[1..], last, c);
    }
  }

  lemma JoinNonempty(parts: seq<string>, c: char)
    requires parts != [] && parts[0] != ""
    ensures Join(parts, c) != ""
  {
  }

  /** A piece without the separator ends where the separator first occurs, or at the end. */
  lemma CutFirst(sep: char, s: string, t: string, s': string, t': string)
    requires sep !in s && sep !in s' && s + t == s' + t'
    requires (t == "" || t[0] == sep) && (t' == "" || t'[0] == sep)
    ensures s == s' && t == t'
  {
    var whole := s + t;
    assert forall i :: 0 <= i < |s| ==> whole[i] == s[i];
    assert forall i :: 0 <= i < |s'| ==> whole[i] == (s' + t')[i] == s'[i];
    assert |s| < |whole| ==> whole[|s|] == t[0];
    assert |s'| < |whole| ==> whole[|s'|] == (s' + t')[|s'|] == t'[0];
    assert |s| == |s'|;
    assert s == whole[..|s|] && s' == whole[..|s'|] && t == whole[|s|..] && t' == whole[|s'|..];
  }

  /** A piece without the separator starts where the separator last occurs, or at the start. */
  lemma CutLast(sep: char, t: string, s: string, t': string, s': string)
    requires sep !in s && sep !in s' && t + s == t' + s'
    requires (t == "" || t[|t| - 1] == sep) && (t' == "" || t'[|t'| - 1] == sep)
    ensures s == s' && t == t'
  {
    var whole := t + s;
    assert forall i :: |t| <= i < |whole| ==> whole[i] == s[i - |t|];
    assert forall i :: |t'| <= i < |whole| ==> whole[i] == (t' + s')[i] == s'[i - |t'|];
    assert t != "" ==> whole[|t| - 1] == t[|t| - 1];
    assert t' != "" ==> whole[|t'| - 1] == (t' + s')[|t'| - 1] == t'[|t'| - 1];
    assert |t| == |t'|;
    assert t == whole[..|t|] && t' == whole[..|t'|] && s == whole[|t|..] && s' == whole[|t'|..];
  }
}
