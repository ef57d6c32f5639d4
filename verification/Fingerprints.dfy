/** Which label lists a fingerprint tells apart (labels.go, fingerprintLabels). */
module Fingerprints {
  import opened Text
  import opened Labels

  /** Every label has a name over one alphabet and a value over another. */
  ghost predicate Over(labels: seq<Label>, names: set<char>, values: set<char>) {
    forall i :: 0 <= i < |labels| ==> Within(labels[i].name, names) && Within(labels[i].value, values)
  }

  predicate Within(s: string, alphabet: set<char>) {
    forall c | c in s :: c in alphabet
  }

  /** Two lists over these alphabets share a fingerprint only if they are the same list. */
  ghost predicate Injective(names: set<char>, values: set<char>) {
    forall a, b | Over(a, names, values) && Over(b, names, values) :: Fingerprint(a) == Fingerprint(b) ==> a == b
  }

  /** What follows the first field. */
  function Rest(labels: seq<Label>): string {
    if labels == [] then "" else [NUL] + Fingerprint(labels)
  }

  /** What precedes the last field. */
  function Front(labels: seq<Label>): string {
    if labels == [] then "" else Fingerprint(labels) + [NUL]
  }

  lemma FirstField(labels: seq<Label>)
    requires labels != []
    ensures Fingerprint(labels) == labels[0].name + ("=" + (labels[0].value + Rest(labels[1..])))
  {
    var l := labels[0];
    assert Fields(labels)[1..] == Fields(labels[1..]);
    if labels[1..] == [] {
      assert Fields(labels) == [Field(l)];
      assert Field(l) == l.name + ("=" + (l.value + ""));
    } else {
      assert Field(l) + [NUL] + Fingerprint(labels[1..]) ==
             l.name + ("=" + (l.value + ([NUL] + Fingerprint(labels[1..]))));
    }
  }

  lemma LastField(labels: seq<Label>)
    requires labels != []
    ensures var n := |labels| - 1;
            Fingerprint(labels) == ((Front(labels[..n]) + labels[n].name) + "=") + labels[n].value
  {
    var n := |labels| - 1;
    var l := labels[n];
    assert Fields(labels) == Fields(labels[..n]) + [Field(l)];
    JoinSnoc(Fields(labels[..n]), Field(l), NUL);
    if n > 0 {
      assert Fingerprint(labels[..n]) + [NUL] + Field(l) ==
             ((Fingerprint(labels[..n]) + [NUL] + l.name) + "=") + l.value;
    } else {
      assert "" + "" + Field(l) == (("" + l.name) + "=") + l.value;
    }
  }

  /** No equals sign in a name and no zero byte in a value: read from the front, nothing is ambiguous. */
  ghost predicate ReadsForward(labels: seq<Label>) {
    forall i :: 0 <= i < |labels| ==> '=' !in labels[i].name && NUL !in labels[i].value
  }

  /** No equals sign in a value and no zero byte in a name: read from the back, nothing is ambiguous. */
  ghost predicate ReadsBackward(labels: seq<Label>) {
    forall i :: 0 <= i < |labels| ==> '=' !in labels[i].value && NUL !in labels[i].name
  }

  lemma {:induction false} ForwardInjective(a: seq<Label>, b: seq<Label>)
    requires ReadsForward(a) && ReadsForward(b) && Fingerprint(a) == Fingerprint(b)
    ensures a == b
  {
    if a != [] {
      FirstField(a);
    }
    if b != [] {
      FirstField(b);
    }
    if a != [] && b != [] {
      var s, t := a[0].value + Rest(a[1..]), b[0].value + Rest(b[1..]);
      CutFirst('=', a[0].name, "=" + s, b[0].name, "=" + t);
      assert s == ("=" + s)[1..] && t == ("=" + t)[1..];
      CutFirst(NUL, a[0].value, Rest(a[1..]), b[0].value, Rest(b[1..]));
      SameRest(a[1..], b[1..]);
      ForwardInjective(a[1..], b[1..]);
      assert a == [a[0]] + a[1..] && b == [b[0]] + b[1..];
    }
  }

  lemma SameRest(a: seq<Label>, b: seq<Label>)
    requires Rest(a) == Rest(b)
    ensures Fingerprint(a) == Fingerprint(b)
  {
    assert a != [] ==> Rest(a)[1..] == Fingerprint(a);
    assert b != [] ==> Rest(b)[1..] == Fingerprint(b);
  }

  lemma {:induction false} BackwardInjective(a: seq<Label>, b: seq<Label>)
    requires ReadsBackward(a) && ReadsBackward(b) && Fingerprint(a) == Fingerprint(b)
    ensures a == b
  {
    var n, m := |a| - 1, |b| - 1;
    if a != [] {
      LastField(a);
    }
    if b != [] {
      LastField(b);
    }
    if a != [] && b != [] {
      var s, t := Front(a[..n]) + a[n].name, Front(b[..m]) + b[m].name;
      CutLast('=', s + "=", a[n].value, t + "=", b[m].value);
      assert s == (s + "=")[..|s|] && t == (t + "=")[..|t|];
      CutLast(NUL, Front(a[..n]), a[n].name, Front(b[..m]), b[m].name);
      SameFront(a[..n], b[..m]);
      BackwardInjective(a[..n], b[..m]);
      assert a == a[..n] + [a[n]] && b == b[..m] + [b[m]];
    }
  }

  lemma SameFront(a: seq<Label>, b: seq<Label>)
    requires Front(a) == Front(b)
    ensures Fingerprint(a) == Fingerprint(b)
  {
    assert a != [] ==> Front(a)[..|Front(a)| - 1] == Fingerprint(a);
    assert b != [] ==> Front(b)[..|Front(b)| - 1] == Fingerprint(b);
  }

  const EMPTY: Label := Label("", "")

  /** The fingerprints of one label and of two. */
  lemma ShortFingerprints(l: Label, k: Label)
    ensures Fingerprint([l]) == l.name + "=" + l.value
    ensures Fingerprint([l, k]) == l.name + "=" + l.value + [NUL] + k.name + "=" + k.value
  {
    assert Fields([l]) == [Field(l)] && Fields([l, k]) == [Field(l), Field(k)];
    assert Fields([l, k])[1..] == [Field(k)] && Join([Field(k)], NUL) == Field(k);
    assert Field(l) + [NUL] + Field(k) == l.name + "=" + l.value + [NUL] + k.name + "=" + k.value;
  }

  /**
   * An equals sign on both sides of a label, or next to a zero byte on either side, or zero bytes on both sides,
   * collide.
   */
  lemma Collisions()
    ensures Fingerprint([Label("=", "")]) == Fingerprint([Label("", "=")])
    ensures Fingerprint([Label("=\0", "")]) == Fingerprint([EMPTY, EMPTY])
    ensures Fingerprint([Label("", "\0=")]) == Fingerprint([EMPTY, EMPTY])
    ensures Fingerprint([Label("", "\0"), EMPTY]) == Fingerprint([EMPTY, Label("\0", "")])
  {
    ShortFingerprints(Label("=", ""), EMPTY);
    ShortFingerprints(Label("", "="), EMPTY);
    ShortFingerprints(Label("=\0", ""), EMPTY);
    ShortFingerprints(Label("", "\0="), EMPTY);
    ShortFingerprints(EMPTY, EMPTY);
    ShortFingerprints(Label("", "\0"), EMPTY);
    ShortFingerprints(EMPTY, Label("\0", ""));
    assert "=" + "=" + "" == "" + "=" + "=";
    assert "=\0" + "=" + "" == "" + "=" + "" + [NUL] + "" + "=" + "" == "" + "=" + "\0=";
    assert "" + "=" + "\0" + [NUL] + "" + "=" + "" == "" + "=" + "" + [NUL] + "\0" + "=" + "";
  }

  /** The two ways to be unambiguous, in terms of the alphabets. */
  predicate Unambiguous(names: set<char>, values: set<char>) {
    ('=' !in names && NUL !in values) || ('=' !in values && NUL !in names)
  }

  /** Exactly which alphabets make fingerprints injective on all label lists, empty ones included. */
  lemma FingerprintInjectiveIff(names: set<char>, values: set<char>)
    ensures Injective(names, values) <==> Unambiguous(names, values)
  {
    if Unambiguous(names, values) {
      forall a, b | Over(a, names, values) && Over(b, names, values) && Fingerprint(a) == Fingerprint(b)
        ensures a == b {
        if '=' !in names && NUL !in values {
          ForwardInjective(a, b);
        } else {
          BackwardInjective(a, b);
        }
      }
    } else {
      Ambiguous(names, values);
    }
  }

  lemma Ambiguous(names: set<char>, values: set<char>)
    requires !Unambiguous(names, values)
    ensures !Injective(names, values)
  {
    Collisions();
    var a, b := [EMPTY, EMPTY], [EMPTY, EMPTY];
    if '=' in names && '=' in values {
      a, b := [Label("=", "")], [Label("", "=")];
    } else if '=' in names {
      a := [Label("=\0", "")];
    } else if '=' in values {
      a := [Label("", "\0=")];
    } else {
      a, b := [Label("", "\0"), EMPTY], [EMPTY, Label("\0", "")];
    }
    assert a != b && Fingerprint(a) == Fingerprint(b);
    assert Over(a, names, values) && Over(b, names, values);
  }
}
