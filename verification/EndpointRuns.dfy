/** The endpoint tracker over a whole sequence of requests (endpoint_latency.go). */
module EndpointRuns {
  import opened Base
  import opened Cardinality
  import opened Latency
  import Labels
  import Text

  datatype Request = Request(verb: string, path: string, seconds: real)

  /** The samples of each tracked endpoint after a sequence of requests. */
  function Tracked(max: int, requests: seq<Request>): Book {
    if requests == [] then map[]
    else
      var n := |requests| - 1;
      Observed(Tracked(max, requests[..n]), max, KeyOf(requests[n]), requests[n].seconds)
  }

  function KeyOf(r: Request): string {
    Key(r.verb, r.path)
  }

  /** The endpoint of every request, in order. */
  function Endpoints(requests: seq<Request>): (keys: seq<string>)
    ensures |keys| == |requests|
  {
    seq(|requests|, i requires 0 <= i < |requests| => KeyOf(requests[i]))
  }

  /** The durations of all requests to one endpoint, in order. */
  function Durations(requests: seq<Request>, key: string): seq<real> {
    if requests == [] then []
    else
      var n := |requests| - 1;
      Durations(requests[..n], key) + if KeyOf(requests[n]) == key then [requests[n].seconds] else []
  }

  lemma {:induction false} NoDurations(requests: seq<Request>, key: string)
    requires key !in Endpoints(requests)
    ensures Durations(requests, key) == []
  {
    if requests != [] {
      var n := |requests| - 1;
      assert Endpoints(requests)[n] == KeyOf(requests[n]);
      assert Endpoints(requests[..n]) == Endpoints(requests)[..n];
      NoDurations(requests[..n], key);
    }
  }

  /** The tracked endpoints hold these keys, each with all of its durations. */
  ghost predicate Holds(book: Book, keys: seq<string>, requests: seq<Request>) {
    && book.Keys == Elements(keys)
    && forall key :: key in book ==> book[key] == Durations(requests, key)
  }

  /** An endpoint that may still enter has not been requested before. */
  lemma EntersOnce(book: Book, max: int, earlier: seq<Request>, key: string)
    requires book.Keys == Elements(FirstDistinct(Endpoints(earlier), max)) && key !in book && |book| < max
    ensures Durations(earlier, key) == []
  {
    var endpoints := Endpoints(earlier);
    FirstDistinctSize(endpoints, max);
    DistinctIs(endpoints);
    assert |book| == |book.Keys|;
    assert key in endpoints <==> key in Elements(endpoints);
    NoDurations(earlier, key);
  }

  lemma ObservedKeys(book: Book, max: int, endpoints: seq<string>, key: string, seconds: real)
    requires book.Keys == Elements(FirstDistinct(endpoints, max))
    ensures Observed(book, max, key, seconds).Keys == Elements(FirstDistinct(endpoints + [key], max))
  {
    AcceptStep(endpoints, key, max);
    assert |book| == |book.Keys|;
    assert key in book ==> book.Keys + {key} == book.Keys;
  }

  lemma DurationsSnoc(earlier: seq<Request>, r: Request, key: string)
    ensures Durations(earlier + [r], key) == Durations(earlier, key) + if KeyOf(r) == key then [r.seconds] else []
  {
    assert (earlier + [r])[..|earlier|] == earlier;
  }

  lemma ObservedDurations(book: Book, max: int, earlier: seq<Request>, r: Request, key: string, k: string)
    requires key == KeyOf(r) && k in Observed(book, max, key, r.seconds)
    requires k in book ==> book[k] == Durations(earlier, k)
    requires key !in book && |book| < max ==> Durations(earlier, key) == []
    ensures Observed(book, max, key, r.seconds)[k] == Durations(earlier + [r], k)
  {
    DurationsSnoc(earlier, r, k);
  }

  /** One more request. */
  lemma ObservedHolds(book: Book, max: int, earlier: seq<Request>, r: Request, key: string)
    requires Holds(book, FirstDistinct(Endpoints(earlier), max), earlier) && key == KeyOf(r)
    ensures Holds(Observed(book, max, key, r.seconds), FirstDistinct(Endpoints(earlier) + [key], max), earlier + [r])
  {
    ObservedKeys(book, max, Endpoints(earlier), key, r.seconds);
    if key !in book && |book| < max {
      EntersOnce(book, max, earlier, key);
    }
    forall k | k in Observed(book, max, key, r.seconds)
      ensures Observed(book, max, key, r.seconds)[k] == Durations(earlier + [r], k)
    {
      ObservedDurations(book, max, earlier, r, key, k);
    }
  }

  /** Tracked are the first `max` distinct endpoints, each with the durations of all of its requests, in order. */
  lemma {:induction false} TrackedAreFirstEndpoints(max: int, requests: seq<Request>)
    ensures Holds(Tracked(max, requests), FirstDistinct(Endpoints(requests), max), requests)
  {
    if requests == [] {
      assert FirstDistinct(Endpoints([]), max) == [];
    } else {
      var n := |requests| - 1;
      TrackedAreFirstEndpoints(max, requests[..n]);
      ObservedHolds(Tracked(max, requests[..n]), max, requests[..n], requests[n], KeyOf(requests[n]));
      assert requests[..n] + [requests[n]] == requests;
      assert Endpoints(requests[..n]) + [KeyOf(requests[n])] == Endpoints(requests);
    }
  }

  /** Two requests share a series exactly if their methods agree and their paths do, ids aside. Methods have no tab. */
  lemma SameEndpointIff(a: Request, b: Request)
    requires '\t' !in a.verb && '\t' !in b.verb
    ensures KeyOf(a) == KeyOf(b) <==> a.verb == b.verb && Labels.SamePath(a.path, b.path)
  {
    var p, q := Labels.Normal(a.path), Labels.Normal(b.path);
    Labels.NormalizeEqualIff(a.path, b.path);
    assert KeyOf(a) == a.verb + ("\t" + p) && KeyOf(b) == b.verb + ("\t" + q);
    if KeyOf(a) == KeyOf(b) {
      Text.CutFirst('\t', a.verb, "\t" + p, b.verb, "\t" + q);
      assert p == ("\t" + p)[1..] && q == ("\t" + q)[1..];
    }
  }
}
