/**
 * The query string built from the request parameters: `key=value` pairs in
 * enumeration order, separated by `&`, with no leading or trailing `&`.
 * Keys and values are written as they are, without percent-encoding.
 */
module QueryString {

  /** The dictionary's entries, in the order it enumerates them. */
  type Parameters = seq<(string, string)>

  function Pair(p: (string, string)): string
  {
    p.0 + "=" + p.1
  }

  /** The pairs joined by `&`, built from the left as the loop builds it. */
  function Joined(ps: Parameters): string
  {
    if ps == [] then ""
    else if |ps| == 1 then Pair(ps[0])
    else Joined(ps[..|ps| - 1]) + "&" + Pair(ps[|ps| - 1])
  }

  /** Splits `s` at every `&` (as `String.Split('&')` does). */
  function Split(s: string): (parts: seq<string>)
    ensures |parts| > 0
  {
    if s == [] then [""]
    else
      var parts0, c := Split(s[..|s| - 1]), s[|s| - 1];
      if c == '&' then parts0 + [""]
      else parts0[..|parts0| - 1] + [parts0[|parts0| - 1] + [c]]
  }

  lemma {:induction false} SplitWithoutSeparator(s: string)
    requires '&' !in s
    ensures Split(s) == [s]
  {
    if s != [] {
      SplitWithoutSeparator(s[..|s| - 1]);
      assert s == s[..|s| - 1] + [s[|s| - 1]];
    }
  }

  lemma {:induction false} SplitAfterSeparator(a: string, b: string)
    requires '&' !in b
    ensures Split(a + "&" + b) == Split(a) + [b]
  {
    if b == [] {
      var s := a + "&" + b;
      assert s == a + "&";
      assert s[..|s| - 1] == a && s[|s| - 1] == '&';
    } else {
      var b', c := b[..|b| - 1], b[|b| - 1];
      assert (a + "&" + b)[..|a + "&" + b| - 1] == a + "&" + b';
      assert b == b' + [c];
      SplitAfterSeparator(a, b');
    }
  }

  /** No `&` inside any key or value. */
  predicate Plain(ps: Parameters)
  {
    forall i :: 0 <= i < |ps| ==> '&' !in ps[i].0 && '&' !in ps[i].1
  }

  /** The `key=value` text of each pair, in order. */
  function Pairs(ps: Parameters): (r: seq<string>)
    ensures |r| == |ps|
  {
    if ps == [] then [] else Pairs(ps[..|ps| - 1]) + [Pair(ps[|ps| - 1])]
  }

  /**
   * Splitting the query string at `&` gives back the `key=value` pairs, in
   * order, when no key or value contains `&`; so there are exactly n - 1
   * separators and none leads or trails.
   */
  lemma {:induction false} SplitJoined(ps: Parameters)
    requires |ps| > 0 && Plain(ps)
    ensures Split(Joined(ps)) == Pairs(ps)
  {
    if |ps| == 1 {
      SplitWithoutSeparator(Pair(ps[0]));
    } else {
      var init, p := ps[..|ps| - 1], ps[|ps| - 1];
      SplitJoined(init);
      assert '&' !in Pair(p);
      SplitAfterSeparator(Joined(init), Pair(p));
    }
  }

  lemma {:induction false} JoinedIsEmptyOnlyForNoPairs(ps: Parameters)
    ensures (Joined(ps) == "") <==> (ps == [])
  {
    if |ps| > 1 {
      JoinedIsEmptyOnlyForNoPairs(ps[..|ps| - 1]);
    }
  }

  /** `BuildQueryString`: a `first` flag decides whether to write the separator. */
  method BuildQueryString(parameters: Parameters) returns (query: string)
    ensures query == Joined(parameters)
  {
    query := "";
    var first := true;
    var i := 0;
    while i < |parameters|
      invariant 0 <= i <= |parameters|
      invariant first <==> i == 0
      invariant query == Joined(parameters[..i])
    {
      assert parameters[..i + 1][..i] == parameters[..i];
      if !first {
        query := query + "&";
      }
      query := query + parameters[i].0 + "=" + parameters[i].1;
      first := false;
      i := i + 1;
    }
    assert parameters[..i] == parameters;
  }

  /** A URI as its part before the `?` and its query, written without the `?`. */
  datatype Uri = Uri(path: string, query: string)

  function UriText(u: Uri): string
  {
    if u.query == "" then u.path else u.path + "?" + u.query
  }

  /**
   * `AddParameters`: the query string becomes the query of a URI that has
   * none, and is joined to an existing query with `&`.
   */
  function AddParameters(resource: Uri, parameters: Parameters): (r: Uri)
    ensures r.path == resource.path
    ensures (r.query == "") <==> (resource.query == "" && parameters == [])
    ensures resource.query != "" ==> |r.query| > |resource.query| && r.query[..|resource.query|] == resource.query
  {
    JoinedIsEmptyOnlyForNoPairs(parameters);
    var query := Joined(parameters);
    if resource.query == "" then Uri(resource.path, query)
    else Uri(resource.path, resource.query + "&" + query)
  }

  lemma {:induction false} SplitAfterJoined(a: string, ps: Parameters)
    requires |ps| > 0 && Plain(ps)
    ensures Split(a + "&" + Joined(ps)) == Split(a) + Pairs(ps)
  {
    var last := ps[|ps| - 1];
    assert '&' !in Pair(last);
    if |ps| == 1 {
      SplitAfterSeparator(a, Pair(last));
    } else {
      var init := ps[..|ps| - 1];
      SplitAfterJoined(a, init);
      assert a + "&" + Joined(ps) == (a + "&" + Joined(init)) + "&" + Pair(last) by {
        assert (a + "&" + Joined(init) + "&") + Pair(last) == a + "&" + (Joined(init) + "&" + Pair(last));
        assert (a + "&" + Joined(init)) + "&" == a + "&" + (Joined(init) + "&");
      }
      SplitAfterSeparator(a + "&" + Joined(init), Pair(last));
      assert (Split(a) + Pairs(init)) + [Pair(last)] == Split(a) + (Pairs(init) + [Pair(last)]);
    }
  }

  /**
   * The new query splits at `&` into the pieces of the old one followed by
   * the `key=value` pairs, in order.
   */
  lemma QueryOfAddParameters(resource: Uri, parameters: Parameters)
    requires |parameters| > 0 && Plain(parameters)
    ensures resource.query == "" ==> Split(AddParameters(resource, parameters).query) == Pairs(parameters)
    ensures resource.query != "" ==>
      Split(AddParameters(resource, parameters).query) == Split(resource.query) + Pairs(parameters)
  {
    if resource.query == "" {
      SplitJoined(parameters);
    } else {
      SplitAfterJoined(resource.query, parameters);
    }
  }

  /** The two parameters every issue request carries. */
  lemma IssueQuery()
    ensures Joined([("state", "closed"), ("per_page", "100")]) == "state=closed&per_page=100"
  {
    assert [("state", "closed"), ("per_page", "100")][..1] == [("state", "closed")];
  }
}
