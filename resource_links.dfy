/**
 * The URLs of a `Link` response header (section 3 of RFC 8288, Web Linking):
 * every non-overlapping match of the regular expression `<(.+?)>`, taken left
 * to right, with all leading and trailing `<` and `>` trimmed off the match.
 *
 * In that expression `.` is any character except a line feed, and the lazy
 * `.+?` always takes the first character after `<` (even a `>`) before it
 * starts looking for the closing `>`.
 */
module ResourceLinks {
  import opened Wrappers

  predicate IsBracket(c: char)
  {
    c == '<' || c == '>'
  }

  /**
   * Where the lazy `.+?>` closes once its first character is taken: the first
   * `>` of `t`, provided no line feed comes before it.
   */
  function CloseAt(t: string): (r: Option<nat>)
    ensures r.Some? ==> r.value < |t| && t[r.value] == '>'
    ensures r.Some? ==> forall k :: 0 <= k < r.value ==> t[k] != '>' && t[k] != '\n'
    ensures r.None? ==> forall k :: 0 <= k < |t| && '\n' !in t[..k] ==> t[k] != '>'
  {
    if t == [] then None
    else if t[0] == '>' then Some(0)
    else if t[0] == '\n' then None
    else
      match CloseAt(t[1..])
      case None =>
        assert forall k :: 0 <= k < |t| && '\n' !in t[..k] ==> t[k] != '>' by {
          forall k | 1 <= k < |t| && '\n' !in t[..k] ensures t[k] != '>' {
            assert t[1..][..k - 1] == t[..k][1..];
            assert t[k] == t[1..][k - 1];
          }
        }
        None
      case Some(j) => Some(j + 1)
  }

  /** Length of the match of `<(.+?)>` that starts at `s[0]`, if there is one. */
  function MatchLength(s: string): (r: Option<nat>)
    ensures r.Some? ==> 3 <= r.value <= |s|
  {
    if |s| >= 2 && s[0] == '<' && s[1] != '\n' then
      match CloseAt(s[2..])
      case None => None
      case Some(j) => Some(j + 3)
    else None
  }

  /** `w` without its leading brackets: what is removed is all brackets, what is left starts with none. */
  function TrimStart(w: string): (r: string)
    ensures |r| <= |w| && r == w[|w| - |r|..]
    ensures forall k :: 0 <= k < |w| - |r| ==> IsBracket(w[k])
    ensures r == [] || !IsBracket(r[0])
  {
    if w != [] && IsBracket(w[0]) then
      var r := TrimStart(w[1..]);
      assert forall k :: 1 <= k < |w| - |r| ==> w[k] == w[1..][k - 1];
      r
    else w
  }

  /** `w` without its trailing brackets: what is removed is all brackets, what is left ends with none. */
  function TrimEnd(w: string): (r: string)
    ensures |r| <= |w| && r == w[..|r|]
    ensures forall k :: |r| <= k < |w| ==> IsBracket(w[k])
    ensures r == [] || !IsBracket(r[|r| - 1])
  {
    if w != [] && IsBracket(w[|w| - 1]) then
      var r := TrimEnd(w[..|w| - 1]);
      assert forall k :: |r| <= k < |w| - 1 ==> w[k] == w[..|w| - 1][k];
      r
    else w
  }

  /** `Trim(new[] { '<', '>' })`: strips every leading and trailing bracket. */
  function TrimBrackets(w: string): string
  {
    TrimEnd(TrimStart(w))
  }

  /**
   * Trimming gives an infix of `w` such that everything before it and after
   * it is a bracket, and it neither starts nor ends with one; by
   * `TrimBracketsIsUnique` these conditions fix the result.
   */
  lemma TrimBracketsShape(w: string)
    ensures var r, i := TrimBrackets(w), |w| - |TrimStart(w)|;
      i + |r| <= |w| && r == w[i..i + |r|] &&
      (r == [] || (!IsBracket(r[0]) && !IsBracket(r[|r| - 1]))) &&
      (forall k :: 0 <= k < i ==> IsBracket(w[k])) &&
      (forall k :: i + |r| <= k < |w| ==> IsBracket(w[k]))
  {
    TrimmedIsInfix(w);
    TrimmedEnds(w);
    TrimmedTail(w);
  }

  lemma TrimmedIsInfix(w: string)
    ensures var r, i := TrimBrackets(w), |w| - |TrimStart(w)|;
      i + |r| <= |w| && r == w[i..i + |r|]
  {
    var t := TrimStart(w);
    var i := |w| - |t|;
    assert t == w[i..];
  }

  lemma TrimmedEnds(w: string)
    ensures var r := TrimBrackets(w);
      r == [] || (!IsBracket(r[0]) && !IsBracket(r[|r| - 1]))
  {
    var t := TrimStart(w);
    var r := TrimEnd(t);
    assert r == [] || r[0] == t[0];
  }

  lemma TrimmedTail(w: string)
    ensures var r, i := TrimBrackets(w), |w| - |TrimStart(w)|;
      forall k :: i + |r| <= k < |w| ==> IsBracket(w[k])
  {
    var t := TrimStart(w);
    var r := TrimEnd(t);
    var i := |w| - |t|;
    forall k | i + |r| <= k < |w| ensures IsBracket(w[k]) {
      assert w[k] == t[k - i];
    }
  }

  /** Any infix of `w` with brackets all around it and none at its ends is what trimming gives. */
  lemma TrimBracketsIsUnique(w: string, i: nat, r: string)
    requires i + |r| <= |w| && r == w[i..i + |r|]
    requires forall k :: 0 <= k < i ==> IsBracket(w[k])
    requires forall k :: i + |r| <= k < |w| ==> IsBracket(w[k])
    requires r == [] || (!IsBracket(r[0]) && !IsBracket(r[|r| - 1]))
    ensures TrimBrackets(w) == r
  {
    var t := TrimStart(w);
    var lead := |w| - |t|;
    if r == [] {
      assert forall k :: 0 <= k < |w| ==> IsBracket(w[k]);
    } else {
      assert w[i] == r[0];
      assert lead == i;
      assert t[..|r|] == r;
    }
  }

  /**
   * The URLs `GetResourceLinks` returns for a `Link` header value, one per
   * match; a match spans at least three characters.
   */
  function Links(s: string): (r: seq<string>)
    ensures 3 * |r| <= |s|
    decreases |s|
  {
    if s == [] then []
    else
      match MatchLength(s)
      case Some(n) => [TrimBrackets(s[..n])] + Links(s[n..])
      case None => Links(s[1..])
  }

  lemma CloseAtFound(t: string, k: nat)
    requires k < |t| && t[k] == '>'
    requires forall m :: 0 <= m < k ==> t[m] != '>' && t[m] != '\n'
    ensures CloseAt(t) == Some(k)
  {
  }

  lemma LinksNoMatch(s: string)
    requires s != [] && MatchLength(s) == None
    ensures Links(s) == Links(s[1..])
  {
  }

  lemma LinksMatch(s: string, n: nat)
    requires s != [] && MatchLength(s) == Some(n)
    ensures Links(s) == [TrimBrackets(s[..n])] + Links(s[n..])
  {
  }

  lemma CloseAtMissing(t: string, k: nat)
    requires k <= |t| && (k == |t| || t[k] == '\n')
    requires forall m :: 0 <= m < k ==> t[m] != '>' && t[m] != '\n'
    ensures CloseAt(t) == None
  {
  }

  /** Tries `<(.+?)>` at the start of `s`: the length of the match, if any. */
  method MatchAt(s: string) returns (n: Option<nat>)
    ensures n == MatchLength(s)
  {
    if !(|s| >= 2 && s[0] == '<' && s[1] != '\n') {
      return None;
    }
    var k := 2;
    while k < |s| && s[k] != '>' && s[k] != '\n'
      invariant 2 <= k <= |s|
      invariant forall m :: 2 <= m < k ==> s[m] != '>' && s[m] != '\n'
    {
      k := k + 1;
    }
    if k < |s| && s[k] == '>' {
      CloseAtFound(s[2..], k - 2);
      n := Some(k + 1);
    } else {
      CloseAtMissing(s[2..], k - 2);
      n := None;
    }
  }

  /** `GetResourceLinks`: walks the header once, collecting each match's URL. */
  method GetResourceLinks(link: string) returns (links: seq<string>)
    ensures links == Links(link)
  {
    links := [];
    var rest := link;
    while rest != []
      invariant links + Links(rest) == Links(link)
      decreases |rest|
    {
      var m := MatchAt(rest);
      match m {
        case Some(n) =>
          LinksMatch(rest, n);
          links := links + [TrimBrackets(rest[..n])];
          rest := rest[n..];
        case None =>
          LinksNoMatch(rest);
          rest := rest[1..];
      }
    }
  }

  // ----- a well-formed header gives back its URLs -----

  /** A URL that the scan returns unchanged: non-empty, no brackets, no line feed. */
  predicate PlainUrl(u: string)
  {
    |u| > 0 && forall k :: 0 <= k < |u| ==> !IsBracket(u[k]) && u[k] != '\n'
  }

  /** One link-value: `<url>` followed by its parameters and separator. */
  datatype LinkValue = LinkValue(url: string, params: string)

  predicate WellFormed(values: seq<LinkValue>)
  {
    forall i :: 0 <= i < |values| ==> PlainUrl(values[i].url) && '<' !in values[i].params
  }

  function Header(values: seq<LinkValue>): string
  {
    if values == [] then ""
    else "<" + values[0].url + ">" + values[0].params + Header(values[1..])
  }

  function Urls(values: seq<LinkValue>): seq<string>
  {
    if values == [] then [] else [values[0].url] + Urls(values[1..])
  }

  lemma {:induction false} LinksSkip(p: string, r: string)
    requires '<' !in p
    ensures Links(p + r) == Links(r)
  {
    if p == [] {
      assert p + r == r;
    } else {
      assert (p + r)[0] == p[0] && p[0] != '<';
      assert MatchLength(p + r) == None;
      LinksNoMatch(p + r);
      assert (p + r)[1..] == p[1..] + r;
      LinksSkip(p[1..], r);
    }
  }

  lemma TrimPlain(u: string)
    requires PlainUrl(u)
    ensures TrimBrackets("<" + u + ">") == u
  {
    var w := "<" + u + ">";
    assert w[1..1 + |u|] == u;
    assert w[0] == '<' && w[|w| - 1] == '>';
    TrimBracketsIsUnique(w, 1, u);
  }

  lemma MatchPlain(u: string, r: string)
    requires PlainUrl(u)
    ensures MatchLength("<" + u + ">" + r) == Some(|u| + 2)
  {
    var s := "<" + u + ">" + r;
    var t := s[2..];
    assert t[|u| - 1] == '>';
    assert forall k :: 0 <= k < |u| - 1 ==> t[k] == u[k + 1];
    assert CloseAt(t) == Some(|u| - 1);
  }

  /** One well-formed link-value in front of `tail` contributes exactly its URL. */
  lemma LinksOfLinkValue(u: string, p: string, tail: string)
    requires PlainUrl(u) && '<' !in p
    ensures Links("<" + u + ">" + p + tail) == [u] + Links(tail)
  {
    var s := "<" + u + ">" + p + tail;
    assert s == "<" + u + ">" + (p + tail);
    MatchPlain(u, p + tail);
    LinksMatch(s, |u| + 2);
    assert s[..|u| + 2] == "<" + u + ">";
    assert s[|u| + 2..] == p + tail;
    TrimPlain(u);
    LinksSkip(p, tail);
  }

  /** For a header of well-formed link-values, the scan returns exactly their URLs, in order. */
  lemma {:induction false} LinksOfHeader(values: seq<LinkValue>)
    requires WellFormed(values)
    ensures Links(Header(values)) == Urls(values)
  {
    if values != [] {
      var v, rest := values[0], values[1..];
      assert Links(Header(values)) == [v.url] + Links(Header(rest)) by {
        assert Header(values) == "<" + v.url + ">" + v.params + Header(rest);
        LinksOfLinkValue(v.url, v.params, Header(rest));
      }
      assert Links(Header(rest)) == Urls(rest) by {
        assert WellFormed(rest) by {
          forall i | 0 <= i < |rest| ensures PlainUrl(rest[i].url) && '<' !in rest[i].params {
            assert rest[i] == values[i + 1];
          }
        }
        LinksOfHeader(rest);
      }
    }
  }

  const NextParams := "; rel=\"next\", "
  const LastParams := "; rel=\"last\""

  /** The `Link` header GitHub sends with a page that has a next page: `<a>; rel="next", <b>; rel="last"`. */
  function NextLastHeader(next: string, last: string): string
  {
    ("<" + next + ">" + NextParams) + ("<" + last + ">" + LastParams)
  }

  /** The shape GitHub sends gives `[a, b]`: the next page first, then the last. */
  lemma NextAndLast(a: string, b: string)
    requires PlainUrl(a) && PlainUrl(b)
    ensures Links(NextLastHeader(a, b)) == [a, b]
  {
    var last := LinkValue(b, LastParams);
    var values := [LinkValue(a, NextParams), last];
    assert values[1..] == [last] && [last][1..] == [];
    assert Header(values) == ("<" + a + ">" + NextParams) + ("<" + b + ">" + LastParams) by {
      assert Header([last]) == "<" + b + ">" + LastParams + "";
    }
    assert Urls(values) == [a, b] by {
      assert Urls([last]) == [b] + [];
    }
    LinksOfHeader(values);
  }
}
