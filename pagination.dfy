/**
 * The paging loop that fetches every closed issue. The HTTP exchange is an
 * abstract server: a total function from a requested URL to its response.
 * The loop requests `resource`, stops on a failed response, appends a good
 * page, stops if the page just fetched was the last one (compared ignoring
 * case), and otherwise moves to the first `Link` URL, remembering the second
 * one as the last page the first time round.
 */
module Pagination {
  import opened Wrappers
  import opened Text
  import opened ReleaseNotes
  import opened ResourceLinks

  /**
   * One response: its status, its first `X-RateLimit-Remaining` header value,
   * the issues in its body and its first `Link` header value.
   */
  datatype Response = Response(success: bool, remaining: Option<string>, page: seq<Issue>, link: Option<string>)

  type Server = string -> Response

  /** The exceptions the loop body can throw. */
  datatype Error =
    | NoRateLimitHeader       // `GetValues("X-RateLimit-Remaining")` on a response without one
    | NoLinkHeader            // `GetValues("Link")` on a response without one
    | MissingLink(index: nat) // `resourceLinks[index]` out of range

  datatype State = State(resource: string, lastResource: Option<string>, issues: seq<Issue>)

  datatype Outcome =
    | Finished(issues: seq<Issue>)
    | Crashed(error: Error)
    | OutOfFuel(state: State)   // the loop would go on

  datatype Step = Stop(issues: seq<Issue>) | Continue(next: State) | Throw(error: Error)

  /** Before the loop: nothing fetched, no last page known (`null`). */
  function Initial(start: string): State
  {
    State(start, None, [])
  }

  /** `String.IsNullOrEmpty`. */
  predicate IsNullOrEmpty(s: Option<string>)
  {
    s.None? || s.value == ""
  }

  /** `resource.Equals(lastResource, StringComparison.OrdinalIgnoreCase)`; false against `null`. */
  predicate IsLast(resource: string, lastResource: Option<string>)
    ensures lastResource == Some(resource) ==> IsLast(resource, lastResource)
    ensures IsLast(resource, lastResource) ==> lastResource.Some? && |lastResource.value| == |resource|
  {
    lastResource.Some? && EqualsIgnoreCase(resource, lastResource.value)
  }

  /** One pass of the loop body; `AdvanceCases` and `AdvanceFollowsLinks` state what it does. */
  function Advance(server: Server, st: State): (r: Step)
    ensures r.Stop? ==>
      r.issues == st.issues + if server(st.resource).success then server(st.resource).page else []
    ensures r.Continue? ==> r.next.issues == st.issues + server(st.resource).page
  {
    var response := server(st.resource);
    if !response.success then Stop(st.issues)
    else if response.remaining.None? then Throw(NoRateLimitHeader)
    else
      var issues := st.issues + response.page;
      if IsLast(st.resource, st.lastResource) then Stop(issues)
      else if response.link.None? then Throw(NoLinkHeader)
      else
        var links := Links(response.link.value);
        if |links| < 1 then Throw(MissingLink(0))
        else if !IsNullOrEmpty(st.lastResource) then Continue(State(links[0], st.lastResource, issues))
        else if |links| < 2 then Throw(MissingLink(1))
        else Continue(State(links[0], Some(links[1]), issues))
  }

  /**
   * A failed response stops the loop with the issues held; the known last
   * page stops it after its issues are appended; otherwise the loop goes on
   * to the first link, taking the second as the last page when none is known.
   */
  lemma AdvanceCases(server: Server, st: State)
    ensures !server(st.resource).success ==> Advance(server, st) == Stop(st.issues)
    ensures server(st.resource).success && server(st.resource).remaining.None? ==>
      Advance(server, st) == Throw(NoRateLimitHeader)
    ensures (server(st.resource).success && server(st.resource).remaining.Some? &&
             IsLast(st.resource, st.lastResource)) ==>
      Advance(server, st) == Stop(st.issues + server(st.resource).page)
    ensures Advance(server, st).Continue? ==>
      server(st.resource).success && server(st.resource).remaining.Some? && !IsLast(st.resource, st.lastResource)
    ensures Advance(server, st).Continue? && !IsNullOrEmpty(st.lastResource) ==>
      Advance(server, st).next.lastResource == st.lastResource
    ensures Advance(server, st).Continue? ==>
      (server(st.resource).link.Some? && |Links(server(st.resource).link.value)| >= 1 &&
       Advance(server, st).next.resource == Links(server(st.resource).link.value)[0])
    ensures Advance(server, st).Continue? && IsNullOrEmpty(st.lastResource) ==>
      (|Links(server(st.resource).link.value)| >= 2 &&
       Advance(server, st).next.lastResource == Some(Links(server(st.resource).link.value)[1]))
  {
  }

  /**
   * A pass that gets past the status, rate-limit and last-page checks reads the
   * `Link` header: a missing header or a missing link throws, and otherwise the
   * loop goes on to the first link, taking the second as the last page when
   * none is known yet.
   */
  lemma AdvanceFollowsLinks(server: Server, st: State)
    requires server(st.resource).success && server(st.resource).remaining.Some?
    requires !IsLast(st.resource, st.lastResource)
    ensures server(st.resource).link.None? ==> Advance(server, st) == Throw(NoLinkHeader)
    ensures server(st.resource).link.Some? ==>
      var links, issues := Links(server(st.resource).link.value), st.issues + server(st.resource).page;
      (|links| == 0 ==> Advance(server, st) == Throw(MissingLink(0))) &&
      (|links| >= 1 && !IsNullOrEmpty(st.lastResource) ==>
         Advance(server, st) == Continue(State(links[0], st.lastResource, issues))) &&
      (|links| == 1 && IsNullOrEmpty(st.lastResource) ==> Advance(server, st) == Throw(MissingLink(1))) &&
      (|links| >= 2 && IsNullOrEmpty(st.lastResource) ==>
         Advance(server, st) == Continue(State(links[0], Some(links[1]), issues)))
  {
  }

  /**
   * A page that carries GitHub's next/last header and is not the last page
   * moves the loop to the next page, recording the last page if none is known.
   */
  lemma NextPage(server: Server, st: State, next: string, last: string)
    requires PlainUrl(next) && PlainUrl(last)
    requires server(st.resource).success && server(st.resource).remaining.Some?
    requires server(st.resource).link == Some(NextLastHeader(next, last))
    requires !IsLast(st.resource, st.lastResource)
    ensures Advance(server, st) ==
      Continue(State(next, if IsNullOrEmpty(st.lastResource) then Some(last) else st.lastResource,
                     st.issues + server(st.resource).page))
  {
    NextAndLast(next, last);
    AdvanceFollowsLinks(server, st);
  }

  /** The loop body against `server`, as a function of the state. */
  function Pass(server: Server): State -> Step
  {
    st => Advance(server, st)
  }

  // The loop is stated for any pass function, so that the facts about runs and
  // traces below do not depend on what one pass does.

  /** At most `fuel` passes of the loop from `st`. */
  function Run(pass: State -> Step, st: State, fuel: nat): Outcome
    decreases fuel
  {
    if fuel == 0 then OutOfFuel(st)
    else
      match pass(st)
      case Stop(issues) => Finished(issues)
      case Throw(e) => Crashed(e)
      case Continue(next) => Run(pass, next, fuel - 1)
  }

  /** The states in which a request is sent, in order. */
  function Trace(pass: State -> Step, st: State, fuel: nat): (t: seq<State>)
    decreases fuel
    ensures |t| <= fuel
    ensures fuel > 0 ==> |t| > 0 && t[0] == st
  {
    if fuel == 0 then []
    else
      match pass(st)
      case Continue(next) => [st] + Trace(pass, next, fuel - 1)
      case _ => [st]
  }

  lemma RunStops(pass: State -> Step, st: State, fuel: nat)
    requires fuel > 0 && !pass(st).Continue?
    ensures Run(pass, st, fuel) == if pass(st).Stop? then Finished(pass(st).issues) else Crashed(pass(st).error)
    ensures Trace(pass, st, fuel) == [st]
  {
  }

  /** A pass that goes on leaves the rest of the run to the next state. */
  lemma RunContinue(pass: State -> Step, st: State, fuel: nat)
    requires fuel > 0 && pass(st).Continue?
    ensures Run(pass, st, fuel) == Run(pass, pass(st).next, fuel - 1)
    ensures Trace(pass, st, fuel) == [st] + Trace(pass, pass(st).next, fuel - 1)
  {
  }

  /** Each state of a trace but the last goes on, to the state after it. */
  lemma {:induction false} TraceIsChain(pass: State -> Step, st: State, fuel: nat)
    ensures forall i :: 0 <= i < |Trace(pass, st, fuel)| - 1 ==>
      pass(Trace(pass, st, fuel)[i]) == Continue(Trace(pass, st, fuel)[i + 1])
    decreases fuel
  {
    if fuel > 0 && pass(st).Continue? {
      var next := pass(st).next;
      TraceIsChain(pass, next, fuel - 1);
      RunContinue(pass, st, fuel);
      var t, tail := Trace(pass, st, fuel), Trace(pass, next, fuel - 1);
      forall i | 0 <= i < |t| - 1 ensures pass(t[i]) == Continue(t[i + 1]) {
        if i > 0 {
          assert t[i] == tail[i - 1] && t[i + 1] == tail[i];
        }
      }
    }
  }

  /** A property that every pass which goes on preserves holds in every state of the run. */
  lemma {:induction false} TraceKeeps(pass: State -> Step, inv: State -> bool, st: State, fuel: nat)
    requires inv(st)
    requires forall s :: inv(s) && pass(s).Continue? ==> inv(pass(s).next)
    ensures forall i :: 0 <= i < |Trace(pass, st, fuel)| ==> inv(Trace(pass, st, fuel)[i])
    ensures Run(pass, st, fuel).OutOfFuel? ==> inv(Run(pass, st, fuel).state)
    decreases fuel
  {
    if fuel > 0 && pass(st).Continue? {
      var next := pass(st).next;
      TraceKeeps(pass, inv, next, fuel - 1);
      RunContinue(pass, st, fuel);
      var t, tail := Trace(pass, st, fuel), Trace(pass, next, fuel - 1);
      forall i | 1 <= i < |t| ensures inv(t[i]) {
        assert t[i] == tail[i - 1];
      }
    }
  }

  /** The issues a request adds when it succeeds. */
  function Got(server: Server, st: State): seq<Issue>
  {
    if server(st.resource).success then server(st.resource).page else []
  }

  /** The issues of the successful responses to the requests sent in `t`, in order. */
  function Pages(server: Server, t: seq<State>): seq<Issue>
  {
    if t == [] then [] else Got(server, t[0]) + Pages(server, t[1..])
  }

  /** A pass that stops or goes on has appended what its request got. */
  ghost predicate Appends(server: Server, pass: State -> Step)
  {
    forall s :: (pass(s).Stop? ==> pass(s).issues == s.issues + Got(server, s)) &&
                (pass(s).Continue? ==> pass(s).next.issues == s.issues + Got(server, s))
  }

  lemma {:induction false} RunAppendsPages(server: Server, pass: State -> Step, st: State, fuel: nat)
    requires Appends(server, pass)
    ensures Run(pass, st, fuel).Finished? ==>
      Run(pass, st, fuel).issues == st.issues + Pages(server, Trace(pass, st, fuel))
    ensures Run(pass, st, fuel).OutOfFuel? ==>
      Run(pass, st, fuel).state.issues == st.issues + Pages(server, Trace(pass, st, fuel))
    decreases fuel
  {
    if fuel > 0 {
      var step, got := pass(st), Got(server, st);
      if step.Stop? {
        RunStops(pass, st, fuel);
        assert Pages(server, [st]) == got by {
          assert [st][1..] == [];
        }
      } else if step.Continue? {
        var next, tail := step.next, Trace(pass, step.next, fuel - 1);
        RunAppendsPages(server, pass, next, fuel - 1);
        RunContinue(pass, st, fuel);
        assert Pages(server, [st] + tail) == got + Pages(server, tail) by {
          assert ([st] + tail)[1..] == tail;
        }
        assert (st.issues + got) + Pages(server, tail) == st.issues + (got + Pages(server, tail));
      }
    }
  }

  /**
   * The issues returned are the ones already held followed by the pages of
   * every successful request, in request order; a failed request adds nothing.
   */
  lemma RunAccumulatesPages(server: Server, st: State, fuel: nat)
    ensures Run(Pass(server), st, fuel).Finished? ==>
      Run(Pass(server), st, fuel).issues == st.issues + Pages(server, Trace(Pass(server), st, fuel))
    ensures Run(Pass(server), st, fuel).OutOfFuel? ==>
      Run(Pass(server), st, fuel).state.issues == st.issues + Pages(server, Trace(Pass(server), st, fuel))
  {
    assert Appends(server, Pass(server)) by {
      forall s ensures (Pass(server)(s).Stop? ==> Pass(server)(s).issues == s.issues + Got(server, s)) &&
                       (Pass(server)(s).Continue? ==> Pass(server)(s).next.issues == s.issues + Got(server, s))
      {
        assert Pass(server)(s) == Advance(server, s);
      }
    }
    RunAppendsPages(server, Pass(server), st, fuel);
  }

  lemma PassGoesOn(server: Server, s: State)
    requires Pass(server)(s).Continue?
    ensures server(s.resource).success && server(s.resource).remaining.Some? && !IsLast(s.resource, s.lastResource)
  {
    assert Advance(server, s).Continue?;
  }

  /** Only the last request of a run can fail, and only the last can be the last page. */
  lemma OnlyTheFinalRequestStops(server: Server, st: State, fuel: nat)
    ensures forall i :: 0 <= i < |Trace(Pass(server), st, fuel)| - 1 ==>
      var s := Trace(Pass(server), st, fuel)[i];
      server(s.resource).success && server(s.resource).remaining.Some? && !IsLast(s.resource, s.lastResource)
  {
    var t := Trace(Pass(server), st, fuel);
    TraceIsChain(Pass(server), st, fuel);
    forall i | 0 <= i < |t| - 1
      ensures server(t[i].resource).success && server(t[i].resource).remaining.Some? &&
              !IsLast(t[i].resource, t[i].lastResource)
    {
      assert Pass(server)(t[i]) == Continue(t[i + 1]);
      PassGoesOn(server, t[i]);
    }
  }

  /** Once a non-empty last page is known it never changes. */
  lemma LastResourceIsKept(server: Server, st: State, fuel: nat)
    requires !IsNullOrEmpty(st.lastResource)
    ensures forall i :: 0 <= i < |Trace(Pass(server), st, fuel)| ==>
      Trace(Pass(server), st, fuel)[i].lastResource == st.lastResource
    ensures Run(Pass(server), st, fuel).OutOfFuel? ==>
      Run(Pass(server), st, fuel).state.lastResource == st.lastResource
  {
    var last := st.lastResource;
    var keeps := (s: State) => s.lastResource == last;
    forall s | keeps(s) && Pass(server)(s).Continue? ensures keeps(Pass(server)(s).next) {
      AdvanceCases(server, s);
    }
    TraceKeeps(Pass(server), keeps, st, fuel);
  }

  /** The first page never ends the loop by the last-page check: no last page is known yet. */
  lemma FirstPageIsNotLast(server: Server, start: string)
    ensures Advance(server, Initial(start)).Stop? ==> !server(start).success
    ensures Advance(server, Initial(start)).Continue? ==>
      Advance(server, Initial(start)).next.lastResource == Some(Links(server(start).link.value)[1])
  {
  }

  /** The page whose URL matches the known last page ends the loop, its issues appended once. */
  lemma StopsAfterLastPage(server: Server, st: State, fuel: nat)
    requires fuel > 0 && server(st.resource).success && server(st.resource).remaining.Some?
    requires IsLast(st.resource, st.lastResource)
    ensures Run(Pass(server), st, fuel) == Finished(st.issues + server(st.resource).page)
    ensures Trace(Pass(server), st, fuel) == [st]
  {
    AdvanceCases(server, st);
    RunStops(Pass(server), st, fuel);
  }

  /**
   * When every issue fits on the first page the response carries no `Link`
   * header, and reading it throws before the page can be returned.
   */
  lemma SinglePageEndsWithoutLinks(server: Server, start: string, fuel: nat)
    requires fuel > 0 && server(start).success && server(start).remaining.Some? && server(start).link.None?
    ensures Run(Pass(server), Initial(start), fuel) == Crashed(NoLinkHeader)
  {
    assert Advance(server, Initial(start)) == Throw(NoLinkHeader);
    RunStops(Pass(server), Initial(start), fuel);
  }

  /** A run whose first two passes go on and whose third stops requests three states. */
  lemma ThreeSteps(pass: State -> Step, s1: State, s2: State, s3: State, fuel: nat)
    requires fuel >= 3 && pass(s1) == Continue(s2) && pass(s2) == Continue(s3) && pass(s3).Stop?
    ensures Trace(pass, s1, fuel) == [s1, s2, s3]
    ensures Run(pass, s1, fuel) == Finished(pass(s3).issues)
  {
    RunContinue(pass, s1, fuel);
    RunContinue(pass, s2, fuel - 1);
    RunStops(pass, s3, fuel - 2);
  }

  /**
   * Three pages: the first names the second as next and the third as last, the
   * second names the third as both. The run requests the three pages in that
   * order, the third once, and returns their issues in that order.
   */
  lemma ThreePages(server: Server, p1: string, p2: string, p3: string, fuel: nat)
    requires fuel >= 3 && PlainUrl(p2) && PlainUrl(p3) && !EqualsIgnoreCase(p2, p3)
    requires server(p1).success && server(p1).remaining.Some?
    requires server(p2).success && server(p2).remaining.Some?
    requires server(p3).success && server(p3).remaining.Some?
    requires server(p1).link == Some(NextLastHeader(p2, p3))
    requires server(p2).link == Some(NextLastHeader(p3, p3))
    ensures Trace(Pass(server), Initial(p1), fuel) ==
      [Initial(p1), State(p2, Some(p3), server(p1).page), State(p3, Some(p3), server(p1).page + server(p2).page)]
    ensures Run(Pass(server), Initial(p1), fuel) ==
      Finished(server(p1).page + server(p2).page + server(p3).page)
  {
    var s1 := Initial(p1);
    var s2 := State(p2, Some(p3), server(p1).page);
    var s3 := State(p3, Some(p3), server(p1).page + server(p2).page);
    assert s1.issues + server(p1).page == s2.issues;
    NextPage(server, s1, p2, p3);
    NextPage(server, s2, p3, p3);
    AdvanceCases(server, s3);
    assert Pass(server)(s1) == Advance(server, s1);
    assert Pass(server)(s2) == Advance(server, s2);
    assert Pass(server)(s3) == Advance(server, s3);
    ThreeSteps(Pass(server), s1, s2, s3, fuel);
  }

  /** One pass of the body of the `while (true)` loop of `GetIssues`, from the request on. */
  method RequestPage(server: Server, st: State) returns (step: Step)
    ensures step == Advance(server, st)
  {
    var response := server(st.resource);
    if !response.success {
      return Stop(st.issues);
    }
    if response.remaining.None? {
      return Throw(NoRateLimitHeader);
    }
    var issues := st.issues + response.page;
    if IsLast(st.resource, st.lastResource) {
      return Stop(issues);
    }
    if response.link.None? {
      return Throw(NoLinkHeader);
    }
    var links := GetResourceLinks(response.link.value);
    if |links| < 1 {
      return Throw(MissingLink(0));
    }
    var resource := links[0];
    var lastResource := st.lastResource;
    if IsNullOrEmpty(lastResource) {
      if |links| < 2 {
        return Throw(MissingLink(1));
      }
      lastResource := Some(links[1]);
    }
    step := Continue(State(resource, lastResource, issues));
  }

  /** What one pass does to the rest of a run: end it with its issues or its error, or hand it on. */
  lemma RunStep(pass: State -> Step, st: State, n: nat)
    requires n > 0
    ensures pass(st).Stop? ==> Run(pass, st, n) == Finished(pass(st).issues)
    ensures pass(st).Throw? ==> Run(pass, st, n) == Crashed(pass(st).error)
    ensures pass(st).Continue? ==> Run(pass, st, n) == Run(pass, pass(st).next, n - 1)
  {
  }

  /**
   * The `while (true)` loop of `GetIssues`, with at most `fuel` passes. The
   * ghost `pass`, tied to `Advance` by the precondition, is there only to keep
   * the proof cheap: with `Pass(server)` the verifier unfolds the `Link`
   * header parsing at every step of the loop.
   */
  method FollowPages(server: Server, ghost pass: State -> Step, start: string, fuel: nat) returns (outcome: Outcome)
    requires forall s {:trigger Advance(server, s)} :: pass(s) == Advance(server, s)
    ensures outcome == Run(pass, Initial(start), fuel)
  {
    var st := Initial(start);
    var n := fuel;
    while n > 0
      invariant Run(pass, st, n) == Run(pass, Initial(start), fuel)
    {
      var step := RequestPage(server, st);
      assert pass(st) == step;
      RunStep(pass, st, n);
      match step {
        case Stop(issues) =>
          return Finished(issues);
        case Throw(error) =>
          return Crashed(error);
        case Continue(next) =>
          st := next;
          n := n - 1;
      }
    }
    outcome := OutOfFuel(st);
  }

  /** `GetIssues`: the paging loop from `start`, with no last page known and no issues. */
  method GetIssues(server: Server, start: string, fuel: nat) returns (outcome: Outcome)
    ensures outcome == Run(Pass(server), Initial(start), fuel)
  {
    outcome := FollowPages(server, Pass(server), start, fuel);
  }
}
