/** The shared proof fetch of the web client: callers, responses and the cookie jar, step by step. */
module Authless {
  import opened Options

  /** Which `/authless-client` response something came from; each one sets its own cookie. */
  type ResponseId = nat

  type FetchId = nat

  /** A cached proof, with the response it came in. */
  datatype Cached = Cached(proof: string, expiresAt: real, response: ResponseId)

  /** What a fetch yields: a proof and the response it came in, or null. */
  datatype Grant = Grant(proof: string, response: ResponseId)

  /**
   * How far a fetch has got. `Answered` is the moment between the arrival of the headers, when the
   * browser stores the cookie, and the continuation of the code; `Settled` the one before `finally`.
   */
  datatype Phase =
    | Requested
    | Answered(response: ResponseId, ok: bool)
    | Reading(response: ResponseId)
    | Settled(result: Option<Grant>)
    | Finished(result: Option<Grant>)

  /** How a call was answered: at once from the cache, or with the promise of a fetch. */
  datatype Reply = Served(proof: string, response: ResponseId) | Joined(fetch: FetchId)

  datatype Body = Invalid | Proof(proof: string, expiresAt: real)

  datatype State = State(
    now: int,
    jar: Option<ResponseId>,
    cachedProof: Option<Cached>,
    inFlight: Option<FetchId>,
    fetches: seq<Phase>,
    responses: nat,
    replies: seq<Reply>)

  function Initial(now: int): State {
    State(now, None, None, None, [], 0, [])
  }

  /** The cached proof is good for at least another 15 seconds. */
  predicate Fresh(s: State) {
    s.cachedProof.Some? && s.cachedProof.value.expiresAt - 15.0 > s.now as real
  }

  // ----- the steps ---------------------------------------------------------------------------------------

  datatype Step =
    | Clock(now: int)
    | Call
    | Answer(ok: bool)
    | Continue
    | ReadBody(body: Body)
    | Fail
    | Finally

  function PhaseInFlight(s: State): Option<Phase> {
    if s.inFlight.Some? && s.inFlight.value < |s.fetches| then Some(s.fetches[s.inFlight.value]) else None
  }

  /** The step can happen now; the fetch steps are those of the fetch in flight. */
  predicate Enabled(s: State, step: Step) {
    var phase := PhaseInFlight(s);
    match step
    case Clock(_) => true
    case Call => true
    case Answer(_) => phase == Some(Requested)
    case Continue => phase.Some? && phase.value.Answered?
    case ReadBody(_) => phase.Some? && phase.value.Reading?
    case Fail => phase.Some? && (phase.value.Requested? || phase.value.Reading?)
    case Finally => phase.Some? && phase.value.Settled?
  }

  function Settle(s: State, cached: Option<Cached>): State
    requires PhaseInFlight(s).Some?
  {
    var result := if cached.Some? then Some(Grant(cached.value.proof, cached.value.response)) else None;
    s.(cachedProof := cached, fetches := s.fetches[s.inFlight.value := Settled(result)])
  }

  function AfterCall(s: State): State {
    if Fresh(s) then
      s.(replies := s.replies + [Served(s.cachedProof.value.proof, s.cachedProof.value.response)])
    else if s.inFlight.None? then
      s.(inFlight := Some(|s.fetches|), fetches := s.fetches + [Requested], replies := s.replies + [Joined(|s.fetches|)])
    else
      s.(replies := s.replies + [Joined(s.inFlight.value)])
  }

  function After(s: State, step: Step): State
    requires Enabled(s, step)
  {
    match step
    case Clock(now) => s.(now := now)
    case Call => AfterCall(s)
    case Answer(ok) =>
      s.(jar := Some(s.responses), responses := s.responses + 1,
         fetches := s.fetches[s.inFlight.value := Answered(s.responses, ok)])
    case Continue =>
      var phase := PhaseInFlight(s).value;
      if phase.ok then s.(fetches := s.fetches[s.inFlight.value := Reading(phase.response)]) else Settle(s, None)
    case ReadBody(body) =>
      var phase := PhaseInFlight(s).value;
      Settle(s, if body.Proof? then Some(Cached(body.proof, body.expiresAt, phase.response)) else None)
    case Fail => Settle(s, None)
    case Finally =>
      s.(inFlight := None, fetches := s.fetches[s.inFlight.value := Finished(PhaseInFlight(s).value.result)])
  }

  /** The module's two variables, as the code reassigns them. */
  class Client {
    var cachedProof: Option<Cached>
    var inFlightProof: Option<FetchId>
    var fetches: seq<Phase>
    var replies: seq<Reply>
    var now: int
    var jar: Option<ResponseId>
    var responses: nat

    ghost function Contents(): State
      reads this
    {
      State(now, jar, cachedProof, inFlightProof, fetches, responses, replies)
    }

    constructor (start: int)
      ensures Contents() == Initial(start)
    {
      now, jar, cachedProof, inFlightProof, fetches, responses, replies := start, None, None, None, [], 0, [];
    }

    method GetProof() returns (reply: Reply)
      modifies this
      ensures Contents() == After(old(Contents()), Call)
      ensures reply == replies[|replies| - 1]
    {
      if cachedProof.Some? && cachedProof.value.expiresAt - 15.0 > now as real {
        reply := Served(cachedProof.value.proof, cachedProof.value.response);
      } else {
        if inFlightProof.None? {
          inFlightProof := Some(|fetches|);
          fetches := fetches + [Requested];
        }
        reply := Joined(inFlightProof.value);
      }
      replies := replies + [reply];
    }

    method OnResponse(ok: bool)
      requires Enabled(Contents(), Answer(ok))
      modifies this
      ensures Contents() == After(old(Contents()), Answer(ok))
    {
      jar := Some(responses);
      fetches := fetches[inFlightProof.value := Answered(responses, ok)];
      responses := responses + 1;
    }

    method OnHeaders()
      requires Enabled(Contents(), Continue)
      modifies this
      ensures Contents() == After(old(Contents()), Continue)
    {
      var phase := fetches[inFlightProof.value];
      if !phase.ok {
        cachedProof := None;
        fetches := fetches[inFlightProof.value := Settled(None)];
      } else {
        fetches := fetches[inFlightProof.value := Reading(phase.response)];
      }
    }

    method OnBody(body: Body)
      requires Enabled(Contents(), ReadBody(body))
      modifies this
      ensures Contents() == After(old(Contents()), ReadBody(body))
    {
      var response := fetches[inFlightProof.value].response;
      if body.Invalid? {
        cachedProof := None;
        fetches := fetches[inFlightProof.value := Settled(None)];
      } else {
        cachedProof := Some(Cached(body.proof, body.expiresAt, response));
        fetches := fetches[inFlightProof.value := Settled(Some(Grant(cachedProof.value.proof, response)))];
      }
    }

    method OnFailure()
      requires Enabled(Contents(), Fail)
      modifies this
      ensures Contents() == After(old(Contents()), Fail)
    {
      cachedProof := None;
      fetches := fetches[inFlightProof.value := Settled(None)];
    }

    method OnFinally()
      requires Enabled(Contents(), Finally)
      modifies this
      ensures Contents() == After(old(Contents()), Finally)
    {
      fetches := fetches[inFlightProof.value := Finished(fetches[inFlightProof.value].result)];
      inFlightProof := None;
    }
  }

  // ----- every interleaving ------------------------------------------------------------------------------

  predicate Over(p: Phase) { p.Finished? }

  predicate Pending(p: Phase) { p.Requested? || p.Answered? || p.Reading? }

  function Result(p: Phase): Option<Grant> {
    if p.Settled? || p.Finished? then p.result else None
  }

  /** The fetch in flight has been answered: the jar has its cookie, the cache not yet its proof. */
  predicate AwaitsBody(s: State) {
    var phase := PhaseInFlight(s);
    phase.Some? && (phase.value.Answered? || phase.value.Reading?)
  }

  /** At most one fetch is outstanding, the latest, and it is the one callers join. */
  ghost predicate Single(s: State) {
    && (forall i :: 0 <= i < |s.fetches| && !Over(s.fetches[i]) ==> s.inFlight == Some(i))
    && (s.inFlight.Some? ==> s.inFlight.value == |s.fetches| - 1 && !Over(s.fetches[s.inFlight.value]))
  }

  /** Cache and pending response against the cookie in the jar. */
  predicate CacheMatches(s: State) {
    // the jar holds the cookie of the latest response, and that is the response being read
    && s.jar == (if s.responses == 0 then None else Some(s.responses - 1))
    && (AwaitsBody(s) ==> s.jar == Some(PhaseInFlight(s).value.response))
    // the cached proof goes with the cookie in the jar, unless a newer cookie came and its proof has not
    && (s.cachedProof.Some? ==>
          s.jar.Some? && if AwaitsBody(s) then s.cachedProof.value.response < s.jar.value
                         else s.cachedProof.value.response == s.jar.value)
  }

  /** The latest result goes with the cookie in the jar, until the next fetch is answered. */
  predicate ResultMatches(s: State) {
    && (s.fetches != [] && Result(s.fetches[|s.fetches| - 1]).Some? ==>
          s.jar == Some(Result(s.fetches[|s.fetches| - 1]).value.response))
    && (|s.fetches| >= 2 && s.fetches[|s.fetches| - 1].Requested? && Result(s.fetches[|s.fetches| - 2]).Some? ==>
          s.jar == Some(Result(s.fetches[|s.fetches| - 2]).value.response))
  }

  /** What holds between any two steps, whatever the clock shows. */
  ghost predicate Invariant(s: State) {
    Single(s) && CacheMatches(s) && ResultMatches(s)
  }

  lemma StepKeepsSingle(s: State, step: Step)
    requires Single(s) && Enabled(s, step)
    ensures Single(After(s, step))
  {
    if step.Call? && !Fresh(s) && s.inFlight.None? {
      var s' := After(s, step);
      assert forall i :: 0 <= i < |s.fetches| ==> s'.fetches[i] == s.fetches[i];
    }
  }

  lemma LatestInFlight(s: State)
    requires Single(s)
    ensures s.inFlight.Some? ==> s.inFlight.value == |s.fetches| - 1 && !Over(s.fetches[s.inFlight.value])
    ensures s.inFlight.None? && s.fetches != [] ==> Over(s.fetches[|s.fetches| - 1])
  {
  }

  lemma StepKeepsCacheMatch(s: State, step: Step)
    requires Single(s) && CacheMatches(s) && Enabled(s, step)
    ensures CacheMatches(After(s, step))
  {
    hide Single;
  }

  lemma StepKeepsResultMatch(s: State, step: Step)
    requires Single(s) && CacheMatches(s) && ResultMatches(s) && Enabled(s, step)
    ensures ResultMatches(After(s, step))
  {
    LatestInFlight(s);
    hide Single;
  }

  lemma StepKeepsInvariant(s: State, step: Step)
    requires Invariant(s) && Enabled(s, step)
    ensures Invariant(After(s, step))
  {
    hide Single, CacheMatches, ResultMatches, Enabled, After;
    StepKeepsSingle(s, step);
    StepKeepsCacheMatch(s, step);
    StepKeepsResultMatch(s, step);
  }

  /** While a fetch is pending no cached proof is fresh. */
  predicate StaleWhilePending(s: State) {
    PhaseInFlight(s).Some? && Pending(PhaseInFlight(s).value) ==> !Fresh(s)
  }

  predicate Timely(s: State, step: Step) {
    step.Clock? ==> s.now <= step.now
  }

  /** A run: its states, each the result of an enabled step. */
  ghost predicate IsRun(states: seq<State>, steps: seq<Step>) {
    && |states| == |steps| + 1
    && forall k :: 0 <= k < |steps| ==> Enabled(states[k], steps[k]) && states[k + 1] == After(states[k], steps[k])
  }

  ghost predicate ClockNeverRunsBack(states: seq<State>, steps: seq<Step>)
    requires |states| == |steps| + 1
  {
    forall k :: 0 <= k < |steps| ==> Timely(states[k], steps[k])
  }

  lemma {:induction false} InvariantHolds(now: int, states: seq<State>, steps: seq<Step>, k: nat)
    requires IsRun(states, steps) && states[0] == Initial(now) && k < |states|
    ensures Invariant(states[k])
    decreases k
  {
    if k > 0 {
      InvariantHolds(now, states, steps, k - 1);
      StepKeepsInvariant(states[k - 1], steps[k - 1]);
    }
  }

  lemma {:induction false} StaleWhilePendingHolds(now: int, states: seq<State>, steps: seq<Step>, k: nat)
    requires IsRun(states, steps) && ClockNeverRunsBack(states, steps)
    requires states[0] == Initial(now) && k < |states|
    ensures StaleWhilePending(states[k])
    decreases k
  {
    hide IsRun, Invariant;
    if k > 0 {
      StepFollows(states, steps, k - 1);
      StaleWhilePendingHolds(now, states, steps, k - 1);
      InvariantHolds(now, states, steps, k - 1);
      StaleStep(states[k - 1], steps[k - 1]);
    }
  }

  lemma StepFollows(states: seq<State>, steps: seq<Step>, k: nat)
    requires IsRun(states, steps) && k < |states| - 1
    ensures k < |steps| && Enabled(states[k], steps[k]) && states[k + 1] == After(states[k], steps[k])
  {
  }

  lemma StaleStep(s: State, step: Step)
    requires Invariant(s) && Enabled(s, step) && Timely(s, step) && StaleWhilePending(s)
    ensures StaleWhilePending(After(s, step))
  {
  }

  /** In every reachable state at most one fetch is outstanding. */
  lemma AtMostOneFetch(now: int, states: seq<State>, steps: seq<Step>, k: nat, i: nat, j: nat)
    requires IsRun(states, steps) && states[0] == Initial(now) && k < |states|
    requires i < |states[k].fetches| && j < |states[k].fetches|
    requires !Over(states[k].fetches[i]) && !Over(states[k].fetches[j])
    ensures i == j
  {
    InvariantHolds(now, states, steps, k);
  }

  /**
   * Whoever calls while a fetch is pending starts no other one, and gets either the promise of that fetch or a cached
   * proof that is fresh; while the clock does not run back, no such proof exists and everybody gets the promise.
   */
  lemma CallersShareTheFetch(now: int, states: seq<State>, steps: seq<Step>, k: nat, f: FetchId)
    requires IsRun(states, steps) && states[0] == Initial(now) && k < |steps| && steps[k] == Call
    requires f < |states[k].fetches| && Pending(states[k].fetches[f])
    ensures states[k + 1].fetches == states[k].fetches
    ensures !Fresh(states[k]) <==> states[k + 1].replies == states[k].replies + [Joined(f)]
    ensures ClockNeverRunsBack(states, steps) ==> !Fresh(states[k])
  {
    InvariantHolds(now, states, steps, k);
    if ClockNeverRunsBack(states, steps) {
      StaleWhilePendingHolds(now, states, steps, k);
    }
    if Fresh(states[k]) {
      assert states[k + 1].replies[|states[k].replies|].Served?;
    }
  }

  /** A settled fetch keeps its result for the rest of the run, so all who joined it get the same. */
  lemma {:induction false} SettledResultStays(states: seq<State>, steps: seq<Step>, i: nat, k: nat, f: FetchId)
    requires IsRun(states, steps) && i <= k < |states|
    requires f < |states[i].fetches| && !Pending(states[i].fetches[f])
    ensures f < |states[k].fetches| && !Pending(states[k].fetches[f])
    ensures Result(states[k].fetches[f]) == Result(states[i].fetches[f])
    decreases k
  {
    hide IsRun;
    if i < k {
      SettledResultStays(states, steps, i, k - 1, f);
      StepFollows(states, steps, k - 1);
    }
  }

  /**
   * In every run, whatever the clock does: a proof served from the cache came with the cookie in the jar exactly when
   * no answered fetch still awaits its body. A clock that never runs back rules that case out.
   */
  lemma ServedProofMatchesCookie(now: int, states: seq<State>, steps: seq<Step>, k: nat)
    requires IsRun(states, steps) && states[0] == Initial(now) && k < |steps| && steps[k] == Call
    ensures
      var reply := states[k + 1].replies[|states[k].replies|];
      && (reply.Served? ==> (states[k + 1].jar == Some(reply.response) <==> !AwaitsBody(states[k])))
      && (reply.Served? && ClockNeverRunsBack(states, steps) ==> states[k + 1].jar == Some(reply.response))
  {
    InvariantHolds(now, states, steps, k);
    if ClockNeverRunsBack(states, steps) {
      StaleWhilePendingHolds(now, states, steps, k);
    }
  }

  /** The proof a fetch hands to its callers came with the cookie in the jar, until the next fetch is answered. */
  lemma FetchedProofMatchesCookie(now: int, states: seq<State>, steps: seq<Step>, k: nat, f: FetchId)
    requires IsRun(states, steps) && states[0] == Initial(now) && k < |states|
    requires f < |states[k].fetches| && Result(states[k].fetches[f]).Some?
    requires f == |states[k].fetches| - 1 || (f == |states[k].fetches| - 2 && states[k].fetches[f + 1].Requested?)
    ensures states[k].jar == Some(Result(states[k].fetches[f]).value.response)
  {
    InvariantHolds(now, states, steps, k);
  }

  /**
   * The excluded case occurs: `Date.now` set back while a fetch is pending makes a stale proof
   * fresh again, and it is served next to the cookie of the newer response.
   */
  lemma ClockSetBackServesWrongProof() returns (states: seq<State>, steps: seq<Step>)
    ensures IsRun(states, steps) && states[0] == Initial(100)
    ensures steps != [] && steps[|steps| - 1] == Call
    ensures
      var last := states[|steps|];
      && last.replies != [] && last.replies[|last.replies| - 1] == Served("a", 0)
      && last.jar == Some(1)
  {
    hide IsRun;
    var grant := Grant("a", 0);
    var a := Some(Cached("a", 120.0, 0));
    states, steps := [Initial(100)], [];
    StartOfRun(100);
    states, steps := NextStep(states, steps, Call, State(100, None, None, Some(0), [Requested], 0, [Joined(0)]));
    states, steps := NextStep(states, steps, Answer(true),
                              State(100, Some(0), None, Some(0), [Answered(0, true)], 1, [Joined(0)]));
    states, steps := NextStep(states, steps, Continue, State(100, Some(0), None, Some(0), [Reading(0)], 1, [Joined(0)]));
    states, steps := NextStep(states, steps, ReadBody(Proof("a", 120.0)),
                              State(100, Some(0), a, Some(0), [Settled(Some(grant))], 1, [Joined(0)]));
    var done := Finished(Some(grant));
    states, steps := NextStep(states, steps, Finally, State(100, Some(0), a, None, [done], 1, [Joined(0)]));
    states, steps := NextStep(states, steps, Clock(110), State(110, Some(0), a, None, [done], 1, [Joined(0)]));
    var replies := [Joined(0), Joined(1)];
    states, steps := NextStep(states, steps, Call, State(110, Some(0), a, Some(1), [done, Requested], 1, replies));
    states, steps := NextStep(states, steps, Answer(true),
                              State(110, Some(1), a, Some(1), [done, Answered(1, true)], 2, replies));
    states, steps := NextStep(states, steps, Clock(100),
                              State(100, Some(1), a, Some(1), [done, Answered(1, true)], 2, replies));
    states, steps := NextStep(states, steps, Call,
                              State(100, Some(1), a, Some(1), [done, Answered(1, true)], 2, replies + [Served("a", 0)]));
  }

  lemma StartOfRun(now: int)
    ensures IsRun([Initial(now)], [])
  {
  }

  lemma NextStep(states: seq<State>, steps: seq<Step>, step: Step, next: State)
    returns (more: seq<State>, moreSteps: seq<Step>)
    requires IsRun(states, steps)
    requires Enabled(states[|steps|], step) && After(states[|steps|], step) == next
    ensures more == states + [next] && moreSteps == steps + [step] && IsRun(more, moreSteps)
  {
    more, moreSteps := states + [next], steps + [step];
  }

  // ----- calls and fetches, spelled out ------------------------------------------------------------------

  /**
   * A call: a cached proof that is good for more than 15 seconds is served; otherwise the call joins the fetch in
   * flight, or starts one when there is none.
   */
  lemma CallSpelled(s: State)
    ensures var s' := After(s, Call);
      && s'.now == s.now && s'.jar == s.jar && s'.cachedProof == s.cachedProof && s'.responses == s.responses
      && if s.cachedProof.Some? && s.cachedProof.value.expiresAt > s.now as real + 15.0 then
           && s'.replies == s.replies + [Served(s.cachedProof.value.proof, s.cachedProof.value.response)]
           && s'.fetches == s.fetches && s'.inFlight == s.inFlight
         else if s.inFlight.Some? then
           && s'.replies == s.replies + [Joined(s.inFlight.value)]
           && s'.fetches == s.fetches && s'.inFlight == s.inFlight
         else
           && s'.replies == s.replies + [Joined(|s.fetches|)]
           && s'.fetches == s.fetches + [Requested] && s'.inFlight == Some(|s.fetches|)
  {
  }

  /**
   * A fetch that gets a valid body yields that proof and caches it; every other end yields nothing and empties the
   * cache.
   */
  lemma FetchSpelled(s: State, step: Step)
    requires Enabled(s, step)
    ensures var s' := After(s, step);
      && (step.ReadBody? && step.body.Proof? ==>
            var response := s.fetches[s.inFlight.value].response;
            && s'.cachedProof == Some(Cached(step.body.proof, step.body.expiresAt, response))
            && s'.fetches == s.fetches[s.inFlight.value := Settled(Some(Grant(step.body.proof, response)))])
      && (Fails(s, step) ==>
            s'.cachedProof == None && s'.fetches == s.fetches[s.inFlight.value := Settled(None)])
      && (!step.ReadBody? && !Fails(s, step) ==> s'.cachedProof == s.cachedProof)
      && (step.Finally? ==> s'.inFlight == None) && (!step.Call? && !step.Finally? ==> s'.inFlight == s.inFlight)
  {
  }

  /** How a fetch moves on: its response brings its own cookie, an accepted one is read, a settled one finishes. */
  lemma FetchMoves(s: State, step: Step)
    requires Enabled(s, step)
    ensures var s' := After(s, step);
      && (step.Answer? ==>
            && s'.jar == Some(s.responses) && s'.responses == s.responses + 1
            && s'.fetches == s.fetches[s.inFlight.value := Answered(s.responses, step.ok)])
      && (step.Continue? && s.fetches[s.inFlight.value].ok ==>
            s'.fetches == s.fetches[s.inFlight.value := Reading(s.fetches[s.inFlight.value].response)])
      && (step.Finally? ==>
            s'.fetches == s.fetches[s.inFlight.value := Finished(s.fetches[s.inFlight.value].result)])
      && (!step.Answer? ==> s'.jar == s.jar && s'.responses == s.responses)
      && s'.now == (if step.Clock? then step.now else s.now)
  {
  }

  /** The step ends the fetch in flight without a proof: a failure, a refused response, or an invalid body. */
  predicate Fails(s: State, step: Step)
    requires Enabled(s, step)
  {
    || step.Fail?
    || (step.Continue? && !s.fetches[s.inFlight.value].ok)
    || (step.ReadBody? && step.body.Invalid?)
  }

  /** The proof came in the body of that response, and no fetch has ended since. */
  ghost predicate ReceivedAt(states: seq<State>, steps: seq<Step>, j: nat, k: nat, c: Cached)
    requires IsRun(states, steps)
  {
    && j < k <= |steps| && steps[j] == ReadBody(Proof(c.proof, c.expiresAt))
    && PhaseInFlight(states[j]) == Some(Reading(c.response))
    && forall i :: j < i < k ==> !steps[i].ReadBody? && !Fails(states[i], steps[i])
  }

  lemma {:induction false} CachedWasReceived(now: int, states: seq<State>, steps: seq<Step>, k: nat)
    requires IsRun(states, steps) && states[0] == Initial(now) && k < |states|
    ensures states[k].cachedProof.Some? ==> exists j :: ReceivedAt(states, steps, j, k, states[k].cachedProof.value)
    decreases k
  {
    if k > 0 && states[k].cachedProof.Some? {
      CachedWasReceived(now, states, steps, k - 1);
      FetchSpelled(states[k - 1], steps[k - 1]);
      var c := states[k].cachedProof.value;
      if steps[k - 1].ReadBody? {
        assert ReceivedAt(states, steps, k - 1, k, c);
      } else {
        var j :| ReceivedAt(states, steps, j, k - 1, c);
        assert ReceivedAt(states, steps, j, k, c);
      }
    }
  }

  /**
   * In every run, a proof served from the cache was received in a body, with an expiry more than 15 seconds after
   * now, and no fetch has ended since.
   */
  lemma ServedProofWasReceived(now: int, states: seq<State>, steps: seq<Step>, k: nat)
    requires IsRun(states, steps) && states[0] == Initial(now) && k < |steps| && steps[k] == Call
    ensures var reply := states[k + 1].replies[|states[k].replies|];
      reply.Served? ==>
        exists j, e: real :: e > states[k].now as real + 15.0
                             && ReceivedAt(states, steps, j, k, Cached(reply.proof, e, reply.response))
  {
    CallSpelled(states[k]);
    CachedWasReceived(now, states, steps, k);
  }
}
