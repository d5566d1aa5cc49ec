/**
 The SDK's token manager: a cached access token, one exchange in flight at a time, and callers that retry
 once after a 401. Time is in seconds; an exchange is known by its number, and a promise by the exchange
 it belongs to.
 */
module TokenManager {
  import opened Options

  const EARLY_REFRESH_SECONDS := 60.0

  datatype CachedAccessToken = CachedAccessToken(value: string, expiresAt: real)

  datatype Manager = Manager(cached: Option<CachedAccessToken>, inFlight: Option<nat>, started: nat)

  /** A token at once, or the exchange whose result the caller awaits. */
  datatype Answer = Served(token: string) | Awaits(exchange: nat)

  predicate Fresh(cached: Option<CachedAccessToken>, now: real) {
    cached.Some? && cached.value.expiresAt - now > EARLY_REFRESH_SECONDS
  }

  function SingleFlight(m: Manager): (Manager, Answer) {
    if m.inFlight.Some? then (m, Awaits(m.inFlight.value))
    else (Manager(m.cached, Some(m.started), m.started + 1), Awaits(m.started))
  }

  function Get(m: Manager, now: real): (Manager, Answer) {
    if Fresh(m.cached, now) then (m, Served(m.cached.value.value)) else SingleFlight(m)
  }

  function Refresh(m: Manager, failedToken: string, now: real): (Manager, Answer) {
    if Fresh(m.cached, now) && m.cached.value.value != failedToken then (m, Served(m.cached.value.value))
    else SingleFlight(m)
  }

  class AgentTokenManager {
    var cached: Option<CachedAccessToken>
    var exchangeInFlight: Option<nat>
    var started: nat

    constructor ()
      ensures Value() == Manager(None, None, 0)
    {
      cached, exchangeInFlight, started := None, None, 0;
    }

    function Value(): Manager
      reads this
    {
      Manager(cached, exchangeInFlight, started)
    }

    method GetAccessToken(now: real) returns (answer: Answer)
      modifies this
      ensures (Value(), answer) == Get(old(Value()), now)
      ensures old(cached).Some? && old(cached).value.expiresAt - now > 60.0 ==>
          answer == Served(old(cached).value.value)
      ensures answer.Served? ==>
        cached.Some? && cached.value.value == answer.token && cached.value.expiresAt - now > 60.0
    {
      if cached.Some? && cached.value.expiresAt - now > EARLY_REFRESH_SECONDS {
        return Served(cached.value.value);
      }
      answer := ExchangeSingleFlight();
    }

    method RefreshAfterUnauthorized(failedToken: string, now: real) returns (answer: Answer)
      modifies this
      ensures (Value(), answer) == Refresh(old(Value()), failedToken, now)
      ensures var was := old(cached);
        was.Some? && was.value.value != failedToken && was.value.expiresAt - now > 60.0 ==>
          answer == Served(was.value.value)
      ensures answer.Served? ==> answer.token != failedToken
      ensures answer.Served? ==>
        cached.Some? && cached.value.value == answer.token && cached.value.expiresAt - now > 60.0
    {
      if cached.Some? && cached.value.value != failedToken && cached.value.expiresAt - now > EARLY_REFRESH_SECONDS {
        return Served(cached.value.value);
      }
      answer := ExchangeSingleFlight();
    }

    /** The caller awaits the exchange that is in flight afterwards: the one that was, or a new one, and a new
        one only if there was none. */
    method ExchangeSingleFlight() returns (answer: Answer)
      modifies this
      ensures answer.Awaits? && exchangeInFlight == Some(answer.exchange) && cached == old(cached)
      ensures old(exchangeInFlight).Some? ==> exchangeInFlight == old(exchangeInFlight) && started == old(started)
      ensures old(exchangeInFlight).None? ==> answer.exchange == old(started) && started == old(started) + 1
    {
      if exchangeInFlight.Some? {
        return Awaits(exchangeInFlight.value);
      }
      var exchange := started;
      started := started + 1;
      exchangeInFlight := Some(exchange);
      answer := Awaits(exchange);
    }

    /** The last lines of exchange: a valid response is cached, any failure leaves the cache alone. */
    method FinishExchange(outcome: Option<CachedAccessToken>)
      modifies this`cached
      ensures Value() == Finished(old(Value()), outcome)
      ensures outcome.None? ==> cached == old(cached)
      ensures outcome.Some? ==>
        forall now :: Fresh(outcome, now) ==> Get(Value(), now) == (Value(), Served(outcome.value.value))
    {
      if outcome.Some? {
        cached := outcome;
      }
    }

    /** The reaction registered on the exchange's promise. */
    method Clear(exchange: nat)
      modifies this`exchangeInFlight
      ensures Value() == Cleared(old(Value()), exchange)
      ensures exchangeInFlight != Some(exchange)
      ensures old(exchangeInFlight) != Some(exchange) ==> exchangeInFlight == old(exchangeInFlight)
    {
      if exchangeInFlight == Some(exchange) {
        exchangeInFlight := None;
      }
    }
  }

  function Finished(m: Manager, outcome: Option<CachedAccessToken>): Manager {
    if outcome.Some? then m.(cached := outcome) else m
  }

  function Cleared(m: Manager, exchange: nat): Manager {
    if m.inFlight == Some(exchange) then m.(inFlight := None) else m
  }

  // ---------- the whole client: any number of callers around one manager ----------

  /** Where a call of the authenticated fetch stands. */
  datatype Phase =
    | Waiting(exchange: nat, retry: bool)
    | Sent(token: string, retry: bool)
    | Done
    | Rejected

  datatype State = State(
    manager: Manager, unsettled: set<nat>, results: map<nat, Option<CachedAccessToken>>, callers: map<nat, Phase>,
    successes: nat)

  datatype Action =
    | Begin(caller: nat)
    | Resume(caller: nat)
    | Respond(caller: nat, unauthorized: bool)
    | Settle(exchange: nat, outcome: Option<CachedAccessToken>)
    | RunClear(exchange: nat)

  function Asked(s: State, caller: nat, retry: bool, r: (Manager, Answer)): State {
    var phase := if r.1.Served? then Sent(r.1.token, retry) else Waiting(r.1.exchange, retry);
    var unsettled := if r.0.started > s.manager.started then s.unsettled + {s.manager.started} else s.unsettled;
    s.(manager := r.0, unsettled := unsettled, callers := s.callers[caller := phase])
  }

  predicate Enabled(s: State, a: Action) {
    match a
    case Begin(c) => c !in s.callers
    case Resume(c) => c in s.callers && s.callers[c].Waiting? && s.callers[c].exchange in s.results
    case Respond(c, _) => c in s.callers && s.callers[c].Sent?
    case Settle(e, _) => e in s.unsettled
    case RunClear(e) => e in s.results
  }

  function Next(s: State, a: Action, now: real): State {
    if !Enabled(s, a) then s
    else match a
      case Begin(c) => Asked(s, c, false, Get(s.manager, now))
      case Resume(c) =>
        var result := s.results[s.callers[c].exchange];
        var phase := if result.Some? then Sent(result.value.value, s.callers[c].retry) else Rejected;
        s.(callers := s.callers[c := phase])
      case Respond(c, unauthorized) =>
        if unauthorized && !s.callers[c].retry then Asked(s, c, true, Refresh(s.manager, s.callers[c].token, now))
        else s.(callers := s.callers[c := Done])
      case Settle(e, outcome) =>
        s.(manager := Finished(s.manager, outcome), unsettled := s.unsettled - {e}, results := s.results[e := outcome],
           successes := s.successes + if outcome.Some? then 1 else 0)
      case RunClear(e) => s.(manager := Cleared(s.manager, e))
  }

  function Start(): State { State(Manager(None, None, 0), {}, map[], map[], 0) }

  type Timed = (Action, real)

  function Run(s: State, steps: seq<Timed>): State
    decreases |steps|
  {
    if steps == [] then s else Run(Next(s, steps[0].0, steps[0].1), steps[1..])
  }

  // ---------- at most one exchange at a time ----------

  /** An exchange that has not settled is the one in flight, and nothing is known of exchanges to come. */
  ghost predicate Inv(s: State) {
    && (forall e :: e in s.unsettled ==> s.manager.inFlight == Some(e) && e < s.manager.started && e !in s.results)
    && (forall e :: e in s.results ==> e < s.manager.started)
    && (s.manager.inFlight.Some? ==> s.manager.inFlight.value in s.unsettled || s.manager.inFlight.value in s.results)
    && (forall c :: c in s.callers && s.callers[c].Waiting? ==>
          s.callers[c].exchange in s.unsettled || s.callers[c].exchange in s.results)
  }

  lemma StepKeepsInv(s: State, a: Action, now: real)
    requires Inv(s)
    ensures Inv(Next(s, a, now))
  {
  }

  lemma {:induction false} RunKeepsInv(s: State, steps: seq<Timed>)
    requires Inv(s)
    ensures Inv(Run(s, steps))
    decreases |steps|
  {
    if steps != [] {
      StepKeepsInv(s, steps[0].0, steps[0].1);
      RunKeepsInv(Next(s, steps[0].0, steps[0].1), steps[1..]);
    }
  }

  /** In every reachable state at most one exchange is unsettled, and a caller that waits waits for one that
      is still running or has a result. */
  lemma AtMostOneUnsettled(steps: seq<Timed>)
    ensures var s := Run(Start(), steps);
      && (forall e, f :: e in s.unsettled && f in s.unsettled ==> e == f)
      && (forall c :: c in s.callers && s.callers[c].Waiting? ==>
            s.callers[c].exchange in s.unsettled || s.callers[c].exchange in s.results)
  {
    RunKeepsInv(Start(), steps);
  }

  /** A reaction that runs late, when the next exchange is already going, does not cancel it: callers keep
      joining the exchange that runs. */
  lemma LateClearKeepsRunningExchange(steps: seq<Timed>, finished: nat, running: nat, now: real)
    requires Enabled(Run(Start(), steps), RunClear(finished)) && running in Run(Start(), steps).unsettled
    ensures var t := Next(Run(Start(), steps), RunClear(finished), now);
      && t.manager == Run(Start(), steps).manager
      && SingleFlight(t.manager) == (t.manager, Awaits(running))
  {
    RunKeepsInv(Start(), steps);
  }

  /** Once an exchange has brought a token, whoever asks while it is fresh gets it and starts nothing. */
  lemma NewTokenIsServed(steps: seq<Timed>, e: nat, token: CachedAccessToken, c: nat, settled: real, now: real)
    requires var s := Run(Start(), steps); Enabled(s, Settle(e, Some(token))) && c !in s.callers
    requires Fresh(Some(token), now)
    ensures var t := Next(Run(Start(), steps), Settle(e, Some(token)), settled);
      var u := Next(t, Begin(c), now);
      u.callers[c] == Sent(token.value, false) && u.manager == t.manager && u.unsettled == {}
  {
    AtMostOneUnsettled(steps);
  }

  // ---------- one new token for any number of callers ----------

  /** The first-time 401s of a step are answers to `failed`. */
  predicate Rejects(s: State, a: Action, failed: string) {
    a.Respond? && a.unauthorized && Enabled(s, a) && !s.callers[a.caller].retry ==> s.callers[a.caller].token == failed
  }

  /** Throughout the run the 401s are answers to `failed`, and from the first new token on (there were
      `base` exchanges that succeeded before) the cached token is another one and fresh. */
  ghost predicate Replaces(s: State, steps: seq<Timed>, failed: string, base: nat)
    decreases |steps|
  {
    steps != [] ==>
      var (a, now) := steps[0];
      && Rejects(s, a, failed)
      && (s.successes > base ==> Fresh(s.manager.cached, now) && s.manager.cached.value.value != failed)
      && Replaces(Next(s, a, now), steps[1..], failed, base)
  }

  /** Once the replacement is there no other exchange is even started. */
  lemma {:induction false} NoMoreExchanges(s: State, steps: seq<Timed>, failed: string, base: nat)
    requires Replaces(s, steps, failed, base) && s.successes > base && s.unsettled == {}
    ensures var t := Run(s, steps);
      t.successes == s.successes && t.manager.started == s.manager.started && t.manager.cached == s.manager.cached
    decreases |steps|
  {
    if steps != [] {
      NoMoreExchanges(Next(s, steps[0].0, steps[0].1), steps[1..], failed, base);
    }
  }

  /** However many callers are refused the same token, at most one exchange succeeds for them all, as long
      as the token it brings differs and stays fresh. */
  lemma {:induction false} OneExchangeForAll(s: State, steps: seq<Timed>, failed: string)
    requires Inv(s) && Replaces(s, steps, failed, s.successes)
    ensures Run(s, steps).successes <= s.successes + 1
    decreases |steps|
  {
    if steps != [] {
      var next := Next(s, steps[0].0, steps[0].1);
      StepKeepsInv(s, steps[0].0, steps[0].1);
      if next.successes == s.successes {
        OneExchangeForAll(next, steps[1..], failed);
      } else {
        NoMoreExchanges(next, steps[1..], failed, s.successes);
      }
    }
  }

  // ---------- one call of the client ----------

  /** A refused first attempt is tried again, with a fresh token that is not the refused one or with what the exchange
      in flight brings; whoever waited for an exchange sends its token, or is rejected if it failed. */
  lemma RefusedOnceTriesAgain(s: State, c: nat, failed: string, now: real)
    requires c in s.callers && s.callers[c] == Sent(failed, false)
    ensures var t := Next(s, Respond(c, true), now);
      match t.callers[c]
      case Sent(token, retry) =>
        retry && token != failed && Fresh(s.manager.cached, now) && s.manager.cached.value.value == token
      case Waiting(e, retry) => retry && t.manager.inFlight == Some(e) && (s.manager.inFlight.Some? || e in t.unsettled)
      case _ => false
  {
  }

  lemma ResumedCallerSends(s: State, c: nat, e: nat, retry: bool, now: real)
    requires c in s.callers && s.callers[c] == Waiting(e, retry) && e in s.results
    ensures Next(s, Resume(c), now).callers[c]
         == if s.results[e].Some? then Sent(s.results[e].value.value, retry) else Rejected
  {
  }

  /** How often the run answers an attempt of the call, and how often with a 401. */
  function Answers(s: State, steps: seq<Timed>, c: nat, refusalsOnly: bool): nat
    decreases |steps|
  {
    if steps == [] then 0
    else
      var (a, now) := steps[0];
      (if a.Respond? && a.caller == c && Enabled(s, a) && (refusalsOnly ==> a.unauthorized) then 1 else 0)
      + Answers(Next(s, a, now), steps[1..], c, refusalsOnly)
  }

  /** Where a call stands after that many answers, of which that many were a 401. */
  predicate Stands(s: State, c: nat, answers: nat, refusals: nat) {
    if c !in s.callers then answers == 0 && refusals == 0
    else match s.callers[c]
      case Waiting(_, retry) => if retry then answers == 1 && refusals == 1 else answers == 0 && refusals == 0
      case Sent(_, retry) => if retry then answers == 1 && refusals == 1 else answers == 0 && refusals == 0
      case Done => (answers == 1 && refusals == 0) || (answers == 2 && 1 <= refusals <= 2)
      case Rejected => answers == refusals && refusals <= 1
  }

  lemma StepStands(s: State, a: Action, now: real, c: nat, answers: nat, refusals: nat)
    requires Stands(s, c, answers, refusals)
    ensures var one := a.Respond? && a.caller == c && Enabled(s, a);
      Stands(Next(s, a, now), c, answers + (if one then 1 else 0),
        refusals + if one && a.unauthorized then 1 else 0)
  {
  }

  lemma {:induction false} RunStands(s: State, steps: seq<Timed>, c: nat, answers: nat, refusals: nat)
    requires Stands(s, c, answers, refusals)
    ensures Stands(Run(s, steps), c, answers + Answers(s, steps, c, false), refusals + Answers(s, steps, c, true))
    decreases |steps|
  {
    if steps != [] {
      var (a, now) := steps[0];
      var one := a.Respond? && a.caller == c && Enabled(s, a);
      StepStands(s, a, now, c, answers, refusals);
      RunStands(Next(s, a, now), steps[1..], c, answers + (if one then 1 else 0),
                refusals + if one && a.unauthorized then 1 else 0);
    }
  }

  /** In every run a call is sent at most twice, and twice exactly if its first attempt was refused and a token came:
      it is done after one answer that is no 401, or after a second one of any kind. */
  lemma SentAtMostTwice(steps: seq<Timed>, c: nat)
    ensures var s, answers, refusals := Run(Start(), steps), Answers(Start(), steps, c, false),
                                        Answers(Start(), steps, c, true);
      && answers <= 2
      && (c in s.callers && s.callers[c].Done? ==> if refusals == 0 then answers == 1 else answers == 2)
      && (c in s.callers && s.callers[c].Rejected? ==> answers == refusals <= 1)
  {
    RunStands(Start(), steps, c, 0, 0);
  }
}
