/**
  The per-epoch rate limit of governGonkaInference (src/adapters/gonka.ts). The
  function runs without interruption up to its await, so a call is two atomic
  steps, and any number of calls may be interleaved between them.
 */
module EpochLimit {
  import opened Text
  import opened Json

  const COLON: Unit := 0x3A

  /** `${agentId}:${epochId ?? 'default'}`. */
  function EpochKey(agent: Str, epoch: Option<int>): Str {
    agent + [COLON] + (if epoch.None? then Ascii("default") else PrintInt(epoch.value))
  }

  /** Whether the host checks pass, who asks, for which epoch, and the configured limit if any. */
  datatype Call = Call(authorized: bool, agent: Str, epoch: Option<int>, limit: Option<int>)

  datatype Decision = Unauthorized | RateLimited | Execute

  function Count(counters: map<Str, nat>, key: Str): nat { if key in counters then counters[key] else 0 }

  function Decide(counters: map<Str, nat>, call: Call): Decision {
    if !call.authorized then Unauthorized
    else if call.limit.Some? && Count(counters, EpochKey(call.agent, call.epoch)) >= call.limit.value then RateLimited
    else Execute
  }

  /** The call starts executing and was counted. */
  predicate Counted(counters: map<Str, nat>, call: Call) {
    Decide(counters, call).Execute? && call.limit.Some?
  }

  function CountersAfter(counters: map<Str, nat>, call: Call): map<Str, nat> {
    var key := EpochKey(call.agent, call.epoch);
    if Counted(counters, call) then counters[key := Count(counters, key) + 1] else counters
  }

  /** The module-level counter map. */
  class Limiter {
    var epochCounters: map<Str, nat>

    constructor ()
      ensures epochCounters == map[]
    {
      epochCounters := map[];
    }

    /** Everything that happens before the await. */
    method Begin(call: Call) returns (d: Decision)
      modifies this
      ensures d == Decide(old(epochCounters), call)
      ensures epochCounters == CountersAfter(old(epochCounters), call)
    {
      if !call.authorized { return Unauthorized; }
      if call.limit.Some? {
        var key := EpochKey(call.agent, call.epoch);
        var count := if key in epochCounters then epochCounters[key] else 0;
        if count >= call.limit.value { return RateLimited; }
        epochCounters := epochCounters[key := count + 1];
      }
      return Execute;
    }
  }

  // --- Keys ------------------------------------------------------------------

  lemma {:induction false} SuffixHasNoColon(epoch: Option<int>)
    ensures COLON !in (if epoch.None? then Ascii("default") else PrintInt(epoch.value))
  {
    if epoch.Some? {
      var digits := PrintNat(if epoch.value < 0 then -epoch.value else epoch.value);
      assert forall i | 0 <= i < |digits| :: IsDigit(digits[i]);
    }
  }

  lemma {:induction false} DefaultIsNoNumber(n: int)
    ensures PrintInt(n) != Ascii("default")
  {
    var digits := PrintNat(if n < 0 then -n else n);
    assert IsDigit(digits[0]);
    assert PrintInt(n)[0] == 0x2D || IsDigit(PrintInt(n)[0]);
    assert Ascii("default")[0] == 0x64;
  }

  /** Distinct (agent, epoch) pairs never share a counter, even when agent ids hold colons. */
  lemma {:induction false} KeysAreDistinct(agent: Str, epoch: Option<int>, agent': Str, epoch': Option<int>)
    ensures EpochKey(agent, epoch) == EpochKey(agent', epoch') <==> agent == agent' && epoch == epoch'
  {
    if EpochKey(agent, epoch) == EpochKey(agent', epoch') {
      SuffixHasNoColon(epoch);
      SuffixHasNoColon(epoch');
      LastSeparator(COLON, agent, if epoch.None? then Ascii("default") else PrintInt(epoch.value),
                    agent', if epoch'.None? then Ascii("default") else PrintInt(epoch'.value));
      if epoch.Some? && epoch'.Some? {
        PrintIntInjective(epoch.value, epoch'.value);
      } else if epoch.Some? {
        DefaultIsNoNumber(epoch.value);
      } else if epoch'.Some? {
        DefaultIsNoNumber(epoch'.value);
      }
    }
  }

  // --- Interleavings ---------------------------------------------------------

  /** A call begins (up to its await) or completes (after it). */
  datatype Event = Begins(id: nat, call: Call) | Completes(id: nat)

  datatype State = State(counters: map<Str, nat>, running: map<nat, Call>)

  ghost function Step(st: State, e: Event): State {
    match e
    case Begins(id, call) =>
      var running := if Decide(st.counters, call).Execute? then st.running[id := call] else st.running;
      State(CountersAfter(st.counters, call), running)
    case Completes(id) => st.(running := st.running - {id})
  }

  ghost function Run(events: seq<Event>): State {
    if events == [] then State(map[], map[]) else Step(Run(events[..|events| - 1]), events[|events| - 1])
  }

  /** Any interleaving of calls on the real map reaches the state that the theorems below speak about. */
  method Replay(events: seq<Event>) returns (limiter: Limiter, running: map<nat, Call>)
    ensures fresh(limiter)
    ensures State(limiter.epochCounters, running) == Run(events)
  {
    limiter := new Limiter();
    running := map[];
    for i := 0 to |events|
      invariant fresh(limiter)
      invariant State(limiter.epochCounters, running) == Run(events[..i])
    {
      assert events[..i + 1][..i] == events[..i];
      match events[i] {
        case Begins(id, call) =>
          var decision := limiter.Begin(call);
          if decision.Execute? { running := running[id := call]; }
        case Completes(id) => running := running - {id};
      }
    }
    assert events[..|events|] == events;
  }

  predicate Limits(e: Event, agent: Str, epoch: Option<int>) {
    e.Begins? && e.call.authorized && e.call.limit.Some? && e.call.agent == agent && e.call.epoch == epoch
  }

  /** How many limited executions have started for a pair. */
  ghost function Started(events: seq<Event>, agent: Str, epoch: Option<int>): nat {
    if events == [] then 0
    else
      var n := |events| - 1;
      Started(events[..n], agent, epoch) +
      if Limits(events[n], agent, epoch) && Decide(Run(events[..n]).counters, events[n].call).Execute? then 1 else 0
  }

  /** How many limited calls with passing host checks have been made for a pair. */
  ghost function Attempts(events: seq<Event>, agent: Str, epoch: Option<int>): nat {
    if events == [] then 0
    else Attempts(events[..|events| - 1], agent, epoch) + if Limits(events[|events| - 1], agent, epoch) then 1 else 0
  }

  /** In every interleaving the counter of a pair is the number of limited executions started for it. */
  lemma {:induction false} CounterIsStarted(events: seq<Event>, agent: Str, epoch: Option<int>)
    ensures Count(Run(events).counters, EpochKey(agent, epoch)) == Started(events, agent, epoch)
    decreases |events|
  {
    hide EpochKey;
    if events == [] {
    } else {
      var n := |events| - 1;
      CounterIsStarted(events[..n], agent, epoch);
      if events[n].Begins? {
        KeysAreDistinct(events[n].call.agent, events[n].call.epoch, agent, epoch);
      }
    }
  }

  ghost predicate LimitsWithin(events: seq<Event>, agent: Str, epoch: Option<int>, max: int) {
    forall i | 0 <= i < |events| && Limits(events[i], agent, epoch) :: events[i].call.limit.value <= max
  }

  /** No interleaving starts more executions for a pair than the largest limit used for it. */
  lemma {:induction false} NeverAboveLargestLimit(events: seq<Event>, agent: Str, epoch: Option<int>, max: nat)
    requires LimitsWithin(events, agent, epoch, max)
    ensures Started(events, agent, epoch) <= max
    decreases |events|
  {
    if events == [] {
    } else {
      var n := |events| - 1;
      NeverAboveLargestLimit(events[..n], agent, epoch, max);
      CounterIsStarted(events[..n], agent, epoch);
    }
  }

  /** With one limit for the pair, exactly the first that many attempts are let through. */
  lemma {:induction false} ExactUnderOneLimit(events: seq<Event>, agent: Str, epoch: Option<int>, limit: nat)
    requires forall i | 0 <= i < |events| && Limits(events[i], agent, epoch) :: events[i].call.limit.value == limit
    ensures var attempts := Attempts(events, agent, epoch);
            Started(events, agent, epoch) == if attempts < limit then attempts else limit
    decreases |events|
  {
    if events == [] {
    } else {
      var n := |events| - 1;
      ExactUnderOneLimit(events[..n], agent, epoch, limit);
      CounterIsStarted(events[..n], agent, epoch);
    }
  }

  ghost function RunningFor(running: map<nat, Call>, agent: Str, epoch: Option<int>): set<nat> {
    set id | id in running && running[id].limit.Some? && running[id].agent == agent && running[id].epoch == epoch
  }

  lemma {:induction false} OneMoreAtMost(a: set<nat>, b: set<nat>, id: nat)
    requires b <= a + {id}
    ensures |b| <= |a| + 1
  {
    SubsetSize(b - {id}, a);
    if id in b { assert b == (b - {id}) + {id}; } else { assert b == b - {id}; }
  }

  /** At no moment are more limited executions in flight for a pair than its counter shows. */
  lemma {:induction false} InFlightWithinCounter(events: seq<Event>, agent: Str, epoch: Option<int>)
    ensures |RunningFor(Run(events).running, agent, epoch)| <= Started(events, agent, epoch)
    decreases |events|
  {
    if events == [] {
    } else {
      var n := |events| - 1;
      var before, after := Run(events[..n]), Run(events);
      InFlightWithinCounter(events[..n], agent, epoch);
      var e := events[n];
      var was, now := RunningFor(before.running, agent, epoch), RunningFor(after.running, agent, epoch);
      if Limits(e, agent, epoch) && Decide(before.counters, e.call).Execute? {
        OneMoreAtMost(was, now, e.id);
      } else {
        SubsetSize(now, was);
      }
    }
  }

  // --- Decisions in a run ----------------------------------------------------

  /** The counter keys, spelled out. */
  lemma {:induction false} KeyTexts(agent: Str, n: int)
    ensures EpochKey(agent, Some(n)) == agent + Ascii(":") + PrintInt(n)
    ensures EpochKey(agent, None) == agent + Ascii(":default")
  {
    assert Ascii(":") == [COLON] && Ascii(":default") == [COLON] + Ascii("default");
  }

  /** After any interleaving, a call is refused exactly when its host checks fail, or it has a limit and that many
      limited executions have started for its agent and epoch; otherwise it executes. */
  lemma {:induction false} DecisionMeans(events: seq<Event>, call: Call)
    ensures var d := Decide(Run(events).counters, call);
            && (d == Unauthorized <==> !call.authorized)
            && (d == RateLimited <==>
                call.authorized && call.limit.Some? && Started(events, call.agent, call.epoch) >= call.limit.value)
            && (d == Execute <==>
                call.authorized && (call.limit.None? || Started(events, call.agent, call.epoch) < call.limit.value))
  {
    CounterIsStarted(events, call.agent, call.epoch);
    hide Run;
    hide Started;
    hide EpochKey;
  }

  /** The event at `i` starts the execution `id`. */
  ghost predicate Starts(events: seq<Event>, i: nat, id: nat)
    requires i < |events|
  {
    events[i].Begins? && events[i].id == id && Decide(Run(events[..i]).counters, events[i].call).Execute?
  }

  /** Started, and not completed since. */
  ghost predicate StillRuns(events: seq<Event>, i: nat, id: nat)
    requires i < |events|
  {
    Starts(events, i, id) && forall j | i < j < |events| :: events[j] != Completes(id)
  }

  /** An execution is in flight exactly when it was started and has not completed since. */
  lemma {:induction false} RunningMeans(events: seq<Event>, id: nat)
    ensures id in Run(events).running <==> exists i | 0 <= i < |events| :: StillRuns(events, i, id)
    decreases |events|
  {
    hide Decide;
    hide CountersAfter;
    if events == [] {
    } else {
      var n := |events| - 1;
      var before := events[..n];
      RunningMeans(before, id);
      forall i | 0 <= i < n
        ensures StillRuns(events, i, id) <==> StillRuns(before, i, id) && events[n] != Completes(id)
      {
        assert before[..i] == events[..i] && before[i] == events[i];
        assert forall j | i < j < n :: before[j] == events[j];
      }
      assert StillRuns(events, n, id) <==> Starts(events, n, id);
      hide StillRuns;
    }
  }
}
