/** Event streaming of the ACP bridge. Any number of `stream_goal` calls tail the append-only
    event log of one session; each keeps its own cursor and all push one shared high-water mark,
    which `session/load` assigns plainly. Every lock acquisition and every socket round trip is
    a step of its own. */
module AcpStreams {
  import opened Text
  import Runs

  datatype Event = Event(id: int, goal: Option<string>, kind: string, body: string)

  // ---- the log ---------------------------------------------------------------------

  /** Ids are positive and grow along the log. */
  ghost predicate Ordered(log: seq<Event>) {
    forall k, m :: 0 <= k < m < |log| ==> 0 < log[k].id < log[m].id
  }

  function LastId(log: seq<Event>): int {
    if log == [] then 0 else log[|log| - 1].id
  }

  /** The entries with id in `(lo, hi]`, in log order. */
  function Between(log: seq<Event>, lo: int, hi: int): seq<Event> {
    if log == [] then []
    else
      var earlier := Between(log[..|log| - 1], lo, hi);
      var e := log[|log| - 1];
      if lo < e.id <= hi then earlier + [e] else earlier
  }

  predicate Concerns(e: Event, goal: string) {
    e.goal.None? || e.goal.value == goal
  }

  /** The events that name `goal` or no goal. */
  function Relevant(events: seq<Event>, goal: string): seq<Event> {
    if events == [] then []
    else
      var earlier := Relevant(events[..|events| - 1], goal);
      var e := events[|events| - 1];
      if Concerns(e, goal) then earlier + [e] else earlier
  }

  /** What a call that went from cursor `lo` to cursor `hi` owes the client. */
  function Owed(log: seq<Event>, lo: int, hi: int, goal: string): seq<Event> {
    Relevant(Between(log, lo, hi), goal)
  }

  // ---- the poll loop's body, and the session fields --------------------------------

  function Max(a: int, b: int): int {
    if a >= b then a else b
  }

  /** The cursor after a batch. */
  function Advance(since: int, events: seq<Event>): int {
    if events == [] then since else Max(Advance(since, events[..|events| - 1]), events[|events| - 1].id)
  }

  /** The loop over one `SessionEvents` answer. */
  method TranslateBatch(events: seq<Event>, goal: string, since0: int) returns (since: int, shown: seq<Event>)
    ensures since == Advance(since0, events) && shown == Relevant(events, goal)
  {
    since, shown := since0, [];
    for k := 0 to |events|
      invariant since == Advance(since0, events[..k]) && shown == Relevant(events[..k], goal)
    {
      assert events[..k + 1][..k] == events[..k];
      var e := events[k];
      if e.goal != Some(goal) && e.goal.Some? {
        // another goal's event: skipped, but the cursor still advances
      } else {
        shown := shown + [e];
      }
      since := Max(since, e.id);
    }
    assert events[..|events|] == events;
  }

  /** The shared mark after a load that saw ids up to `maxId`. */
  function Loaded(mark: int, maxId: int): int {
    if maxId > 0 then maxId else mark
  }

  class AcpSession {
    var lastEventId: int

    constructor ()
      ensures lastEventId == 0
    {
      lastEventId := 0;
    }

    /** After a poll: `s.last_event_id = s.last_event_id.max(since)`. */
    method PushMark(since: int)
      modifies this
      ensures lastEventId == Max(old(lastEventId), since)
    {
      lastEventId := Max(lastEventId, since);
    }

    /** One successful poll of `stream_goal`: the answer is worked through on the call's own cursor,
        then the shared mark is raised to it. */
    method Poll(events: seq<Event>, goal: string, since0: int) returns (since: int, shown: seq<Event>)
      modifies this
      ensures since == Advance(since0, events) && shown == Relevant(events, goal)
      ensures lastEventId == Max(old(lastEventId), since)
    {
      since, shown := TranslateBatch(events, goal, since0);
      PushMark(since);
    }

    /** After a `session/load` replay: a plain assignment. */
    method LoadMark(replay: seq<Event>)
      modifies this
      ensures lastEventId == Loaded(old(lastEventId), Advance(0, replay))
    {
      var maxId := 0;
      for k := 0 to |replay|
        invariant maxId == Advance(0, replay[..k])
      {
        assert replay[..k + 1][..k] == replay[..k];
        maxId := Max(maxId, replay[k].id);
      }
      assert replay[..|replay|] == replay;
      if maxId > 0 {
        lastEventId := maxId;
      }
    }
  }

  // ---- the interleaved system ------------------------------------------------------

  datatype Phase =
    | Polling                                     // about to ask for events
    | Translating(rest: seq<Event>, horizon: int) // working through the answer; `horizon` was the last id then
    | Pushing                                     // answer translated, mark not yet pushed
    | Checking                                    // mark pushed or poll failed; about to read the goal's status

  /** One turn's tailing of one goal. `turnStart` and `earlier` describe the turn's calls
      before the current one; `start`, `since` and `shown` belong to the current call. */
  datatype Stream = Stream(goal: string, turnStart: int, earlier: seq<Event>,
                           start: int, since: int, shown: seq<Event>, phase: Phase)

  datatype System = System(log: seq<Event>, mark: int, streams: map<nat, Stream>, loads: map<nat, int>)

  datatype Step =
    | Append(e: Event)
    | Start(s: nat, goal: string)
    | Fetch(s: nat) | FetchFails(s: nat) | Translate(s: nat) | BatchDone(s: nat) | Push(s: nat)
    | KeepPolling(s: nat) | Restart(s: nat) | Return(s: nat)
    | LoadFetch(l: nat) | LoadAssign(l: nat)

  predicate Enabled(sys: System, step: Step) {
    match step
    case Append(e) => e.id > LastId(sys.log) && e.id > 0
    case Start(s, _) => s !in sys.streams
    case Fetch(s) => s in sys.streams && sys.streams[s].phase.Polling?
    case FetchFails(s) => s in sys.streams && sys.streams[s].phase.Polling?
    case Translate(s) => s in sys.streams && sys.streams[s].phase.Translating? && sys.streams[s].phase.rest != []
    case BatchDone(s) => s in sys.streams && sys.streams[s].phase.Translating? && sys.streams[s].phase.rest == []
    case Push(s) => s in sys.streams && sys.streams[s].phase.Pushing?
    case KeepPolling(s) => s in sys.streams && sys.streams[s].phase.Checking?
    case Restart(s) => s in sys.streams && sys.streams[s].phase.Checking?
    case Return(s) => s in sys.streams
    case LoadFetch(l) => l !in sys.loads
    case LoadAssign(l) => l in sys.loads
  }

  function With(sys: System, s: nat, stream: Stream): System {
    sys.(streams := sys.streams[s := stream])
  }

  function TranslateOne(st: Stream): Stream
    requires st.phase.Translating? && st.phase.rest != []
  {
    var e := st.phase.rest[0];
    st.(shown := if Concerns(e, st.goal) then st.shown + [e] else st.shown,
        since := Max(st.since, e.id),
        phase := Translating(st.phase.rest[1..], st.phase.horizon))
  }

  /** The budget is raised: a new call, whose cursor starts at the shared mark. */
  function RestartAt(st: Stream, mark: int): Stream {
    Stream(st.goal, st.turnStart, st.earlier + st.shown, mark, mark, [], Polling)
  }

  function Next(sys: System, step: Step): System
    requires Enabled(sys, step)
  {
    match step
    case Append(e) => sys.(log := sys.log + [e])
    case Start(s, goal) => With(sys, s, Stream(goal, sys.mark, [], sys.mark, sys.mark, [], Polling))
    case Fetch(s) =>
      var st := sys.streams[s];
      With(sys, s, st.(phase := Translating(Between(sys.log, st.since, LastId(sys.log)), LastId(sys.log))))
    case FetchFails(s) => With(sys, s, sys.streams[s].(phase := Checking))
    case Translate(s) => With(sys, s, TranslateOne(sys.streams[s]))
    case BatchDone(s) => With(sys, s, sys.streams[s].(phase := Pushing))
    case Push(s) =>
      var st := sys.streams[s];
      With(sys, s, st.(phase := Checking)).(mark := Max(sys.mark, st.since))
    case KeepPolling(s) => With(sys, s, sys.streams[s].(phase := Polling))
    case Restart(s) => With(sys, s, RestartAt(sys.streams[s], sys.mark))
    case Return(s) => sys.(streams := sys.streams - {s})
    case LoadFetch(l) => sys.(loads := sys.loads[l := LastId(sys.log)])
    case LoadAssign(l) =>
      sys.(mark := Loaded(sys.mark, sys.loads[l]), loads := sys.loads - {l})
  }

  /** A bridge process with no streams yet, on a session that may already have a history. */
  ghost predicate Initial(sys: System) {
    Ordered(sys.log) && (sys.log != [] ==> sys.log[0].id > 0)
    && sys.mark == 0 && sys.streams == map[] && sys.loads == map[]
  }

  predicate Moves(sys: System, step: Step, next: System) {
    Enabled(sys, step) && next == Next(sys, step)
  }

  ghost predicate Run(states: seq<System>, steps: seq<Step>) {
    Runs.Joined(Moves, states, steps) && Initial(states[0])
  }

  // ---- facts about the log ---------------------------------------------------------

  lemma {:induction false} BetweenJoins(log: seq<Event>, lo: int, mid: int, hi: int)
    requires Ordered(log) && lo <= mid <= hi
    ensures Between(log, lo, hi) == Between(log, lo, mid) + Between(log, mid, hi)
  {
    if log != [] {
      var e := log[|log| - 1];
      BetweenJoins(log[..|log| - 1], lo, mid, hi);
      if e.id <= mid {
        NothingAbove(log[..|log| - 1], mid, hi, e.id);
      }
    }
  }

  lemma {:induction false} NothingAbove(log: seq<Event>, lo: int, hi: int, bound: int)
    requires bound <= lo && forall k :: 0 <= k < |log| ==> log[k].id < bound
    ensures Between(log, lo, hi) == []
  {
    if log != [] {
      NothingAbove(log[..|log| - 1], lo, hi, bound);
    }
  }

  lemma {:induction false} RelevantJoins(a: seq<Event>, b: seq<Event>, goal: string)
    ensures Relevant(a + b, goal) == Relevant(a, goal) + Relevant(b, goal)
  {
    if b == [] {
      assert a + b == a;
    } else {
      RelevantJoins(a, b[..|b| - 1], goal);
      assert (a + b)[..|a + b| - 1] == a + b[..|b| - 1];
    }
  }

  lemma OwedJoins(log: seq<Event>, lo: int, mid: int, hi: int, goal: string)
    requires Ordered(log) && lo <= mid <= hi
    ensures Owed(log, lo, hi, goal) == Owed(log, lo, mid, goal) + Owed(log, mid, hi, goal)
  {
    BetweenJoins(log, lo, mid, hi);
    RelevantJoins(Between(log, lo, mid), Between(log, mid, hi), goal);
  }

  /** The first entry after `lo`: everything up to it is that entry alone. */
  lemma {:induction false} FirstOfBetween(log: seq<Event>, lo: int, hi: int)
    requires Ordered(log) && Between(log, lo, hi) != []
    ensures var events := Between(log, lo, hi);
      && lo < events[0].id <= hi && events[0].id <= LastId(log)
      && Between(log, lo, events[0].id) == [events[0]]
      && Between(log, events[0].id, hi) == events[1..]
  {
    var init, last := log[..|log| - 1], log[|log| - 1];
    var events := Between(log, lo, hi);
    if Between(init, lo, hi) == [] {
      assert events == [last];
      BetweenJoins(init, lo, last.id, hi);
      BetweenJoins(log, lo, last.id, hi);
      assert Between(log, lo, last.id) == [last];
    } else {
      FirstOfBetween(init, lo, hi);
      assert events[0] == Between(init, lo, hi)[0];
      assert events[0].id < last.id;
    }
  }

  lemma AppendKeepsBetween(log: seq<Event>, e: Event, lo: int, hi: int)
    requires hi < e.id
    ensures Between(log + [e], lo, hi) == Between(log, lo, hi)
  {
    assert (log + [e])[..|log|] == log;
  }

  // ---- the invariant ---------------------------------------------------------------

  /** The current call has shown exactly what it owes for the part of the log it has passed. */
  ghost predicate CallExact(log: seq<Event>, st: Stream) {
    st.start <= st.since && st.shown == Owed(log, st.start, st.since, st.goal)
  }

  ghost predicate StreamInv(log: seq<Event>, st: Stream) {
    && CallExact(log, st) && st.since <= LastId(log)
    && (st.phase.Translating? ==>
          st.phase.horizon <= LastId(log) && st.phase.rest == Between(log, st.since, st.phase.horizon))
  }

  ghost predicate Inv(sys: System) {
    && Ordered(sys.log) && (sys.log != [] ==> sys.log[0].id > 0)
    && sys.mark <= LastId(sys.log)
    && (forall l <- sys.loads :: sys.loads[l] <= LastId(sys.log))
    && (forall s <- sys.streams :: StreamInv(sys.log, sys.streams[s]))
  }

  lemma TranslateKeepsInv(log: seq<Event>, st: Stream)
    requires Ordered(log) && StreamInv(log, st) && st.phase.Translating? && st.phase.rest != []
    ensures StreamInv(log, TranslateOne(st))
  {
    hide Ordered, Between, Relevant;
    var e := st.phase.rest[0];
    FirstOfBetween(log, st.since, st.phase.horizon);
    OwedJoins(log, st.start, st.since, e.id, st.goal);
    OneRelevant(e, st.goal);
  }

  lemma OneRelevant(e: Event, goal: string)
    ensures Relevant([e], goal) == if Concerns(e, goal) then [e] else []
  {
    assert [e][..0] == [];
  }

  lemma AppendKeepsInv(sys: System, e: Event)
    requires Inv(sys) && Enabled(sys, Append(e))
    ensures Inv(Next(sys, Append(e)))
  {
    var log := sys.log + [e];
    assert forall k :: 0 <= k < |sys.log| ==> sys.log[k].id <= LastId(sys.log);
    forall s | s in sys.streams ensures StreamInv(log, sys.streams[s]) {
      var st := sys.streams[s];
      AppendKeepsBetween(sys.log, e, st.start, st.since);
      if st.phase.Translating? {
        AppendKeepsBetween(sys.log, e, st.since, st.phase.horizon);
      }
    }
  }

  lemma {:induction false} NothingBetween(log: seq<Event>, at: int)
    ensures Between(log, at, at) == []
  {
    if log != [] {
      NothingBetween(log[..|log| - 1], at);
    }
  }

  lemma StepKeepsInv(sys: System, step: Step)
    requires Inv(sys) && Enabled(sys, step)
    ensures Inv(Next(sys, step))
  {
    hide Ordered, Between, Relevant;
    match step
    case Append(e) => AppendKeepsInv(sys, e);
    case Translate(s) => TranslateKeepsInv(sys.log, sys.streams[s]);
    case Start(_, goal) => NothingOwed(sys.log, sys.mark, goal);
    case Restart(s) => NothingOwed(sys.log, sys.mark, sys.streams[s].goal);
    case _ =>
  }

  lemma NothingOwed(log: seq<Event>, at: int, goal: string)
    ensures Owed(log, at, at, goal) == []
  {
    NothingBetween(log, at);
  }

  lemma {:induction false} EveryStateInv(states: seq<System>, steps: seq<Step>, k: nat)
    requires Run(states, steps) && k < |states|
    ensures Inv(states[k])
  {
    hide Inv, Next, Enabled;
    if k == 0 {
      InitialInv(states[0]);
    } else {
      EveryStateInv(states, steps, k - 1);
      assert Moves(states[k - 1], steps[k - 1], states[k]);
      StepKeepsInv(states[k - 1], steps[k - 1]);
    }
  }

  lemma InitialInv(sys: System)
    requires Initial(sys)
    ensures Inv(sys)
  {
  }

  /** In every interleaving, whatever other streams and loads do to the shared mark: the events
      one call has shown are exactly the log entries between its start and its cursor that name
      its goal or no goal, in log order and once each. */
  lemma EveryCallExact(states: seq<System>, steps: seq<Step>, k: nat, s: nat)
    requires Run(states, steps) && k < |states| && s in states[k].streams
    ensures CallExact(states[k].log, states[k].streams[s])
  {
    EveryStateInv(states, steps, k);
  }

  /** Owed events are in log order, and exactly those of the range that concern the goal; so
      each is shown once. */
  lemma {:induction false} OwedIsOrdered(log: seq<Event>, lo: int, hi: int, goal: string)
    requires Ordered(log)
    ensures forall e :: e in Owed(log, lo, hi, goal) <==> e in log && lo < e.id <= hi && Concerns(e, goal)
    ensures Ordered(Owed(log, lo, hi, goal))
  {
    hide Owed, Concerns;
    if log == [] {
      NothingInEmpty(lo, hi, goal);
    } else {
      var init, last := log[..|log| - 1], log[|log| - 1];
      OwedIsOrdered(init, lo, hi, goal);
      assert log == init + [last];
      OwedOfLast(init, last, lo, hi, goal);
    }
  }

  lemma NothingInEmpty(lo: int, hi: int, goal: string)
    ensures Owed([], lo, hi, goal) == []
  {
  }

  lemma OwedOfLast(init: seq<Event>, last: Event, lo: int, hi: int, goal: string)
    ensures Owed(init + [last], lo, hi, goal)
         == Owed(init, lo, hi, goal) + if lo < last.id <= hi && Concerns(last, goal) then [last] else []
  {
    assert (init + [last])[..|init|] == init;
    RelevantJoins(Between(init, lo, hi), [last], goal);
    OneRelevant(last, goal);
  }

  // ---- restarts after "raise" ------------------------------------------------------

  /** Everything the turn has shown, over all its calls. */
  function TurnShown(st: Stream): seq<Event> {
    st.earlier + st.shown
  }

  ghost predicate TurnExact(log: seq<Event>, st: Stream) {
    st.turnStart <= st.since && TurnShown(st) == Owed(log, st.turnStart, st.since, st.goal)
  }

  /** Only stream `s`, and no load, is ever on the session. */
  ghost predicate Alone(sys: System, s: nat) {
    sys.streams.Keys <= {s} && sys.loads == map[]
  }

  ghost predicate AloneInv(sys: System, s: nat) {
    Inv(sys) && Alone(sys, s) && (s in sys.streams ==>
      var st := sys.streams[s];
      && st.turnStart <= st.start && st.earlier == Owed(sys.log, st.turnStart, st.start, st.goal)
      && (if st.phase.Translating? || st.phase.Pushing? then sys.mark <= st.since else sys.mark == st.since))
  }

  lemma AloneStep(sys: System, step: Step, s: nat)
    requires AloneInv(sys, s) && Enabled(sys, step) && Alone(Next(sys, step), s)
    ensures AloneInv(Next(sys, step), s)
  {
    hide Ordered, Between, Relevant, Inv;
    StepKeepsInv(sys, step);
    match step
    case Append(e) =>
      if s in sys.streams {
        var st := sys.streams[s];
        InvGivesStream(sys, s);
        AppendKeepsBetween(sys.log, e, st.turnStart, st.start);
      }
    case Start(_, goal) => NothingOwed(sys.log, sys.mark, goal);
    case Restart(_) =>
      var st := sys.streams[s];
      InvGivesStream(sys, s);
      OwedJoins(sys.log, st.turnStart, st.start, st.since, st.goal);
    case _ =>
  }

  lemma InvGivesStream(sys: System, s: nat)
    requires Inv(sys) && s in sys.streams
    ensures Ordered(sys.log) && StreamInv(sys.log, sys.streams[s])
  {
  }

  lemma {:induction false} EveryStateAloneInv(states: seq<System>, steps: seq<Step>, k: nat, s: nat)
    requires Run(states, steps) && k < |states| && forall j :: 0 <= j < |states| ==> Alone(states[j], s)
    ensures AloneInv(states[k], s)
  {
    hide Inv, Next, Enabled, AloneInv, Alone;
    if k == 0 {
      AloneAtFirst(states[0], s);
    } else {
      EveryStateAloneInv(states, steps, k - 1, s);
      assert Alone(states[k - 1], s) && Alone(states[k], s);
      assert Moves(states[k - 1], steps[k - 1], states[k]);
      AloneStep(states[k - 1], steps[k - 1], s);
    }
  }

  lemma AloneAtFirst(sys: System, s: nat)
    requires Initial(sys)
    ensures AloneInv(sys, s)
  {
  }

  /** With a single stream on the session and no concurrent `session/load`, the whole turn is
      exactly-once, across any number of blocked-and-raised restarts. */
  lemma LoneTurnExact(states: seq<System>, steps: seq<Step>, k: nat, s: nat)
    requires Run(states, steps) && k < |states| && s in states[k].streams
    requires forall j :: 0 <= j < |states| ==> Alone(states[j], s)
    ensures TurnExact(states[k].log, states[k].streams[s])
  {
    hide Ordered, Between, Relevant, Inv;
    EveryStateAloneInv(states, steps, k, s);
    var st := states[k].streams[s];
    InvGivesStream(states[k], s);
    OwedJoins(states[k].log, st.turnStart, st.start, st.since, st.goal);
  }

  function Min(a: int, b: int): int {
    if a <= b then a else b
  }

  /** What the turn has shown before a restart, and what the next call then shows, is exact if and
      only if nothing owed lies between cursor and mark. */
  lemma JoinedExactly(log: seq<Event>, start: int, cursor: int, mark: int, since: int, goal: string)
    requires Ordered(log) && start <= cursor <= since && mark <= since
    ensures Owed(log, start, cursor, goal) + Owed(log, mark, since, goal) == Owed(log, start, since, goal)
      <==> Owed(log, Min(mark, cursor), Max(mark, cursor), goal) == []
  {
    hide Ordered, Between, Relevant, Owed;
    OwedJoins(log, start, cursor, since, goal);
    if cursor <= mark {
      OwedJoins(log, cursor, mark, since, goal);
    } else {
      OwedJoins(log, mark, cursor, since, goal);
    }
  }

  /** Stream `s` makes no further call and does not end. */
  predicate StaysInCall(step: Step, s: nat) {
    !(step.Restart? && step.s == s) && !(step.Return? && step.s == s)
  }

  /** The same call of the same turn, over a log that may have grown. */
  ghost predicate SameCall(a: System, b: System, s: nat) {
    && a.log <= b.log && s in a.streams && s in b.streams
    && b.streams[s].goal == a.streams[s].goal && b.streams[s].turnStart == a.streams[s].turnStart
    && b.streams[s].earlier == a.streams[s].earlier && b.streams[s].start == a.streams[s].start
  }

  lemma StepKeepsCall(a: System, b: System, step: Step, s: nat)
    requires SameCall(a, b, s) && Enabled(b, step) && StaysInCall(step, s)
    ensures SameCall(a, Next(b, step), s)
  {
    hide Between;
  }

  lemma SameCallAtFirst(sys: System, s: nat)
    requires s in sys.streams
    ensures SameCall(sys, sys, s)
  {
  }

  lemma {:induction false} CallGoesOn(states: seq<System>, steps: seq<Step>, j: nat, k: nat, s: nat)
    requires Run(states, steps) && j <= k < |states| && s in states[j].streams
    requires forall i :: j <= i < k ==> StaysInCall(steps[i], s)
    ensures SameCall(states[j], states[k], s)
  {
    hide Enabled, Next, SameCall;
    if j == k {
      SameCallAtFirst(states[j], s);
    } else {
      CallGoesOn(states, steps, j, k - 1, s);
      assert Moves(states[k - 1], steps[k - 1], states[k]);
      StepKeepsCall(states[j], states[k - 1], steps[k - 1], s);
    }
  }

  /** What is owed up to the last id stays owed as the log grows. */
  lemma {:induction false} OwedStays(log: seq<Event>, more: seq<Event>, lo: int, hi: int, goal: string)
    requires log <= more && Ordered(more) && hi <= LastId(log) && (more != [] ==> more[0].id > 0)
    ensures Owed(more, lo, hi, goal) == Owed(log, lo, hi, goal)
  {
    if |log| < |more| {
      var init, last := more[..|more| - 1], more[|more| - 1];
      OwedStays(log, init, lo, hi, goal);
      assert init + [last] == more;
      AppendKeepsBetween(init, last, lo, hi);
    } else {
      assert log == more;
    }
  }

  /** In every run, a turn that was exact when step `j` restarted it is exact again, once its
      cursor has passed the old one, if and only if no event it owed lay between its own cursor
      and the shared mark it restarted from: above the cursor such events are lost, below it
      they are shown twice. */
  lemma RestartExactly(states: seq<System>, steps: seq<Step>, j: nat, k: nat, s: nat)
    requires Run(states, steps) && j < k < |states| && steps[j] == Restart(s) && s in states[j].streams
    requires TurnExact(states[j].log, states[j].streams[s])
    requires forall i :: j < i < k ==> StaysInCall(steps[i], s)
    requires s in states[k].streams ==> states[j].streams[s].since <= states[k].streams[s].since
    ensures s in states[k].streams
    ensures TurnExact(states[k].log, states[k].streams[s]) <==>
      var st, mark := states[j].streams[s], states[j].mark;
      Owed(states[j].log, Min(mark, st.since), Max(mark, st.since), st.goal) == []
  {
    hide Ordered, Between, Relevant, Owed, Initial;
    var sys, last := states[j], states[k];
    var st := sys.streams[s];
    assert Moves(sys, steps[j], states[j + 1]);
    CallGoesOn(states, steps, j + 1, k, s);
    EveryStateInv(states, steps, j);
    EveryStateInv(states, steps, k);
    var st' := last.streams[s];
    assert TurnShown(st') == TurnShown(st) + st'.shown;
    assert sys.log == states[j + 1].log && StreamInv(sys.log, st) && StreamInv(last.log, st');
    OwedStays(sys.log, last.log, st.turnStart, st.since, st.goal);
    OwedStays(sys.log, last.log, Min(sys.mark, st.since), Max(sys.mark, st.since), st.goal);
    JoinedExactly(last.log, st.turnStart, st.since, sys.mark, st'.since, st.goal);
  }

  // ---- the class and the steps -----------------------------------------------------

  /** Stream `s` has worked through the first `i` events of its batch. */
  ghost predicate Worked(before: Stream, st: Stream, batch: seq<Event>, i: nat) {
    && i <= |batch| && st.phase.Translating? && st.phase.rest == batch[i..] && st.goal == before.goal
    && st.since == Advance(before.since, batch[..i]) && st.shown == before.shown + Relevant(batch[..i], before.goal)
  }

  lemma WorkOne(before: Stream, st: Stream, batch: seq<Event>, i: nat)
    requires Worked(before, st, batch, i) && st.phase.rest != []
    ensures Worked(before, TranslateOne(st), batch, i + 1)
  {
    assert batch[..i + 1][..i] == batch[..i] && batch[i..][1..] == batch[i + 1..];
  }

  lemma {:induction false} WorksThrough(states: seq<System>, steps: seq<Step>, j: nat, k: nat, s: nat)
    returns (i: nat)
    requires Run(states, steps) && j < k < |states| && steps[j] == Fetch(s) && s in states[j].streams
    requires forall m :: j < m < k ==> steps[m] != BatchDone(s) && steps[m] != Return(s)
    ensures s in states[k].streams
    ensures Worked(states[j].streams[s], states[k].streams[s], BatchAt(states[j], s), i)
  {
    hide Between, Initial;
    assert Moves(states[k - 1], steps[k - 1], states[k]);
    if k == j + 1 {
      i := 0;
    } else {
      hide Relevant, Advance;
      i := WorksThrough(states, steps, j, k - 1, s);
      if steps[k - 1] == Translate(s) {
        WorkOne(states[j].streams[s], states[k - 1].streams[s], BatchAt(states[j], s), i);
        i := i + 1;
      }
    }
  }

  /** What a poll of stream `s` is answered. */
  function BatchAt(sys: System, s: nat): seq<Event>
    requires s in sys.streams
  {
    Between(sys.log, sys.streams[s].since, LastId(sys.log))
  }

  /** In every run, whatever happens between the steps of a poll: its stream ends up where `Poll`
      leaves its caller, with the cursor after the batch and the batch's relevant events shown,
      and then pushes that cursor. */
  lemma StepsArePoll(states: seq<System>, steps: seq<Step>, j: nat, k: nat, s: nat)
    requires Run(states, steps) && j < k < |steps| && steps[j] == Fetch(s) && s in states[j].streams
    requires steps[k] == BatchDone(s)
    requires forall m :: j < m < k ==> steps[m] != BatchDone(s) && steps[m] != Return(s)
    ensures s in states[k + 1].streams && states[k + 1].streams[s].phase == Pushing
    ensures var st, st', batch := states[j].streams[s], states[k + 1].streams[s], BatchAt(states[j], s);
      st'.since == Advance(st.since, batch) && st'.shown == st.shown + Relevant(batch, st.goal)
  {
    hide Between, Initial, Relevant, Advance;
    var i := WorksThrough(states, steps, j, k, s);
    assert Moves(states[k], steps[k], states[k + 1]);
    var batch := BatchAt(states[j], s);
    assert batch[..|batch|] == batch;
  }

  /** After the first `i` events of the answer to a poll. */
  function PolledTo(sys: System, s: nat, i: nat): System
    requires s in sys.streams && i <= |BatchAt(sys, s)|
  {
    var st, batch := sys.streams[s], BatchAt(sys, s);
    With(sys, s, st.(since := Advance(st.since, batch[..i]), shown := st.shown + Relevant(batch[..i], st.goal),
                     phase := Translating(batch[i..], LastId(sys.log))))
  }

  lemma {:induction false} PollsTo(sys: System, s: nat, i: nat) returns (states: seq<System>, steps: seq<Step>)
    requires s in sys.streams && sys.streams[s].phase == Polling && i <= |BatchAt(sys, s)|
    ensures Runs.Joined(Moves, states, steps) && states[0] == sys && states[|steps|] == PolledTo(sys, s, i)
    decreases i
  {
    hide Between;
    var st, batch := sys.streams[s], BatchAt(sys, s);
    if i == 0 {
      assert batch[0..] == batch && batch[..0] == [] && st.shown + [] == st.shown;
      states, steps := Runs.Extend(Moves, [sys], [], Fetch(s), PolledTo(sys, s, 0));
    } else {
      states, steps := PollsTo(sys, s, i - 1);
      TranslatesNext(sys, s, i - 1);
      states, steps := Runs.Extend(Moves, states, steps, Translate(s), PolledTo(sys, s, i));
    }
  }

  lemma TranslatesNext(sys: System, s: nat, i: nat)
    requires s in sys.streams && i < |BatchAt(sys, s)|
    ensures Moves(PolledTo(sys, s, i), Translate(s), PolledTo(sys, s, i + 1))
  {
    hide Between;
    var st, batch := sys.streams[s], BatchAt(sys, s);
    assert batch[..i + 1][..i] == batch[..i] && batch[..i + 1][i] == batch[i] == batch[i..][0];
    assert batch[i..][1..] == batch[i + 1..];
    var one := TranslateOne(PolledTo(sys, s, i).streams[s]);
    if Concerns(batch[i], st.goal) {
      assert st.shown + Relevant(batch[..i + 1], st.goal)
        == st.shown + Relevant(batch[..i], st.goal) + [batch[i]];
    }
    assert one == PolledTo(sys, s, i + 1).streams[s];
    assert PolledTo(sys, s, i).streams[s := one] == sys.streams[s := one];
  }

  /** Where one successful poll brings a call and the mark. */
  function Polled(sys: System, s: nat): System
    requires s in sys.streams
  {
    var st, batch := sys.streams[s], BatchAt(sys, s);
    var since := Advance(st.since, batch);
    System(sys.log, Max(sys.mark, since),
           sys.streams[s := st.(since := since, shown := st.shown + Relevant(batch, st.goal), phase := Checking)],
           sys.loads)
  }

  /** From any state, a call that is about to poll can go through one poll by steps of its own: it
      shows what it owes up to the end of the log, and raises the mark to its cursor. */
  lemma PollRound(sys: System, s: nat) returns (states: seq<System>, steps: seq<Step>)
    requires s in sys.streams && sys.streams[s].phase == Polling
    ensures Runs.Joined(Moves, states, steps) && states[0] == sys && states[|steps|] == Polled(sys, s)
  {
    hide Between, Relevant, Advance;
    var st, batch := sys.streams[s], BatchAt(sys, s);
    states, steps := PollsTo(sys, s, |batch|);
    assert batch[..|batch|] == batch && batch[|batch|..] == [];
    var pushing := Polled(sys, s).streams[s].(phase := Pushing);
    var done := sys.(streams := sys.streams[s := pushing]);
    assert states[|steps|].streams[s := pushing] == done.streams;
    states, steps := Runs.Extend(Moves, states, steps, BatchDone(s), done);
    assert done.streams[s := pushing.(phase := Checking)] == Polled(sys, s).streams;
    states, steps := Runs.Extend(Moves, states, steps, Push(s), Polled(sys, s));
  }

  /** Then it polls again, or starts over with its cursor at the mark and what it has shown put
      behind it, or returns. */
  lemma AfterChecking(sys: System, s: nat)
    requires s in sys.streams && sys.streams[s].phase == Checking
    ensures var st := sys.streams[s];
      && Moves(sys, KeepPolling(s), sys.(streams := sys.streams[s := st.(phase := Polling)]))
      && Moves(sys, Restart(s), sys.(streams := sys.streams[s :=
           Stream(st.goal, st.turnStart, st.earlier + st.shown, sys.mark, sys.mark, [], Polling)]))
      && Moves(sys, Return(s), sys.(streams := sys.streams - {s}))
  {
  }

  /** What a load is answered is the whole log, so its highest id is the last one. */
  lemma {:induction false} LoadSeesLastId(log: seq<Event>)
    requires Ordered(log) && (log != [] ==> log[0].id > 0)
    ensures Advance(0, log) == LastId(log)
  {
    if log != [] {
      LoadSeesLastId(log[..|log| - 1]);
    }
  }

  predicate LeavesLoad(step: Step, l: nat) {
    !(step.LoadAssign? && step.l == l)
  }

  lemma {:induction false} LoadStays(states: seq<System>, steps: seq<Step>, j: nat, k: nat, l: nat)
    requires Run(states, steps) && j <= k < |states| && l in states[j].loads
    requires forall i :: j <= i < k ==> LeavesLoad(steps[i], l)
    ensures l in states[k].loads && states[k].loads[l] == states[j].loads[l]
  {
    if j < k {
      hide Between, Initial;
      LoadStays(states, steps, j, k - 1, l);
      assert Moves(states[k - 1], steps[k - 1], states[k]);
    }
  }

  /** In every run, what a load assigns is what `LoadMark` makes of the log as it was when the
      load fetched it, whatever was appended and pushed since: its ids may be long passed. */
  lemma LoadAssignsItsReplay(states: seq<System>, steps: seq<Step>, j: nat, k: nat, l: nat)
    requires Run(states, steps) && j < k < |steps| && steps[j] == LoadFetch(l) && steps[k] == LoadAssign(l)
    requires forall i :: j < i < k ==> LeavesLoad(steps[i], l)
    ensures states[k + 1].mark == Loaded(states[k].mark, Advance(0, states[j].log))
    ensures states[k + 1].mark == if states[j].log == [] then states[k].mark else LastId(states[j].log)
    ensures l !in states[k + 1].loads
  {
    hide Between, Initial, Inv;
    assert Moves(states[j], steps[j], states[j + 1]) && Moves(states[k], steps[k], states[k + 1]);
    LoadStays(states, steps, j + 1, k, l);
    EveryStateInv(states, steps, j);
    InvOrders(states[j]);
    LoadSeesLastId(states[j].log);
  }

  lemma InvOrders(sys: System)
    requires Inv(sys)
    ensures Ordered(sys.log) && (sys.log != [] ==> sys.log[0].id > 0)
  {
  }

  predicate Pushes(sys: System, step: Step, since: int) {
    step.Push? && step.s in sys.streams && sys.streams[step.s].since == since
  }

  /** While no load assigns it, the mark is the highest of its old value and the cursors that
      were pushed meanwhile. */
  lemma {:induction false} MarkIsHighWater(states: seq<System>, steps: seq<Step>, i: nat, k: nat)
    requires Run(states, steps) && i <= k < |states|
    requires forall j :: i <= j < k ==> !steps[j].LoadAssign?
    ensures states[i].mark <= states[k].mark
    ensures forall j, since :: i <= j < k && Pushes(states[j], steps[j], since) ==> since <= states[k].mark
    ensures states[k].mark == states[i].mark || exists j :: i <= j < k && Pushes(states[j], steps[j], states[k].mark)
  {
    if i < k {
      hide Between, Initial;
      MarkIsHighWater(states, steps, i, k - 1);
      assert Moves(states[k - 1], steps[k - 1], states[k]);
      assert states[k].mark == states[k - 1].mark || Pushes(states[k - 1], steps[k - 1], states[k].mark);
    }
  }

  /** Some load assigned an id below the mark. */
  predicate LowersMark(sys: System, step: Step) {
    step.LoadAssign? && step.l in sys.loads && 0 < sys.loads[step.l] < sys.mark
  }

  /** Between two states of a run that the mark fell between, a load assigned an id below it. */
  lemma {:induction false} MarkFallsOnlyByLoads(states: seq<System>, steps: seq<Step>, i: nat, k: nat) returns (j: nat)
    requires Run(states, steps) && i <= k < |states| && states[k].mark < states[i].mark
    ensures i <= j < k && LowersMark(states[j], steps[j])
  {
    hide Between, Initial;
    assert Moves(states[k - 1], steps[k - 1], states[k]);
    if states[k - 1].mark < states[i].mark {
      j := MarkFallsOnlyByLoads(states, steps, i, k - 1);
    } else {
      j := k - 1;
    }
  }

  /** The cursor of the stream has passed an event of its own goal that it never showed. */
  predicate Lost(sys: System, s: nat, e: Event, goal: string) {
    && s in sys.streams && sys.streams[s].goal == goal && e in sys.log && Concerns(e, goal)
    && sys.streams[s].turnStart < e.id <= sys.streams[s].since && e !in TurnShown(sys.streams[s])
  }

  /** Equality can fail: two goals tail one session, the first is blocked when an event of its
      own is appended, and the second pushes the mark past that event before the first is
      raised. The restarted call never shows it. */
  lemma RestartCanLoseAnEvent(e: Event, goal: string, other: string) returns (states: seq<System>, steps: seq<Step>)
    requires e.id == 1 && e.goal == Some(goal) && other != goal
    ensures Run(states, steps) && |steps| > 0 && Lost(states[|steps|], 0, e, goal)
  {
    hide Between, Initial;
    assert RestartAt(Fresh(goal).(phase := Checking), 1) == Fresh(goal).(start := 1, since := 1);
    states, steps := MarkPushedPast(e, goal, other);
    var both := states[|steps|].streams;
    var lost := both[0 := Fresh(goal).(start := 1, since := 1)];
    states, steps := Runs.Extend(Moves, states, steps, Restart(0), System([e], 1, lost, map[]));
  }

  lemma MarkPushedPast(e: Event, goal: string, other: string) returns (states: seq<System>, steps: seq<Step>)
    requires e.id == 1 && e.goal == Some(goal) && other != goal
    ensures Run(states, steps)
    ensures states[|steps|] == System([e], 1,
      map[0 := Fresh(goal).(phase := Checking), 1 := Fresh(other).(since := 1, phase := Checking)], map[])
  {
    hide Between, Initial;
    BetweenOne(e);
    var theirs := Fresh(other);
    var passed := theirs.(since := 1, phase := Checking);
    assert [e][1..] == [] && [e][0] == e;
    assert TranslateOne(theirs.(phase := Translating([e], 1))) == passed.(phase := Translating([], 1));
    states, steps := BlockedBeforeAppend(e, goal, other);
    var both := states[|steps|].streams;
    states, steps := Runs.Extend(Moves, states, steps, Fetch(1),
        System([e], 0, both[1 := theirs.(phase := Translating([e], 1))], map[]));
    states, steps := Runs.Extend(Moves, states, steps, Translate(1),
        System([e], 0, both[1 := passed.(phase := Translating([], 1))], map[]));
    states, steps := Runs.Extend(Moves, states, steps, BatchDone(1),
        System([e], 0, both[1 := passed.(phase := Pushing)], map[]));
    states, steps := Runs.Extend(Moves, states, steps, Push(1), System([e], 1, both[1 := passed], map[]));
  }

  function Fresh(goal: string): Stream {
    Stream(goal, 0, [], 0, 0, [], Polling)
  }

  lemma BlockedBeforeAppend(e: Event, goal: string, other: string) returns (states: seq<System>, steps: seq<Step>)
    requires e.id == 1
    ensures Run(states, steps) && |states| == |steps| + 1
    ensures states[|steps|] == System([e], 0, map[0 := Fresh(goal).(phase := Checking), 1 := Fresh(other)], map[])
  {
    hide Between;
    EmptyRun();
    states, steps := [System([], 0, map[], map[])], [];
    states, steps := Runs.Extend(Moves, states, steps, Start(0, goal), System([], 0, map[0 := Fresh(goal)], map[]));
    states, steps := Runs.Extend(Moves, states, steps, FetchFails(0),
        System([], 0, map[0 := Fresh(goal).(phase := Checking)], map[]));
    var both := map[0 := Fresh(goal).(phase := Checking), 1 := Fresh(other)];
    states, steps := Runs.Extend(Moves, states, steps, Start(1, other), System([], 0, both, map[]));
    states, steps := Runs.Extend(Moves, states, steps, Append(e), System([e], 0, both, map[]));
  }

  lemma BetweenOne(e: Event)
    requires e.id == 1
    ensures Between([e], 0, 1) == [e]
  {
    assert [e][..0] == [];
  }

  lemma EmptyRun()
    ensures Run([System([], 0, map[], map[])], [])
  {
  }
}
