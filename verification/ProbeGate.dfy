/** The probe gate of `discover.rs`: a counting semaphore built from a mutex-protected count
    and a condition variable, as an interleaving of atomic steps. Spurious wakeups, barging
    past woken threads, and the gap between the decrement in `drop` and its `notify_one` are
    all steps of their own. */
module ProbeGate {
  import Sets
  import opened Text

  const MAX_CONCURRENT_PROBES: nat := 4

  type Tid = nat

  /** Where a thread is in `output_within`. */
  datatype Pc =
    | Idle        // outside
    | Entering    // in `acquire`, before `lock()`
    | Checking    // in `acquire`, first evaluation of the loop guard, lock held
    | Waiting     // in `cvar.wait`, lock released
    | Woken       // woken, before taking the lock again
    | Rechecking  // woken, evaluating the loop guard again, lock held
    | Permitted   // `acquire` returned; no child process yet, or no longer
    | Probing     // child process alive
    | Dropping    // in `drop`, before `lock()`
    | Releasing   // in `drop`, lock held, before the decrement
    | Notifying   // in `drop`, decremented and unlocked, before `notify_one`

  datatype Gate = Gate(count: int, owner: set<Tid>, pc: map<Tid, Pc>)

  /** The threads whose position satisfies `f`. */
  function Where(g: Gate, f: Pc -> bool): set<Tid> {
    set t | t in g.pc && f(g.pc[t])
  }

  /** The permit is counted. */
  predicate IsHolder(p: Pc) {
    p.Permitted? || p.Probing? || p.Dropping? || p.Releasing?
  }

  /** Woken, and yet to recheck the loop guard. */
  predicate IsToRecheck(p: Pc) {
    p.Woken? || p.Rechecking?
  }

  /** In a critical section. */
  predicate IsInside(p: Pc) {
    p.Checking? || p.Rechecking? || p.Releasing?
  }

  predicate IsWaiting(p: Pc) {
    p.Waiting?
  }

  predicate IsNotifying(p: Pc) {
    p.Notifying?
  }

  datatype Step =
    | Enter(t: Tid) | Lock(t: Tid) | Check(t: Tid)
    | SpuriousWake(t: Tid)
    | Spawn(t: Tid) | Reap(t: Tid)
    | Leave(t: Tid) | LockToDrop(t: Tid) | Decrement(t: Tid)
    | NotifyOne(t: Tid, woken: set<Tid>)

  function Move(g: Gate, t: Tid, p: Pc): Gate {
    g.(pc := g.pc[t := p])
  }

  /** One waiter, any one, if there is any. */
  predicate OneWaiter(g: Gate, woken: set<Tid>) {
    woken <= Where(g, IsWaiting) && |woken| <= 1 && (woken == {} ==> Where(g, IsWaiting) == {})
  }

  predicate Enabled(g: Gate, s: Step) {
    s.t in g.pc &&
    match s
    case Enter(t) => g.pc[t] == Idle
    case Lock(t) => (g.pc[t].Entering? || g.pc[t].Woken?) && g.owner == {}
    case Check(t) => g.pc[t].Checking? || g.pc[t].Rechecking?
    case SpuriousWake(t) => g.pc[t] == Waiting
    case Spawn(t) => g.pc[t] == Permitted
    case Reap(t) => g.pc[t] == Probing
    case Leave(t) => g.pc[t] == Permitted
    case LockToDrop(t) => g.pc[t] == Dropping && g.owner == {}
    case Decrement(t) => g.pc[t] == Releasing
    case NotifyOne(t, woken) => g.pc[t] == Notifying && OneWaiter(g, woken)
  }

  function Next(g: Gate, s: Step): Gate
    requires Enabled(g, s)
  {
    match s
    case Enter(t) => Move(g, t, Entering)
    case Lock(t) => Move(g, t, if g.pc[t] == Entering then Checking else Rechecking).(owner := {t})
    case Check(t) =>
      if g.count >= MAX_CONCURRENT_PROBES then Move(g, t, Waiting).(owner := {})
      else Move(g, t, Permitted).(owner := {}, count := g.count + 1)
    case SpuriousWake(t) => Move(g, t, Woken)
    case Spawn(t) => Move(g, t, Probing)
    case Reap(t) => Move(g, t, Permitted)
    case Leave(t) => Move(g, t, Dropping)
    case LockToDrop(t) => Move(g, t, Releasing).(owner := {t})
    case Decrement(t) => Move(g, t, Notifying).(owner := {}, count := g.count - 1)
    case NotifyOne(t, woken) =>
      Gate(g.count, g.owner, map u | u in g.pc :: if u == t then Idle else if u in woken then Woken else g.pc[u])
  }

  /** Any number of threads, none of them in the gate. */
  predicate Initial(g: Gate) {
    g.count == 0 && g.owner == {} && forall t <- g.pc :: g.pc[t] == Idle
  }

  ghost predicate Run(gates: seq<Gate>, steps: seq<Step>) {
    && |gates| == |steps| + 1 && Initial(gates[0])
    && forall k :: 0 <= k < |steps| ==> Enabled(gates[k], steps[k]) && gates[k + 1] == Next(gates[k], steps[k])
  }

  // ---- the invariant ---------------------------------------------------------------

  ghost predicate MutualExclusion(g: Gate) {
    g.owner == Where(g, IsInside) && |g.owner| <= 1
  }

  /** The count is the number of permits, at most four; in particular it never underflows. */
  ghost predicate CountsPermits(g: Gate) {
    0 <= g.count == |Where(g, IsHolder)| <= MAX_CONCURRENT_PROBES
  }

  /** While anyone sleeps, each free slot is matched by a notification still to be sent or by
      a woken thread still to recheck. */
  ghost predicate NoLostWakeup(g: Gate) {
    Where(g, IsWaiting) != {} ==>
      MAX_CONCURRENT_PROBES - g.count <= |Where(g, IsNotifying)| + |Where(g, IsToRecheck)|
  }

  ghost predicate Inv(g: Gate) {
    MutualExclusion(g) && CountsPermits(g) && NoLostWakeup(g)
  }

  // ---- what moving one thread changes ----------------------------------------------

  function One(b: bool): int {
    if b then 1 else 0
  }

  lemma MovedWhere(g: Gate, t: Tid, q: Pc, g': Gate, f: Pc -> bool)
    requires t in g.pc && g'.pc == g.pc[t := q]
    ensures var set0, next := Where(g, f), Where(g', f);
      && next == (if f(q) then set0 + {t} else set0 - {t})
      && |next| == |set0| + One(f(q)) - One(f(g.pc[t]))
      && (t in set0 <==> f(g.pc[t]))
  {
    var set0, next := Where(g, f), Where(g', f);
    assert next == if f(q) then set0 + {t} else set0 - {t};
  }

  lemma Moved(g: Gate, t: Tid, q: Pc, next: Gate)
    requires t in g.pc && next.pc == g.pc[t := q]
    ensures var p := g.pc[t];
      && |Where(next, IsHolder)| == |Where(g, IsHolder)| + One(IsHolder(q)) - One(IsHolder(p))
      && |Where(next, IsToRecheck)| == |Where(g, IsToRecheck)| + One(IsToRecheck(q)) - One(IsToRecheck(p))
      && |Where(next, IsNotifying)| == |Where(g, IsNotifying)| + One(IsNotifying(q)) - One(IsNotifying(p))
      && Where(next, IsWaiting) == (if IsWaiting(q) then Where(g, IsWaiting) + {t} else Where(g, IsWaiting) - {t})
      && (t in Where(g, IsWaiting) <==> IsWaiting(p))
      && Where(next, IsInside) == (if IsInside(q) then Where(g, IsInside) + {t} else Where(g, IsInside) - {t})
      && (t in Where(g, IsInside) <==> IsInside(p))
  {
    hide Where;
    MovedWhere(g, t, q, next, IsHolder);
    MovedWhere(g, t, q, next, IsToRecheck);
    MovedWhere(g, t, q, next, IsNotifying);
    MovedWhere(g, t, q, next, IsWaiting);
    MovedWhere(g, t, q, next, IsInside);
  }

  lemma SoleOwner(g: Gate, t: Tid)
    requires MutualExclusion(g) && t in g.owner
    ensures g.owner == {t}
  {
    hide Where;
    assert |g.owner - {t}| == |g.owner| - 1;
  }

  lemma StepKeepsInv(g: Gate, s: Step)
    requires Inv(g) && Enabled(g, s)
    ensures Inv(Next(g, s))
  {
    hide Where;
    var t := s.t;
    match s
    case NotifyOne(_, woken) => NotifyKeepsInv(g, t, woken);
    case Lock(_) => MoveKeepsInv(g, t, Next(g, s));
    case LockToDrop(_) => MoveKeepsInv(g, t, Next(g, s));
    case Check(_) => UnlockKeepsInv(g, t, Next(g, s));
    case Decrement(_) => UnlockKeepsInv(g, t, Next(g, s));
    case _ => MoveKeepsInv(g, t, Next(g, s));
  }

  /** Steps outside critical sections, and those that enter one. */
  lemma MoveKeepsInv(g: Gate, t: Tid, next: Gate)
    requires Inv(g) && t in g.pc && t in next.pc && next.pc == g.pc[t := next.pc[t]] && next.count == g.count
    requires var p, q := g.pc[t], next.pc[t];
      && !IsInside(p) && !IsNotifying(p) && !IsWaiting(q) && !IsNotifying(q)
      && IsHolder(p) == IsHolder(q) && (IsToRecheck(p) ==> IsToRecheck(q))
      && (if IsInside(q) then g.owner == {} && next.owner == {t} else next.owner == g.owner)
    ensures Inv(next)
  {
    hide Where;
    Moved(g, t, next.pc[t], next);
  }

  /** Steps that leave a critical section. */
  lemma UnlockKeepsInv(g: Gate, t: Tid, next: Gate)
    requires Inv(g) && t in g.pc && t in next.pc && next.pc == g.pc[t := next.pc[t]] && next.owner == {}
    requires var p, q := g.pc[t], next.pc[t];
      && IsInside(p) && !IsInside(q) && !IsToRecheck(q)
      && next.count - g.count == One(IsHolder(q)) - One(IsHolder(p))
      && (if IsHolder(p) then IsNotifying(q) else if g.count < MAX_CONCURRENT_PROBES then IsHolder(q) else IsWaiting(q))
    ensures Inv(next)
  {
    hide Where;
    var q := next.pc[t];
    Moved(g, t, q, next);
    SoleOwner(g, t);
    assert Where(next, IsInside) == {};
    assert |Where(g, IsHolder)| == 0 ==> Where(g, IsHolder) == {};
  }

  ghost predicate WokenAs(g: Gate, t: Tid, u: Tid, next: Gate) {
    u in g.pc && u != t && g.pc[u] == Waiting && u in Where(g, IsWaiting)
    && next == Move(Move(g, t, Idle), u, Woken)
  }

  lemma NotifyIsMoves(g: Gate, t: Tid, woken: set<Tid>)
    requires Enabled(g, NotifyOne(t, woken))
    ensures woken == {} ==> Next(g, NotifyOne(t, woken)) == Move(g, t, Idle) && Where(g, IsWaiting) == {}
    ensures woken != {} ==> exists u :: WokenAs(g, t, u, Next(g, NotifyOne(t, woken)))
  {
    if woken != {} {
      var u :| u in woken;
      OnlyOne(woken, u);
      assert u in Where(g, IsWaiting);
      assert Next(g, NotifyOne(t, woken)).pc == Move(Move(g, t, Idle), u, Woken).pc;
      assert WokenAs(g, t, u, Next(g, NotifyOne(t, woken)));
    } else {
      assert Next(g, NotifyOne(t, woken)).pc == Move(g, t, Idle).pc;
    }
  }

  lemma NotifyKeepsInv(g: Gate, t: Tid, woken: set<Tid>)
    requires Inv(g) && Enabled(g, NotifyOne(t, woken))
    ensures Inv(Next(g, NotifyOne(t, woken)))
  {
    hide Where, Next, OneWaiter, Inv;
    NotifyIsMoves(g, t, woken);
    if woken == {} {
      NotifyNobody(g, t);
    } else {
      var u :| WokenAs(g, t, u, Next(g, NotifyOne(t, woken)));
      NotifyOneKeepsInv(g, t, u, Next(g, NotifyOne(t, woken)));
    }
  }

  lemma NotifyNobody(g: Gate, t: Tid)
    requires Inv(g) && t in g.pc && IsNotifying(g.pc[t]) && Where(g, IsWaiting) == {}
    ensures Inv(Move(g, t, Idle))
  {
    hide Where;
    Moved(g, t, Idle, Move(g, t, Idle));
  }

  lemma NotifyOneKeepsInv(g: Gate, t: Tid, u: Tid, next: Gate)
    requires Inv(g) && t in g.pc && IsNotifying(g.pc[t]) && WokenAs(g, t, u, next)
    ensures Inv(next)
  {
    hide Where;
    var idle := Move(g, t, Idle);
    Moved(g, t, Idle, idle);
    Moved(idle, u, Woken, next);
  }

  lemma OnlyOne(s: set<Tid>, u: Tid)
    requires u in s && |s| <= 1
    ensures s == {u}
  {
    assert |s - {u}| == |s| - 1;
  }

  // ---- over whole runs -------------------------------------------------------------

  lemma NobodyInside(g: Gate)
    requires Initial(g)
    ensures Inv(g)
  {
    assert Where(g, IsHolder) == {} && Where(g, IsInside) == {} && Where(g, IsWaiting) == {};
  }

  /** In every interleaving, in every state of the run. */
  lemma {:induction false} EveryStateSafe(gates: seq<Gate>, steps: seq<Step>, k: nat)
    requires Run(gates, steps) && k < |gates|
    ensures Inv(gates[k])
  {
    hide Inv, Next, Enabled;
    if k == 0 {
      NobodyInside(gates[0]);
    } else {
      EveryStateSafe(gates, steps, k - 1);
      StepKeepsInv(gates[k - 1], steps[k - 1]);
    }
  }

  /** No more than four child processes are alive at once. */
  lemma AtMostFourChildren(gates: seq<Gate>, steps: seq<Step>, k: nat)
    requires Run(gates, steps) && k < |gates|
    ensures |Where(gates[k], (p: Pc) => p == Probing)| <= 4
  {
    EveryStateSafe(gates, steps, k);
    Sets.SubsetIsSmaller(Where(gates[k], (p: Pc) => p == Probing), Where(gates[k], IsHolder));
  }

  /** No wakeup is lost: if a thread sleeps while a slot is free, some notification is still to
      be sent or some woken thread has yet to recheck the guard. */
  lemma SleeperWillBeServed(gates: seq<Gate>, steps: seq<Step>, k: nat)
    requires Run(gates, steps) && k < |gates|
    requires Where(gates[k], IsWaiting) != {} && gates[k].count < 4
    ensures exists t <- gates[k].pc :: IsNotifying(gates[k].pc[t]) || IsToRecheck(gates[k].pc[t])
  {
    var g := gates[k];
    EveryStateSafe(gates, steps, k);
    if Where(g, IsNotifying) != {} {
      var t :| t in Where(g, IsNotifying);
    } else {
      assert |Where(g, IsToRecheck)| > 0;
      var t :| t in Where(g, IsToRecheck);
    }
  }

  predicate AtRest(p: Pc) {
    p.Idle? || p.Waiting? || p.Permitted? || p.Probing?
  }

  /** Consequently, once every thread is outside, asleep, or at work under a permit, threads
      sleep only while all four permits are out. */
  lemma QuietGateHasNoIdleSleepers(gates: seq<Gate>, steps: seq<Step>, k: nat)
    requires Run(gates, steps) && k < |gates|
    requires forall t <- gates[k].pc :: AtRest(gates[k].pc[t])
    requires Where(gates[k], IsWaiting) != {}
    ensures |Where(gates[k], IsHolder)| == 4
  {
    if gates[k].count < MAX_CONCURRENT_PROBES {
      SleeperWillBeServed(gates, steps, k);
    }
    EveryStateSafe(gates, steps, k);
  }

  /** A thread between rest points always has a next step, or waits for the lock whose holder
      has a next step that frees it: nobody is stuck inside the gate. */
  lemma NobodyElseIsStuck(g: Gate, t: Tid)
    requires Inv(g) && t in g.pc && !AtRest(g.pc[t])
    ensures exists s :: Enabled(g, s) && (s.t == t || (s.t in g.owner && Next(g, s).owner == {}))
  {
    match g.pc[t]
    case Entering =>
      UnlockFirst(g, Lock(t));
    case Woken =>
      UnlockFirst(g, Lock(t));
    case Dropping =>
      UnlockFirst(g, LockToDrop(t));
    case Checking =>
      assert Enabled(g, Check(t));
    case Rechecking =>
      assert Enabled(g, Check(t));
    case Releasing =>
      assert Enabled(g, Decrement(t));
    case Notifying =>
      var woken := if w :| w in Where(g, IsWaiting) then {w} else {};
      assert Enabled(g, NotifyOne(t, woken));
    case _ =>
  }

  lemma UnlockFirst(g: Gate, wanted: Step)
    requires Inv(g) && (g.owner == {} ==> Enabled(g, wanted))
    ensures exists s :: Enabled(g, s) && (s.t == wanted.t || (s.t in g.owner && Next(g, s).owner == {}))
  {
    if g.owner != {} {
      var u :| u in g.owner;
      assert u in Where(g, IsInside);
      var s := if g.pc[u] == Releasing then Decrement(u) else Check(u);
      assert Enabled(g, s) && Next(g, s).owner == {};
    }
  }

  // ---- the way through -------------------------------------------------------------

  /** Where these steps lead, if each is enabled in turn. */
  function Leads(g: Gate, steps: seq<Step>): Option<Gate>
    decreases |steps|
  {
    if steps == [] then Some(g)
    else if Enabled(g, steps[0]) then Leads(Next(g, steps[0]), steps[1..])
    else None
  }

  lemma {:induction false} LeadsOn(g: Gate, some: seq<Step>, more: seq<Step>)
    requires Leads(g, some).Some?
    ensures Leads(g, some + more) == Leads(Leads(g, some).value, more)
    decreases |some|
  {
    if some == [] {
      assert some + more == more;
    } else {
      assert (some + more)[1..] == some[1..] + more;
      LeadsOn(Next(g, some[0]), some[1..], more);
    }
  }

  /** One step more. */
  lemma Then(g: Gate, some: seq<Step>, mid: Gate, s: Step, next: Gate)
    requires Leads(g, some) == Some(mid) && Enabled(mid, s) && Next(mid, s) == next
    ensures Leads(g, some + [s]) == Some(next)
  {
    hide Next, Enabled;
    LeadsOn(g, some, [s]);
    assert [s][1..] == [];
  }

  function Starting(t: Tid): seq<Step> {
    [] + [Enter(t)] + [Lock(t)] + [Check(t)] + [Spawn(t)]
  }

  /** With the lock free and fewer than four probes under way, a thread starts its child by steps of
      its own alone. */
  lemma StartsAlone(g: Gate, t: Tid)
    requires t in g.pc && g.pc[t] == Idle && g.owner == {} && g.count < 4
    ensures Leads(g, Starting(t)) == Some(Gate(g.count + 1, {}, g.pc[t := Probing]))
  {
    hide Leads;
    ReachesCheck(g, t);
    var s := [] + [Enter(t)] + [Lock(t)];
    var checking := Gate(g.count, {t}, g.pc[t := Checking]);
    var permitted := Gate(g.count + 1, {}, g.pc[t := Permitted]);
    assert checking.pc[t := Permitted] == permitted.pc && permitted.pc[t := Probing] == g.pc[t := Probing];
    Then(g, s, checking, Check(t), permitted);
    Then(g, s + [Check(t)], permitted, Spawn(t), Gate(g.count + 1, {}, g.pc[t := Probing]));
  }

  lemma ReachesCheck(g: Gate, t: Tid)
    requires t in g.pc && g.pc[t] == Idle && g.owner == {}
    ensures Leads(g, [] + [Enter(t)] + [Lock(t)]) == Some(Gate(g.count, {t}, g.pc[t := Checking]))
  {
    assert Leads(g, []) == Some(g);
    hide Leads;
    var entering := g.(pc := g.pc[t := Entering]);
    assert entering.pc[t := Checking] == g.pc[t := Checking];
    Then(g, [], g, Enter(t), entering);
    Then(g, [] + [Enter(t)], entering, Lock(t), Gate(g.count, {t}, g.pc[t := Checking]));
  }

  /** With four under way it goes to sleep, and lets go of the lock. */
  lemma WaitsWhenFull(g: Gate, t: Tid)
    requires t in g.pc && g.pc[t] == Idle && g.owner == {} && g.count >= 4
    ensures Leads(g, [] + [Enter(t)] + [Lock(t)] + [Check(t)]) == Some(Gate(g.count, {}, g.pc[t := Waiting]))
  {
    hide Leads;
    ReachesCheck(g, t);
    var checking := Gate(g.count, {t}, g.pc[t := Checking]);
    assert checking.pc[t := Waiting] == g.pc[t := Waiting];
    Then(g, [] + [Enter(t)] + [Lock(t)], checking, Check(t), Gate(g.count, {}, g.pc[t := Waiting]));
  }

  function Ending(t: Tid): seq<Step> {
    [] + [Reap(t)] + [Leave(t)] + [LockToDrop(t)] + [Decrement(t)]
  }

  /** A child that ends frees its slot, and its thread has one sleeper to wake. */
  lemma EndsAlone(g: Gate, t: Tid)
    requires t in g.pc && g.pc[t] == Probing && g.owner == {}
    ensures Leads(g, Ending(t)) == Some(Gate(g.count - 1, {}, g.pc[t := Notifying]))
  {
    assert Leads(g, []) == Some(g);
    hide Leads;
    var permitted, dropping := g.(pc := g.pc[t := Permitted]), g.(pc := g.pc[t := Dropping]);
    var releasing := Gate(g.count, {t}, g.pc[t := Releasing]);
    assert permitted.pc[t := Dropping] == dropping.pc && dropping.pc[t := Releasing] == releasing.pc;
    assert releasing.pc[t := Notifying] == g.pc[t := Notifying];
    Then(g, [], g, Reap(t), permitted);
    Then(g, [] + [Reap(t)], permitted, Leave(t), dropping);
    Then(g, [] + [Reap(t)] + [Leave(t)], dropping, LockToDrop(t), releasing);
    Then(g, [] + [Reap(t)] + [Leave(t)] + [LockToDrop(t)], releasing, Decrement(t),
         Gate(g.count - 1, {}, g.pc[t := Notifying]));
  }

  lemma WakesOne(g: Gate, t: Tid, w: Tid)
    requires t in g.pc && g.pc[t] == Probing && w in g.pc && g.pc[w] == Waiting && g.owner == {}
    ensures Leads(g, Ending(t) + [NotifyOne(t, {w})]) == Some(Gate(g.count - 1, {}, g.pc[t := Idle][w := Woken]))
  {
    hide Leads, Ending;
    var notifying := Gate(g.count - 1, {}, g.pc[t := Notifying]);
    var woken := Gate(g.count - 1, {}, g.pc[t := Idle][w := Woken]);
    assert w in Where(notifying, IsWaiting);
    assert Enabled(notifying, NotifyOne(t, {w}));
    assert Next(notifying, NotifyOne(t, {w})).pc == woken.pc;
    EndsAlone(g, t);
    Then(g, Ending(t), notifying, NotifyOne(t, {w}), woken);
  }

  /** With one probe's end, a sleeper gets to start its own child: four are under way again. */
  lemma HandsOver(g: Gate, t: Tid, w: Tid)
    requires t in g.pc && g.pc[t] == Probing && w in g.pc && g.pc[w] == Waiting && g.owner == {} && g.count == 4
    ensures Leads(g, Ending(t) + [NotifyOne(t, {w})] + [Lock(w)] + [Check(w)] + [Spawn(w)])
      == Some(Gate(4, {}, g.pc[t := Idle][w := Probing]))
  {
    hide Leads, Ending;
    var s := Ending(t) + [NotifyOne(t, {w})];
    var pc := g.pc[t := Idle];
    var woken, again := Gate(3, {}, pc[w := Woken]), Gate(3, {w}, pc[w := Rechecking]);
    var permitted := Gate(4, {}, pc[w := Permitted]);
    assert woken.pc[w := Rechecking] == again.pc && again.pc[w := Permitted] == permitted.pc;
    assert permitted.pc[w := Probing] == pc[w := Probing];
    WakesOne(g, t, w);
    Then(g, s, woken, Lock(w), again);
    Then(g, s + [Lock(w)], again, Check(w), permitted);
    Then(g, s + [Lock(w)] + [Check(w)], permitted, Spawn(w), Gate(4, {}, pc[w := Probing]));
  }
}
