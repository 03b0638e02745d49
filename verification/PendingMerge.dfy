/** Merges that wait for a human: the table, and any number of `GoalMergeResolve` handlers
    working on it one statement at a time. */
module PendingMerge {
  import opened Text
  import Runs

  datatype Status = Pending | Confirmed | Rejected

  datatype Merge = Merge(
    goal: string, session: string, reviewNode: string, depNode: string, branch: string,
    status: Status, createdAt: nat, resolvedAt: Option<nat>)

  datatype Table = Table(rows: map<nat, Merge>, nextId: nat)

  datatype Error = NoSuchMerge

  function StatusFor(allow: bool): Status {
    if allow then Confirmed else Rejected
  }

  predicate IsPending(table: Table, id: nat) {
    id in table.rows && table.rows[id].status.Pending?
  }

  function Insert(table: Table, merge: Merge): Table {
    Table(table.rows[table.nextId := merge.(status := Pending, resolvedAt := None)], table.nextId + 1)
  }

  /** `UPDATE … WHERE id = ? AND status = 'pending'` */
  function Mark(table: Table, id: nat, allow: bool, now: nat): Table {
    if IsPending(table, id)
    then table.(rows := table.rows[id := table.rows[id].(status := StatusFor(allow), resolvedAt := Some(now))])
    else table
  }

  class PendingMerges {
    var rows: map<nat, Merge>
    var nextId: nat

    function State(): Table
      reads this
    {
      Table(rows, nextId)
    }

    predicate Valid()
      reads this
    {
      forall id <- rows :: id < nextId
    }

    constructor ()
      ensures Valid() && State() == Table(map[], 1)
    {
      rows, nextId := map[], 1;
    }

    method Request(goal: string, session: string, reviewNode: string, depNode: string, branch: string, now: nat)
      returns (id: nat)
      requires Valid()
      modifies this
      ensures Valid() && id !in old(rows)
      ensures id == old(nextId)
      ensures State() == Insert(old(State()), Merge(goal, session, reviewNode, depNode, branch, Pending, now, None))
    {
      id := nextId;
      rows := rows[id := Merge(goal, session, reviewNode, depNode, branch, Pending, now, None)];
      nextId := nextId + 1;
    }

    method Get(id: nat) returns (row: Option<Merge>)
      ensures row == if id in rows then Some(rows[id]) else None
    {
      row := if id in rows then Some(rows[id]) else None;
    }

    /** The first answer is recorded; a later one changes nothing and is told the first. */
    method Resolve(id: nat, allow: bool, now: nat) returns (r: Result<Merge, Error>)
      requires Valid()
      modifies this
      ensures Valid() && State() == Mark(old(State()), id, allow, now)
      ensures id !in old(rows) ==> r == Err(NoSuchMerge)
      ensures id in old(rows) ==> id in rows && r == Ok(rows[id]) && !r.value.status.Pending?
      ensures id in old(rows) && !old(rows)[id].status.Pending? ==> r == Ok(old(rows)[id]) && State() == old(State())
    {
      if id in rows && rows[id].status == Pending {
        rows := rows[id := rows[id].(status := if allow then Confirmed else Rejected, resolvedAt := Some(now))];
      }
      var row := Get(id);
      r := match row case Some(merge) => Ok(merge) case None => Err(NoSuchMerge);
    }

    /** Each pending row once, oldest first. */
    method ListPending() returns (ids: seq<nat>)
      requires Valid()
      ensures forall id :: id in ids <==> IsPending(State(), id)
      ensures ByAge(rows, ids)
    {
      ids := [];
      for id := 0 to nextId
        invariant forall other: nat :: other in ids <==> IsPending(State(), other) && other < id
        invariant ByAge(rows, ids)
      {
        if id in rows && rows[id].status == Pending {
          ids := InsertByAge(rows, ids, id);
        }
      }
    }
  }

  /** No row twice, and none before an older one. */
  predicate ByAge(rows: map<nat, Merge>, ids: seq<nat>) {
    && AllOnRecord(rows, ids)
    && (forall i, j :: 0 <= i < j < |ids| ==> ids[i] != ids[j] && rows[ids[i]].createdAt <= rows[ids[j]].createdAt)
  }

  method InsertByAge(rows: map<nat, Merge>, ids: seq<nat>, id: nat) returns (more: seq<nat>)
    requires ByAge(rows, ids) && id in rows && id !in ids
    ensures ByAge(rows, more)
    ensures forall other: nat :: other in more <==> other in ids || other == id
  {
    hide ByAge;
    assert AllOnRecord(rows, ids) by {
      OnRecord(rows, ids);
    }
    var at: nat := |ids|;
    while at > 0 && rows[ids[at - 1]].createdAt > rows[id].createdAt
      invariant 0 <= at <= |ids|
      invariant at < |ids| ==> rows[id].createdAt <= rows[ids[at]].createdAt
    {
      at := at - 1;
    }
    var older, newer := ids[..at], ids[at..];
    assert ids == older + newer;
    InsertKeepsAge(rows, older, id, newer);
    more := older + [id] + newer;
  }

  predicate AllOnRecord(rows: map<nat, Merge>, ids: seq<nat>) {
    forall i :: 0 <= i < |ids| ==> ids[i] in rows
  }

  lemma OnRecord(rows: map<nat, Merge>, ids: seq<nat>)
    requires ByAge(rows, ids)
    ensures AllOnRecord(rows, ids)
  {
  }

  lemma InsertKeepsAge(rows: map<nat, Merge>, older: seq<nat>, id: nat, newer: seq<nat>)
    requires ByAge(rows, older + newer) && id in rows && id !in older + newer
    requires older != [] ==> older[|older| - 1] in rows && rows[older[|older| - 1]].createdAt <= rows[id].createdAt
    requires newer != [] ==> newer[0] in rows && rows[id].createdAt <= rows[newer[0]].createdAt
    ensures ByAge(rows, older + [id] + newer)
  {
    var ids, more, at := older + newer, older + [id] + newer, |older|;
    forall i | 0 <= i < |more| ensures more[i] in rows {
      assert i != at ==> more[i] == ids[if i < at then i else i - 1];
    }
    forall i, j | 0 <= i < j < |more|
      ensures more[i] != more[j] && rows[more[i]].createdAt <= rows[more[j]].createdAt
    {
      assert i != at ==> more[i] == ids[if i < at then i else i - 1];
      assert j != at ==> more[j] == ids[if j < at then j else j - 1];
      if i == at {
        assert newer[0] == ids[at];
      } else if j == at {
        assert older[at - 1] == ids[at - 1];
      }
    }
  }

  // ---- interleaved handlers --------------------------------------------------------

  /** Where a handler is: the row exists; the UPDATE ran; the row was read back and returned. */
  datatype Pc =
    | Fetched(id: nat, allow: bool)
    | Marked(id: nat, allow: bool)
    | Returned(id: nat, allow: bool, row: Merge)

  datatype System = System(table: Table, handlers: map<nat, Pc>, merged: seq<nat>)

  datatype Step =
    | RequestMerge(merge: Merge)
    | Fetch(h: nat, id: nat, allow: bool)
    | Update(h: nat, now: nat)
    | ReadBack(h: nat)
    | Finish(h: nat)             // merges the branch when the call says allow

  predicate Enabled(sys: System, step: Step) {
    match step
    case RequestMerge(_) => true
    case Fetch(h, id, _) => h !in sys.handlers && id in sys.table.rows
    case Update(h, _) => h in sys.handlers && sys.handlers[h].Fetched?
    case ReadBack(h) => h in sys.handlers && sys.handlers[h].Marked? && sys.handlers[h].id in sys.table.rows
    case Finish(h) => h in sys.handlers && sys.handlers[h].Returned?
  }

  function Next(sys: System, step: Step): System
    requires Enabled(sys, step)
  {
    match step
    case RequestMerge(merge) => sys.(table := Insert(sys.table, merge))
    case Fetch(h, id, allow) => sys.(handlers := sys.handlers[h := Fetched(id, allow)])
    case Update(h, now) =>
      var pc := sys.handlers[h];
      sys.(table := Mark(sys.table, pc.id, pc.allow, now), handlers := sys.handlers[h := Marked(pc.id, pc.allow)])
    case ReadBack(h) =>
      var pc := sys.handlers[h];
      sys.(handlers := sys.handlers[h := Returned(pc.id, pc.allow, sys.table.rows[pc.id])])
    case Finish(h) =>
      var pc := sys.handlers[h];
      sys.(handlers := sys.handlers - {h}, merged := if pc.allow then sys.merged + [pc.id] else sys.merged)
  }

  predicate Moves(sys: System, step: Step, next: System) {
    Enabled(sys, step) && next == Next(sys, step)
  }

  ghost predicate Run(states: seq<System>, steps: seq<Step>) {
    && Runs.Joined(Moves, states, steps)
    && (forall id <- states[0].table.rows :: id < states[0].table.nextId)
    && states[0].handlers == map[]
  }

  predicate Decided(sys: System, id: nat) {
    id in sys.table.rows && !sys.table.rows[id].status.Pending?
  }

  /** Ids on record are below the next; every handler's row exists; it is decided once the
      handler ran its UPDATE, and what a handler was returned is what the row still says. */
  ghost predicate Inv(sys: System) {
    && (forall id <- sys.table.rows :: id < sys.table.nextId)
    && (forall h <- sys.handlers :: var pc := sys.handlers[h];
          && pc.id in sys.table.rows
          && (!pc.Fetched? ==> Decided(sys, pc.id))
          && (pc.Returned? ==> pc.row == sys.table.rows[pc.id]))
  }

  lemma StepKeepsInv(sys: System, step: Step)
    requires Inv(sys) && Enabled(sys, step)
    ensures Inv(Next(sys, step))
    ensures forall id :: Decided(sys, id) ==>
        id in Next(sys, step).table.rows && Next(sys, step).table.rows[id] == sys.table.rows[id]
  {
  }

  lemma {:induction false} EveryState(states: seq<System>, steps: seq<Step>, k: nat)
    requires Run(states, steps) && k < |states|
    ensures Inv(states[k])
  {
    if k > 0 {
      EveryState(states, steps, k - 1);
      assert Moves(states[k - 1], steps[k - 1], states[k]);
      StepKeepsInv(states[k - 1], steps[k - 1]);
    }
  }

  /** A decided row, its time of decision included, never changes again: it leaves `pending` at
      most once and the first decision stands. */
  lemma {:induction false} FirstDecisionStands(states: seq<System>, steps: seq<Step>, id: nat, i: nat, k: nat)
    requires Run(states, steps) && i <= k < |states| && Decided(states[i], id)
    ensures Decided(states[k], id) && states[k].table.rows[id] == states[i].table.rows[id]
  {
    if i < k {
      FirstDecisionStands(states, steps, id, i, k - 1);
      EveryState(states, steps, k - 1);
      assert Moves(states[k - 1], steps[k - 1], states[k]);
      StepKeepsInv(states[k - 1], steps[k - 1]);
    }
  }

  /** The first UPDATE of row `id` in the run is step `u`. */
  ghost predicate FirstUpdate(states: seq<System>, steps: seq<Step>, id: nat, u: nat)
    requires |states| == |steps| + 1
  {
    && u < |steps| && Updates(states[u], steps[u], id)
    && forall j :: 0 <= j < u ==> !Updates(states[j], steps[j], id)
  }

  predicate Updates(sys: System, step: Step, id: nat) {
    step.Update? && step.h in sys.handlers && sys.handlers[step.h].Fetched? && sys.handlers[step.h].id == id
  }

  lemma {:induction false} PendingUntilFirstUpdate(states: seq<System>, steps: seq<Step>, id: nat, k: nat)
    requires Run(states, steps) && k < |states| && !Decided(states[0], id)
    requires forall j :: 0 <= j < k ==> !Updates(states[j], steps[j], id)
    ensures !Decided(states[k], id)
  {
    if k > 0 {
      PendingUntilFirstUpdate(states, steps, id, k - 1);
      assert Moves(states[k - 1], steps[k - 1], states[k]);
    }
  }

  /** In every interleaving, whatever handler reads row `id` back is returned the decision of the
      first handler to update it. */
  lemma EveryCallerGetsTheFirst(states: seq<System>, steps: seq<Step>, id: nat, u: nat, k: nat, h: nat)
    requires Run(states, steps) && !Decided(states[0], id) && FirstUpdate(states, steps, id, u)
    requires k < |states| && h in states[k].handlers && states[k].handlers[h].Returned?
        && states[k].handlers[h].id == id
    ensures u < k
    ensures states[k].handlers[h].row.status == StatusFor(states[u].handlers[steps[u].h].allow)
    ensures states[k].handlers[h].row.resolvedAt == Some(steps[u].now)
  {
    EveryState(states, steps, k);
    if k <= u {
      PendingUntilFirstUpdate(states, steps, id, k);
    } else {
      PendingUntilFirstUpdate(states, steps, id, u);
      EveryState(states, steps, u);
      assert Moves(states[u], steps[u], states[u + 1]);
      FirstDecisionStands(states, steps, id, u + 1, k);
    }
  }

  /** The handler merges whenever its own call says allow. Step `k` merges a row that was
      rejected exactly when the first update of that row, by another handler, rejected it. */
  lemma MergesRejectedRowExactly(states: seq<System>, steps: seq<Step>, id: nat, u: nat, k: nat)
    requires Run(states, steps) && !Decided(states[0], id) && FirstUpdate(states, steps, id, u)
    requires k < |steps| && steps[k].Finish? && steps[k].h in states[k].handlers
        && states[k].handlers[steps[k].h].id == id
    ensures var pc := states[k].handlers[steps[k].h];
      && states[k + 1].merged == (if pc.allow then states[k].merged + [id] else states[k].merged)
      && id in states[k + 1].table.rows
      && (pc.allow && states[k + 1].table.rows[id].status.Rejected?
          <==> pc.allow && !states[u].handlers[steps[u].h].allow)
      && (pc.allow && states[k + 1].table.rows[id].status.Rejected? <==> pc.allow && pc.row.status.Rejected?)
  {
    assert Moves(states[k], steps[k], states[k + 1]);
    EveryCallerGetsTheFirst(states, steps, id, u, k, steps[k].h);
    EveryState(states, steps, k);
    EveryState(states, steps, k + 1);
  }

  /** A merge is requested as row 1, and a handler rejects it. */
  lemma RejectFirst(merge: Merge) returns (states: seq<System>, steps: seq<Step>, row: Merge)
    ensures Run(states, steps) && |steps| > 0 && row.status == Rejected
    ensures states[|steps|] == System(Table(map[1 := row], 2), map[], [])
  {
    var sys := System(Table(map[], 1), map[], []);
    states, steps := [sys], [];
    row := merge.(status := Pending, resolvedAt := None);
    sys := sys.(table := Table(map[1 := row], 2));
    states, steps := Runs.Extend(Moves, states, steps, RequestMerge(merge), sys);
    sys := sys.(handlers := map[0 := Fetched(1, false)]);
    states, steps := Runs.Extend(Moves, states, steps, Fetch(0, 1, false), sys);
    row := row.(status := Rejected, resolvedAt := Some(7));
    sys := System(Table(map[1 := row], 2), map[0 := Marked(1, false)], []);
    states, steps := Runs.Extend(Moves, states, steps, Update(0, 7), sys);
    sys := sys.(handlers := map[0 := Returned(1, false, row)]);
    states, steps := Runs.Extend(Moves, states, steps, ReadBack(0), sys);
    sys := sys.(handlers := map[]);
    states, steps := Runs.Extend(Moves, states, steps, Finish(0), sys);
  }

  /** One call rejects a merge, a later call confirms it: the row stays rejected and the branch
      is merged all the same. */
  lemma RejectedYetMerged(merge: Merge) returns (states: seq<System>, steps: seq<Step>)
    ensures Run(states, steps) && |steps| > 0
    ensures states[|steps|].merged == [1]
    ensures 1 in states[|steps|].table.rows && states[|steps|].table.rows[1].status == Rejected
  {
    var row;
    states, steps, row := RejectFirst(merge);
    var sys := states[|steps|];
    sys := sys.(handlers := map[0 := Fetched(1, true)]);
    states, steps := Runs.Extend(Moves, states, steps, Fetch(0, 1, true), sys);
    sys := sys.(handlers := map[0 := Marked(1, true)]);
    states, steps := Runs.Extend(Moves, states, steps, Update(0, 9), sys);
    sys := sys.(handlers := map[0 := Returned(1, true, row)]);
    states, steps := Runs.Extend(Moves, states, steps, ReadBack(0), sys);
    sys := sys.(handlers := map[], merged := [1]);
    states, steps := Runs.Extend(Moves, states, steps, Finish(0), sys);
  }
}
