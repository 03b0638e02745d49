/** The pre-tool-use hook: any number of hook calls, `approval resolve` commands and learners run
    against one database, one statement at a time. A hook call lets its tool call through or
    denies it; a `resolve` is a check and an update, two separate statements. */
module ApprovalHook {
  import opened Text
  import opened Permissions
  import opened Preferences
  import Runs

  datatype HookPc =
    | Unlisted(resource: string)         // the static rules say `Ask`
    | Unknown(resource: string)          // and nothing confident is learned
    | Polling(id: nat)                   // own approval row recorded
    | Done(permit: bool)

  datatype ResolverPc =
    | Checked(id: nat, resource: string, allow: bool, remember: bool)
    | Updated(resource: string, allow: bool)

  datatype System = System(db: Db, hooks: map<nat, HookPc>, resolvers: map<nat, ResolverPc>)

  datatype Step =
    | Start(h: nat, resource: string, rules: seq<Rule<Decision>>)
    | LookUpLearned(h: nat)
    | RequestRow(h: nat)
    | Poll(h: nat, expired: bool)
    | CheckRow(r: nat, id: nat, allow: bool, remember: bool)
    | UpdateRow(r: nat)
    | Remember(r: nat)
    | LearnElsewhere(pattern: string, decision: Decision, confidence: real)
    | DeleteRow(id: nat)

  predicate Enabled(sys: System, step: Step) {
    match step
    case Start(h, _, _) => h !in sys.hooks
    case LookUpLearned(h) => h in sys.hooks && sys.hooks[h].Unlisted?
    case RequestRow(h) => h in sys.hooks && sys.hooks[h].Unknown?
    case Poll(h, _) => h in sys.hooks && sys.hooks[h].Polling?
    case CheckRow(r, _, _, _) => r !in sys.resolvers
    case UpdateRow(r) => r in sys.resolvers && sys.resolvers[r].Checked?
    case Remember(r) => r in sys.resolvers && sys.resolvers[r].Updated?
    case LearnElsewhere(_, _, _) => true
    case DeleteRow(_) => true
  }

  function AfterRules(rules: seq<Rule<Decision>>, resource: string): HookPc {
    match Evaluate(rules, resource)
    case Allow => Done(true)
    case Deny => Done(false)
    case Ask => Unlisted(resource)
  }

  function AfterLookup(learned: map<string, Learned>, resource: string): HookPc {
    match Known(learned, resource, MIN_AUTO_APPLY_CONFIDENCE)
    case Some(Learned(Allow, _)) => Done(true)
    case Some(Learned(Deny, _)) => Done(false)
    case _ => Unknown(resource)
  }

  /** One round of `wait_for_approval`. */
  function AfterPoll(db: Db, id: nat, expired: bool): HookPc {
    if id !in db.approvals then Done(false)
    else
      match db.approvals[id].status
      case Allowed => Done(true)
      case Denied => Done(false)
      case Pending => if expired then Done(false) else Polling(id)
  }

  function SetStatus(db: Db, id: nat, status: Status): Db {
    if id in db.approvals then db.(approvals := db.approvals[id := db.approvals[id].(status := status)]) else db
  }

  function Next(sys: System, step: Step): System
    requires Enabled(sys, step)
  {
    match step
    case Start(h, resource, rules) => sys.(hooks := sys.hooks[h := AfterRules(rules, resource)])
    case LookUpLearned(h) => sys.(hooks := sys.hooks[h := AfterLookup(sys.db.learned, sys.hooks[h].resource)])
    case RequestRow(h) =>
      sys.(db := Request(sys.db, sys.hooks[h].resource, Some("claude PreToolUse hook")),
           hooks := sys.hooks[h := Polling(sys.db.nextId)])
    case Poll(h, expired) => sys.(hooks := sys.hooks[h := AfterPoll(sys.db, sys.hooks[h].id, expired)])
    case CheckRow(r, id, allow, remember) =>
      if id in sys.db.approvals && sys.db.approvals[id].status.Pending?
      then sys.(resolvers := sys.resolvers[r := Checked(id, sys.db.approvals[id].resource, allow, remember)])
      else sys
    case UpdateRow(r) =>
      var pc := sys.resolvers[r];
      System(SetStatus(sys.db, pc.id, StatusFor(pc.allow)), sys.hooks,
        if pc.remember then sys.resolvers[r := Updated(pc.resource, pc.allow)] else sys.resolvers - {r})
    case Remember(r) =>
      var pc := sys.resolvers[r];
      System(Learn(sys.db, pc.resource, DecisionFor(pc.allow), 1.0), sys.hooks, sys.resolvers - {r})
    case LearnElsewhere(pattern, decision, confidence) => sys.(db := Learn(sys.db, pattern, decision, confidence))
    case DeleteRow(id) => sys.(db := sys.db.(approvals := sys.db.approvals - {id}))
  }

  predicate Moves(sys: System, step: Step, next: System) {
    Enabled(sys, step) && next == Next(sys, step)
  }

  ghost predicate RunFrom(states: seq<System>, steps: seq<Step>) {
    Runs.Joined(Moves, states, steps)
  }

  /** A run that begins with no command under way, over any contents of the tables. */
  ghost predicate Run(states: seq<System>, steps: seq<Step>) {
    RunFrom(states, steps) && FreshIds(states[0].db) && states[0].hooks == map[] && states[0].resolvers == map[]
  }

  // ---- why a hook call let its tool call through -----------------------------------

  ghost predicate StartsAt(steps: seq<Step>, h: nat, resource: string, rules: seq<Rule<Decision>>, s: nat) {
    s < |steps| && steps[s] == Start(h, resource, rules)
  }

  /** Between `s` and `k` the call looked up what is learned and found a confident `Allow`. */
  ghost predicate LearnedAllows(states: seq<System>, steps: seq<Step>, h: nat, resource: string, s: nat, k: nat)
    requires |states| == |steps| + 1 && k < |states|
  {
    exists l :: s < l < k && steps[l] == LookUpLearned(h) && LearnedSays(states[l].db.learned, resource, Allow)
  }

  /** A resolver checked row `id`, found it pending, and later wrote this answer to it. */
  ghost predicate ResolvedAt(states: seq<System>, steps: seq<Step>, id: nat, allow: bool, c: nat, u: nat)
    requires |states| == |steps| + 1
  {
    && c < u < |steps| && steps[c].CheckRow? && steps[c].id == id && steps[c].allow == allow
    && steps[u] == UpdateRow(steps[c].r)
    && id in states[c].db.approvals && states[c].db.approvals[id].status.Pending?
  }

  /** Between `s` and `k` the call recorded a new row for its resource, and after that someone
      resolved that very row with allow. */
  ghost predicate OwnRowAllowed(states: seq<System>, steps: seq<Step>, h: nat, resource: string, s: nat, k: nat)
    requires |states| == |steps| + 1 && k < |states|
  {
    exists q, c, u :: s < q < c < u < k && steps[q] == RequestRow(h)
      && states[q].db.nextId !in states[q].db.approvals
      && states[q + 1].db.approvals
           == states[q].db.approvals[states[q].db.nextId := Approval(resource, Some("claude PreToolUse hook"), Pending)]
      && ResolvedAt(states, steps, states[q].db.nextId, true, c, u)
  }

  lemma StepFacts(sys: System, step: Step)
    requires Enabled(sys, step)
    ensures FreshIds(sys.db) ==> FreshIds(Next(sys, step).db)
    ensures sys.db.nextId <= Next(sys, step).db.nextId
    ensures sys.hooks.Keys <= Next(sys, step).hooks.Keys
  {
  }

  lemma {:induction false} Later(states: seq<System>, steps: seq<Step>, i: nat, k: nat)
    requires RunFrom(states, steps) && i <= k < |states|
    ensures FreshIds(states[i].db) ==> FreshIds(states[k].db)
    ensures states[i].db.nextId <= states[k].db.nextId
    ensures states[i].hooks.Keys <= states[k].hooks.Keys
  {
    if i < k {
      Later(states, steps, i, k - 1);
      assert Moves(states[k - 1], steps[k - 1], states[k]);
      StepFacts(states[k - 1], steps[k - 1]);
    }
  }

  lemma {:induction false} CheckedBecause(states: seq<System>, steps: seq<Step>, r: nat, k: nat) returns (c: nat)
    requires Run(states, steps) && k < |states|
    requires r in states[k].resolvers && states[k].resolvers[r].Checked?
    ensures var pc := states[k].resolvers[r];
      && c < k && steps[c] == CheckRow(r, pc.id, pc.allow, pc.remember)
      && pc.id in states[c].db.approvals && states[c].db.approvals[pc.id].status.Pending?
  {
    assert k > 0;
    assert Moves(states[k - 1], steps[k - 1], states[k]);
    if r in states[k - 1].resolvers && states[k - 1].resolvers[r] == states[k].resolvers[r] {
      c := CheckedBecause(states, steps, r, k - 1);
    } else {
      c := k - 1;
    }
  }

  /** A row recorded at `q` and allowed later was checked and updated in between. */
  lemma {:induction false} AllowedBecause(states: seq<System>, steps: seq<Step>, id: nat, q: nat, k: nat)
    returns (c: nat, u: nat)
    requires Run(states, steps) && q < k < |states| && states[q].db.nextId == id && steps[q].RequestRow?
    requires id in states[k].db.approvals && states[k].db.approvals[id].status.Allowed?
    ensures q < c < u < k && ResolvedAt(states, steps, id, true, c, u)
  {
    assert Moves(states[k - 1], steps[k - 1], states[k]);
    if k - 1 > q && id in states[k - 1].db.approvals && states[k - 1].db.approvals[id].status.Allowed? {
      c, u := AllowedBecause(states, steps, id, q, k - 1);
    } else {
      Later(states, steps, 0, k - 1);
      Later(states, steps, q, k - 1);
      u := k - 1;
      c := CheckedBecause(states, steps, steps[u].r, u);
      Later(states, steps, 0, c);
      if c <= q {
        Later(states, steps, c, q);
      }
      assert c != q;
    }
  }

  /** A call starts once. */
  lemma OneStart(states: seq<System>, steps: seq<Step>, h: nat, s: nat, t: nat)
    requires RunFrom(states, steps) && s < t < |steps| && steps[s].Start? && steps[s].h == h
    ensures !(steps[t].Start? && steps[t].h == h)
  {
    assert Moves(states[s], steps[s], states[s + 1]) && Moves(states[t], steps[t], states[t + 1]);
    Later(states, steps, s + 1, t);
  }

  /** Where call `h`, started at `s`, can be at state `k`, and what brought it there. */
  ghost predicate Story(states: seq<System>, steps: seq<Step>, h: nat, resource: string, rules: seq<Rule<Decision>>,
                        s: nat, k: nat)
    requires |states| == |steps| + 1 && k < |states|
  {
    h in states[k].hooks &&
    match states[k].hooks[h]
    case Unlisted(res) => Evaluate(rules, resource) == Ask && res == resource
    case Unknown(res) => Evaluate(rules, resource) == Ask && res == resource
    case Polling(id) =>
      Evaluate(rules, resource) == Ask && exists q :: Requested(states, steps, h, resource, id, s, q, k)
    case Done(permit) => permit ==>
      || Evaluate(rules, resource) == Allow
      || (Evaluate(rules, resource) == Ask && LearnedAllows(states, steps, h, resource, s, k))
      || (Evaluate(rules, resource) == Ask && OwnRowAllowed(states, steps, h, resource, s, k))
  }

  ghost predicate Requested(states: seq<System>, steps: seq<Step>, h: nat, resource: string, id: nat, s: nat, q: nat,
                            k: nat)
    requires |states| == |steps| + 1 && k < |states|
  {
    && s < q < k && steps[q] == RequestRow(h) && states[q].db.nextId == id && id !in states[q].db.approvals
    && states[q + 1].db.approvals
         == states[q].db.approvals[id := Approval(resource, Some("claude PreToolUse hook"), Pending)]
  }

  lemma {:induction false} StoryHolds(states: seq<System>, steps: seq<Step>, h: nat, resource: string,
                                      rules: seq<Rule<Decision>>, s: nat, k: nat)
    requires Run(states, steps) && StartsAt(steps, h, resource, rules, s) && s < k < |states|
    ensures Story(states, steps, h, resource, rules, s, k)
  {
    hide FreshIds, Evaluate, Known;
    var j := k - 1;
    assert Moves(states[j], steps[j], states[k]);
    if s < j {
      StoryHolds(states, steps, h, resource, rules, s, j);
      OneStart(states, steps, h, s, j);
      if steps[j] == RequestRow(h) {
        Later(states, steps, 0, j);
        NextIdIsFree(states[j].db);
        assert Requested(states, steps, h, resource, states[j].db.nextId, s, j, k);
      } else if steps[j].Poll? && steps[j].h == h {
        var id := states[j].hooks[h].id;
        var q :| Requested(states, steps, h, resource, id, s, q, j);
        assert Requested(states, steps, h, resource, id, s, q, k);
        if states[k].hooks[h] == Done(true) {
          var c, u := AllowedBecause(states, steps, id, q, j);
          assert OwnRowAllowed(states, steps, h, resource, s, k);
        }
      } else if steps[j] == LookUpLearned(h) {
        if states[k].hooks[h] == Done(true) {
          var known := Known(states[j].db.learned, resource, MIN_AUTO_APPLY_CONFIDENCE).value;
          assert known == Learned(Allow, known.confidence);
          KnownSays(states[j].db.learned, resource, Allow);
          assert LearnedAllows(states, steps, h, resource, s, k);
        }
      } else {
        SameStory(states, steps, h, resource, rules, s, j);
      }
    }
  }

  lemma NextIdIsFree(db: Db)
    requires FreshIds(db)
    ensures db.nextId !in db.approvals
  {
  }

  lemma SameStory(states: seq<System>, steps: seq<Step>, h: nat, resource: string, rules: seq<Rule<Decision>>, s: nat,
                  j: nat)
    requires |states| == |steps| + 1 && j + 1 < |states| && Story(states, steps, h, resource, rules, s, j)
    requires h in states[j + 1].hooks && states[j + 1].hooks[h] == states[j].hooks[h]
    ensures Story(states, steps, h, resource, rules, s, j + 1)
  {
    var pc := states[j].hooks[h];
    if pc.Polling? {
      var q :| Requested(states, steps, h, resource, pc.id, s, q, j);
      assert Requested(states, steps, h, resource, pc.id, s, q, j + 1);
    }
  }

  /** In every run, a hook call lets its tool call through only if the winning static rule allows
      it, or the static rules ask and either the longest learned pattern of confidence 0.8
      or more allowed it when the call looked, or the very row this call recorded for its
      resource was, after that, resolved with allow. */
  lemma PermitsOnlyIf(states: seq<System>, steps: seq<Step>, h: nat, resource: string, rules: seq<Rule<Decision>>,
                      s: nat, k: nat)
    requires Run(states, steps) && StartsAt(steps, h, resource, rules, s) && s < k < |states|
    requires h in states[k].hooks && states[k].hooks[h] == Done(true)
    ensures
      || RulesSay(rules, resource, Allow)
      || (!RulesSay(rules, resource, Deny)
          && (LearnedAllows(states, steps, h, resource, s, k) || OwnRowAllowed(states, steps, h, resource, s, k)))
  {
    StoryHolds(states, steps, h, resource, rules, s, k);
    EvaluateExactly(rules, resource);
  }

  lemma {:induction false} GoneStays(states: seq<System>, steps: seq<Step>, id: nat, i: nat, k: nat)
    requires RunFrom(states, steps) && i <= k < |states| && id < states[i].db.nextId && id !in states[i].db.approvals
    ensures id < states[k].db.nextId && id !in states[k].db.approvals
  {
    if i < k {
      GoneStays(states, steps, id, i, k - 1);
      assert Moves(states[k - 1], steps[k - 1], states[k]);
    }
  }

  /** In every run, once a call's row is deleted, the call's next poll denies, whoever resolves or
      records what in between: the id is not given out again. */
  lemma DeletedRowDenies(states: seq<System>, steps: seq<Step>, id: nat, m: nat, p: nat)
    requires Run(states, steps) && m < p < |steps| && steps[m] == DeleteRow(id) && id in states[m].db.approvals
    requires steps[p].Poll? && steps[p].h in states[p].hooks && states[p].hooks[steps[p].h] == Polling(id)
    ensures steps[p].h in states[p + 1].hooks && states[p + 1].hooks[steps[p].h] == Done(false)
  {
    Later(states, steps, 0, m);
    assert Moves(states[m], steps[m], states[m + 1]) && Moves(states[p], steps[p], states[p + 1]);
    GoneStays(states, steps, id, m + 1, p);
  }

  // ---- exactly when a hook call ends, and how --------------------------------------

  /** The step ends call `h` with this verdict: it looks up what is learned and finds it, or it
      polls its row and finds it so decided; a poll also denies where the row is gone, or is
      still pending at the deadline. */
  ghost predicate EndsAt(sys: System, step: Step, h: nat, resource: string, permit: bool) {
    || (step == LookUpLearned(h) && LearnedSays(sys.db.learned, resource, if permit then Allow else Deny))
    || (step.Poll? && step.h == h && h in sys.hooks && sys.hooks[h].Polling?
        && PollSays(sys.db, sys.hooks[h].id, step.expired, permit))
  }

  predicate PollSays(db: Db, id: nat, expired: bool, permit: bool) {
    if permit then id in db.approvals && db.approvals[id].status == Allowed
    else id !in db.approvals || db.approvals[id].status == Denied || (db.approvals[id].status == Pending && expired)
  }

  ghost predicate EndedBy(states: seq<System>, steps: seq<Step>, h: nat, resource: string, s: nat, k: nat, permit: bool)
    requires |states| == |steps| + 1 && k < |states|
  {
    exists m :: s < m < k && EndsAt(states[m], steps[m], h, resource, permit)
  }

  /** One step of a run ends an open call exactly so. */
  lemma StepEnds(sys: System, step: Step, h: nat, resource: string, permit: bool)
    requires Enabled(sys, step) && h in sys.hooks && !sys.hooks[h].Done?
    requires !sys.hooks[h].Polling? ==> sys.hooks[h].resource == resource
    ensures h in Next(sys, step).hooks
    ensures Next(sys, step).hooks[h] == Done(permit) <==> EndsAt(sys, step, h, resource, permit)
  {
    hide Known, LearnedSays;
    KnownSays(sys.db.learned, resource, Allow);
    KnownSays(sys.db.learned, resource, Deny);
    var known := Known(sys.db.learned, resource, MIN_AUTO_APPLY_CONFIDENCE);
    assert known.Some? ==> known == Some(Learned(known.value.decision, known.value.confidence));
  }

  /** In every run, a hook call has permitted or denied its tool call exactly if the winning static
      rule says so, or some later step of its own ended it that way. */
  lemma {:induction false} EndsExactly(states: seq<System>, steps: seq<Step>, h: nat, resource: string,
                                       rules: seq<Rule<Decision>>, s: nat, k: nat, permit: bool)
    requires Run(states, steps) && StartsAt(steps, h, resource, rules, s) && s < k < |states|
    ensures h in states[k].hooks
    ensures states[k].hooks[h] == Done(permit)
      <==> RulesSay(rules, resource, if permit then Allow else Deny)
           || EndedBy(states, steps, h, resource, s, k, permit)
  {
    hide FreshIds, Evaluate, Known, RulesSay, LearnedSays, EndsAt, Next, Requested, LearnedAllows, OwnRowAllowed;
    StoryHolds(states, steps, h, resource, rules, s, k);
    EvaluateExactly(rules, resource);
    var j := k - 1;
    assert Moves(states[j], steps[j], states[k]);
    if s == j {
      StartEnds(states[j], h, resource, rules);
    } else {
      EndsExactly(states, steps, h, resource, rules, s, j, permit);
      StoryHolds(states, steps, h, resource, rules, s, j);
      if states[j].hooks[h].Done? {
        EndsExactly(states, steps, h, resource, rules, s, j, !permit);
        DoneNotEnded(states[j], steps[j], h, resource, permit);
        DoneStays(states, steps, h, j, k);
      } else {
        StepEnds(states[j], steps[j], h, resource, permit);
      }
    }
  }

  lemma StartEnds(sys: System, h: nat, resource: string, rules: seq<Rule<Decision>>)
    requires Enabled(sys, Start(h, resource, rules))
    ensures var pc := Next(sys, Start(h, resource, rules)).hooks[h];
      && (pc == Done(true) <==> Evaluate(rules, resource) == Allow)
      && (pc == Done(false) <==> Evaluate(rules, resource) == Deny)
  {
    hide Evaluate;
  }

  lemma DoneNotEnded(sys: System, step: Step, h: nat, resource: string, permit: bool)
    requires Enabled(sys, step) && h in sys.hooks && sys.hooks[h].Done?
    ensures !EndsAt(sys, step, h, resource, permit)
  {
    hide LearnedSays;
  }

  lemma {:induction false} DoneStays(states: seq<System>, steps: seq<Step>, h: nat, j: nat, k: nat)
    requires RunFrom(states, steps) && j <= k < |states| && h in states[j].hooks && states[j].hooks[h].Done?
    ensures h in states[k].hooks && states[k].hooks[h] == states[j].hooks[h]
  {
    if j < k {
      DoneStays(states, steps, h, j, k - 1);
      assert Moves(states[k - 1], steps[k - 1], states[k]);
    }
  }

  /** A poll that finds the row missing, or still pending at the deadline, denies for good. */
  lemma FailsClosed(states: seq<System>, steps: seq<Step>, h: nat, j: nat, k: nat)
    requires RunFrom(states, steps) && j < |steps| && steps[j].Poll? && steps[j].h == h
    requires h in states[j].hooks && states[j].hooks[h].Polling?
    requires var id := states[j].hooks[h].id;
      id !in states[j].db.approvals || (states[j].db.approvals[id].status.Pending? && steps[j].expired)
    requires j < k < |states|
    ensures h in states[k].hooks && states[k].hooks[h] == Done(false)
  {
    assert Moves(states[j], steps[j], states[j + 1]);
    DoneStays(states, steps, h, j + 1, k);
  }

  // ---- what others teach while a call runs -----------------------------------------

  /** A pattern, what is learned about it and how confidently. */
  datatype Lesson = Lesson(pattern: string, decision: Decision, confidence: real)

  /** What a step teaches: anything from elsewhere, or a human's answer that is to be remembered. */
  function Teaches(sys: System, step: Step): Option<Lesson> {
    match step
    case LearnElsewhere(pattern, decision, confidence) => Some(Lesson(pattern, decision, confidence))
    case Remember(r) =>
      if r in sys.resolvers && sys.resolvers[r].Updated?
      then Some(Lesson(sys.resolvers[r].resource, if sys.resolvers[r].allow then Allow else Deny, 1.0))
      else None
    case _ => None
  }

  lemma {:induction false} CheckStays(states: seq<System>, steps: seq<Step>, r: nat, i: nat, k: nat)
    requires RunFrom(states, steps) && i <= k < |states| && r in states[i].resolvers && states[i].resolvers[r].Checked?
    requires forall m :: i <= m < k ==> steps[m] != UpdateRow(r)
    ensures r in states[k].resolvers && states[k].resolvers[r] == states[i].resolvers[r]
  {
    if i < k {
      CheckStays(states, steps, r, i, k - 1);
      assert Moves(states[k - 1], steps[k - 1], states[k]);
    }
  }

  /** In every run, a `resolve` that found its row pending, and then writes its answer, goes on to
      teach that answer for the row's resource, with full confidence, exactly if it was asked to
      remember; otherwise it is over. */
  lemma RemembersExactly(states: seq<System>, steps: seq<Step>, c: nat, u: nat)
    requires RunFrom(states, steps) && c < u < |steps| && steps[c].CheckRow?
    requires steps[c].id in states[c].db.approvals && states[c].db.approvals[steps[c].id].status == Pending
    requires steps[u] == UpdateRow(steps[c].r) && forall m :: c < m < u ==> steps[m] != UpdateRow(steps[c].r)
    ensures var r, asked := steps[c].r, states[c].db.approvals[steps[c].id].resource;
      && (steps[c].remember <==> r in states[u + 1].resolvers)
      && (steps[c].remember ==> Enabled(states[u + 1], Remember(r)))
      && (steps[c].remember ==>
            Teaches(states[u + 1], Remember(r)) == Some(Lesson(asked, if steps[c].allow then Allow else Deny, 1.0)))
  {
    assert Moves(states[c], steps[c], states[c + 1]) && Moves(states[u], steps[u], states[u + 1]);
    CheckStays(states, steps, steps[c].r, c + 1, u);
  }

  predicate TeachesPrefix(sys: System, step: Step, resource: string) {
    Teaches(sys, step).Some? && Teaches(sys, step).value.pattern <= resource
  }

  /** What is learned about a resource, pattern by pattern, stays while no pattern that applies to
      it is taught. */
  lemma {:induction false} UntaughtStays(states: seq<System>, steps: seq<Step>, resource: string, i: nat, k: nat)
    requires RunFrom(states, steps) && i <= k < |states|
    requires forall m :: i <= m < k ==> !TeachesPrefix(states[m], steps[m], resource)
    ensures forall p | p <= resource ::
      && (p in states[k].db.learned <==> p in states[i].db.learned)
      && (p in states[i].db.learned ==> states[k].db.learned[p] == states[i].db.learned[p])
  {
    if i < k {
      UntaughtStays(states, steps, resource, i, k - 1);
      assert Moves(states[k - 1], steps[k - 1], states[k]);
    }
  }

  /** In every run, an `Allow` or `Deny` taught with confidence 0.8 or more for a pattern that
      applies to the resource, while no longer one is confidently known, ends a call that looks it
      up later, if nothing that applies to the resource is taught in between. */
  lemma TaughtThenEnds(states: seq<System>, steps: seq<Step>, m: nat, l: nat, h: nat, resource: string, taught: Lesson)
    requires RunFrom(states, steps) && m < l < |steps|
    requires Teaches(states[m], steps[m]) == Some(taught) && taught.pattern <= resource
    requires 0.8 <= taught.confidence <= 1.0 && !taught.decision.Ask?
    requires forall q <- states[m].db.learned :: q <= resource && |q| > |taught.pattern| ==>
      states[m].db.learned[q].confidence < 0.8
    requires forall i :: m < i < l ==> !TeachesPrefix(states[i], steps[i], resource)
    requires steps[l] == LookUpLearned(h) && h in states[l].hooks && states[l].hooks[h] == Unlisted(resource)
    ensures h in states[l + 1].hooks && states[l + 1].hooks[h] == Done(taught.decision == Allow)
  {
    hide Known;
    assert Moves(states[m], steps[m], states[m + 1]) && Moves(states[l], steps[l], states[l + 1]);
    var p, learned := taught.pattern, states[m + 1].db.learned;
    assert p in learned && learned[p] == Learned(taught.decision, taught.confidence);
    UntaughtStays(states, steps, resource, m + 1, l);
    assert LearnedSays(states[l].db.learned, resource, taught.decision);
    StepEnds(states[l], steps[l], h, resource, taught.decision == Allow);
  }

  // ---- when the first decision sticks ----------------------------------------------

  ghost predicate Keeps(states: seq<System>, id: nat, status: Status) {
    forall k :: 0 <= k < |states| && id in states[k].db.approvals ==> states[k].db.approvals[id].status == status
  }

  /** No resolver has checked row `id` and is about to write another decision. */
  predicate NoOppositeCheck(sys: System, id: nat, status: Status) {
    forall r <- sys.resolvers :: sys.resolvers[r].Checked? && sys.resolvers[r].id == id ==>
      StatusFor(sys.resolvers[r].allow) == status
  }

  predicate Settles(sys: System, id: nat, status: Status) {
    && !status.Pending? && id < sys.db.nextId && NoOppositeCheck(sys, id, status)
    && (id in sys.db.approvals ==> sys.db.approvals[id].status == status)
  }

  lemma StepKeepsSettled(sys: System, step: Step, id: nat, status: Status)
    requires Settles(sys, id, status) && Enabled(sys, step)
    ensures Settles(Next(sys, step), id, status)
  {
  }

  lemma {:induction false} SettledStays(states: seq<System>, steps: seq<Step>, id: nat, status: Status, k: nat)
    requires RunFrom(states, steps) && k < |states| && Settles(states[0], id, status)
    ensures Settles(states[k], id, status)
  {
    if k > 0 {
      SettledStays(states, steps, id, status, k - 1);
      assert Moves(states[k - 1], steps[k - 1], states[k]);
      StepKeepsSettled(states[k - 1], steps[k - 1], id, status);
    }
  }

  /** A decided row keeps its decision in every continuation exactly when no resolver holds a
      check of that row, made while it was pending, for the other decision. */
  lemma DecisionFinalExactly(sys: System, id: nat)
    requires FreshIds(sys.db) && id in sys.db.approvals && !sys.db.approvals[id].status.Pending?
    ensures NoOppositeCheck(sys, id, sys.db.approvals[id].status)
      <==> forall states, steps :: RunFrom(states, steps) && states[0] == sys ==>
          Keeps(states, id, sys.db.approvals[id].status)
  {
    var status := sys.db.approvals[id].status;
    if NoOppositeCheck(sys, id, status) {
      forall states, steps | RunFrom(states, steps) && states[0] == sys ensures Keeps(states, id, status) {
        forall k | 0 <= k < |states| ensures Settles(states[k], id, status) {
          SettledStays(states, steps, id, status, k);
        }
      }
    } else {
      var r :| r in sys.resolvers && sys.resolvers[r].Checked? && sys.resolvers[r].id == id
        && StatusFor(sys.resolvers[r].allow) != status;
      var states, steps := [sys, Next(sys, UpdateRow(r))], [UpdateRow(r)];
      assert Moves(states[0], steps[0], states[1]);
      assert RunFrom(states, steps) && states[0] == sys;
      assert !Keeps(states, id, status) by {
        assert states[1].db.approvals[id].status != status;
      }
    }
  }

  /** A `resolve` of row `id` succeeds: it gets to write its answer. */
  predicate Answers(sys: System, step: Step, id: nat) {
    step.UpdateRow? && step.r in sys.resolvers && sys.resolvers[step.r].Checked? && sys.resolvers[step.r].id == id
  }

  /** No resolver has checked row `id` and is about to write, whatever its answer. */
  predicate NoCheck(sys: System, id: nat) {
    forall r <- sys.resolvers :: sys.resolvers[r].Checked? ==> sys.resolvers[r].id != id
  }

  predicate Closed(sys: System, id: nat) {
    id < sys.db.nextId && NoCheck(sys, id) && (id in sys.db.approvals ==> !sys.db.approvals[id].status.Pending?)
  }

  lemma StepKeepsClosed(sys: System, step: Step, id: nat)
    requires Closed(sys, id) && Enabled(sys, step)
    ensures Closed(Next(sys, step), id) && !Answers(sys, step, id)
  {
  }

  lemma {:induction false} ClosedStays(states: seq<System>, steps: seq<Step>, id: nat, k: nat)
    requires RunFrom(states, steps) && k < |states| && Closed(states[0], id)
    ensures Closed(states[k], id)
  {
    if k > 0 {
      ClosedStays(states, steps, id, k - 1);
      assert Moves(states[k - 1], steps[k - 1], states[k]);
      StepKeepsClosed(states[k - 1], steps[k - 1], id);
    }
  }

  /** The error that `resolve` promises for a decided row: every continuation refuses every
      `resolve` of it exactly when no resolver holds a check of the row, for either answer. */
  lemma NoSecondAnswerExactly(sys: System, id: nat)
    requires FreshIds(sys.db) && id in sys.db.approvals && !sys.db.approvals[id].status.Pending?
    ensures NoCheck(sys, id) <==> forall states, steps, k ::
      RunFrom(states, steps) && states[0] == sys && 0 <= k < |steps| ==> !Answers(states[k], steps[k], id)
  {
    if NoCheck(sys, id) {
      forall states, steps, k | RunFrom(states, steps) && states[0] == sys && 0 <= k < |steps|
        ensures !Answers(states[k], steps[k], id)
      {
        ClosedStays(states, steps, id, k);
        assert Moves(states[k], steps[k], states[k + 1]);
        StepKeepsClosed(states[k], steps[k], id);
      }
    } else {
      var r :| r in sys.resolvers && sys.resolvers[r].Checked? && sys.resolvers[r].id == id;
      var states, steps := [sys, Next(sys, UpdateRow(r))], [UpdateRow(r)];
      assert Moves(states[0], steps[0], states[1]);
      assert RunFrom(states, steps) && Answers(states[0], steps[0], id);
    }
  }

  /** A hook call records row 1 for its resource and polls it. */
  lemma AsksFirst(resource: string) returns (states: seq<System>, steps: seq<Step>)
    ensures Run(states, steps) && |steps| > 0
    ensures states[|steps|] == System(
      Db(map[], map[1 := Approval(resource, Some("claude PreToolUse hook"), Pending)], 2), map[0 := Polling(1)], map[])
  {
    hide Known;
    var row := Approval(resource, Some("claude PreToolUse hook"), Pending);
    var sys := System(Db(map[], map[], 1), map[], map[]);
    states, steps := [sys], [];
    sys := sys.(hooks := map[0 := Unlisted(resource)]);
    states, steps := Runs.Extend(Moves, states, steps, Start(0, resource, []), sys);
    NothingLearned(resource);
    sys := sys.(hooks := map[0 := Unknown(resource)]);
    states, steps := Runs.Extend(Moves, states, steps, LookUpLearned(0), sys);
    sys := System(Db(map[], map[1 := row], 2), map[0 := Polling(1)], map[]);
    states, steps := Runs.Extend(Moves, states, steps, RequestRow(0), sys);
  }

  /** Two overlapping `resolve` commands can both succeed: a run in which the hook lets its call
      through on the first decision while the row ends up denied. */
  lemma OverlapFlipsDecision(resource: string) returns (states: seq<System>, steps: seq<Step>)
    ensures Run(states, steps) && |steps| > 0
    ensures states[|steps|].hooks == map[0 := Done(true)] && states[|steps|].resolvers == map[]
    ensures states[|steps|].db.approvals == map[1 := Approval(resource, Some("claude PreToolUse hook"), Denied)]
  {
    states, steps := AsksFirst(resource);
    var sys := states[|steps|];
    var asked, row := sys.db, sys.db.approvals[1];
    var yes, no := Checked(1, resource, true, false), Checked(1, resource, false, false);
    sys := sys.(resolvers := map[0 := yes]);
    states, steps := Runs.Extend(Moves, states, steps, CheckRow(0, 1, true, false), sys);
    sys := sys.(resolvers := map[0 := yes, 1 := no]);
    states, steps := Runs.Extend(Moves, states, steps, CheckRow(1, 1, false, false), sys);

    sys := System(asked.(approvals := map[1 := row.(status := Allowed)]), sys.hooks, map[1 := no]);
    states, steps := Runs.Extend(Moves, states, steps, UpdateRow(0), sys);
    sys := sys.(hooks := map[0 := Done(true)]);
    states, steps := Runs.Extend(Moves, states, steps, Poll(0, false), sys);
    sys := System(asked.(approvals := map[1 := row.(status := Denied)]), sys.hooks, map[]);
    states, steps := Runs.Extend(Moves, states, steps, UpdateRow(1), sys);
  }

  lemma NothingLearned(resource: string)
    ensures Known(map[], resource, MIN_AUTO_APPLY_CONFIDENCE).None?
  {
    LongestPrefixMisses(Confident(map[], MIN_AUTO_APPLY_CONFIDENCE), resource, |resource|);
  }
}
