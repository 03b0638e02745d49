/** Learned decisions and pending approvals, consulted when the static rules say `Ask`. */
module Preferences {
  import opened Text
  import opened Permissions

  datatype Learned = Learned(decision: Decision, confidence: real)

  datatype Status = Pending | Allowed | Denied

  datatype Approval = Approval(resource: string, context: Option<string>, status: Status)

  datatype ResolveError = NoSuchApproval | AlreadyResolved

  datatype Verdict = Permit | Refuse | PendingApproval(id: nat)

  /** The two tables; `pattern` is a unique column, and ids are never given out twice. */
  datatype Db = Db(learned: map<string, Learned>, approvals: map<nat, Approval>, nextId: nat)

  const MIN_AUTO_APPLY_CONFIDENCE: real := 0.8

  function Clamp(confidence: real): (c: real)
    ensures 0.0 <= c <= 1.0
    ensures 0.0 <= confidence <= 1.0 ==> c == confidence
  {
    if confidence < 0.0 then 0.0 else if confidence > 1.0 then 1.0 else confidence
  }

  function DecisionFor(allow: bool): Decision {
    if allow then Allow else Deny
  }

  function StatusFor(allow: bool): Status {
    if allow then Allowed else Denied
  }

  function Learn(db: Db, pattern: string, decision: Decision, confidence: real): Db {
    db.(learned := db.learned[pattern := Learned(decision, Clamp(confidence))])
  }

  function Request(db: Db, resource: string, context: Option<string>): Db {
    db.(approvals := db.approvals[db.nextId := Approval(resource, context, Pending)], nextId := db.nextId + 1)
  }

  function Resolve(db: Db, id: nat, allow: bool, remember: bool): Result<Db, ResolveError> {
    if id !in db.approvals then Err(NoSuchApproval)
    else if !db.approvals[id].status.Pending? then Err(AlreadyResolved)
    else
      var approval := db.approvals[id];
      var updated := db.(approvals := db.approvals[id := approval.(status := StatusFor(allow))]);
      Ok(if remember then Learn(updated, approval.resource, DecisionFor(allow), 1.0) else updated)
  }

  function Confident(learned: map<string, Learned>, min: real): map<string, Learned> {
    map p | p in learned && learned[p].confidence >= min :: learned[p]
  }

  /** What is learned, confidently enough, about a resource. */
  function Known(learned: map<string, Learned>, resource: string, min: real): Option<Learned> {
    LookUp(Confident(learned, min), resource)
  }

  /** The static rules, then what is learned. */
  function Settled(rules: seq<Rule<Decision>>, learned: map<string, Learned>, resource: string): Option<bool> {
    match Evaluate(rules, resource)
    case Allow => Some(true)
    case Deny => Some(false)
    case Ask =>
      match Known(learned, resource, MIN_AUTO_APPLY_CONFIDENCE)
      case Some(Learned(Allow, _)) => Some(true)
      case Some(Learned(Deny, _)) => Some(false)
      case _ => None
  }

  /** `evaluate_and_learn`: what nothing settles is put on record for a human. */
  function Judged(db: Db, rules: seq<Rule<Decision>>, resource: string, context: Option<string>): (Verdict, Db) {
    match Settled(rules, db.learned, resource)
    case Some(permit) => (if permit then Permit else Refuse, db)
    case None => (PendingApproval(db.nextId), Request(db, resource, context))
  }

  class Store {
    var learned: map<string, Learned>
    var approvals: map<nat, Approval>
    var nextId: nat

    function State(): Db
      reads this
    {
      Db(learned, approvals, nextId)
    }

    /** Ids on record were given out earlier. */
    predicate Valid()
      reads this
    {
      FreshIds(State())
    }

    constructor ()
      ensures Valid() && State() == Db(map[], map[], 1)
    {
      learned, approvals, nextId := map[], map[], 1;
    }

    method LearnPattern(pattern: string, decision: Decision, confidence: real)
      requires Valid()
      modifies this
      ensures Valid() && State() == Learn(old(State()), pattern, decision, confidence)
    {
      learned := learned[pattern := Learned(decision, Clamp(confidence))];
    }

    /** `list_preferences`; nothing is said about the order of the rows. */
    method ListPreferences() returns (rows: seq<Rule<Learned>>)
      ensures Lists(rows, learned)
    {
      rows := [];
      var left := learned;
      while left != map[]
        invariant forall p <- left :: p in learned && left[p] == learned[p]
        invariant forall p <- learned :: p in left || Rule(p, learned[p]) in rows
        invariant forall r <- rows :: r.pattern in learned && learned[r.pattern] == r.decision && r.pattern !in left
        invariant DistinctPatterns(rows)
        decreases |left|
      {
        var p :| p in left;
        rows := rows + [Rule(p, left[p])];
        left := left - {p};
      }
    }

    method Lookup(resource: string, min: real) returns (found: Option<Learned>)
      ensures found == Known(learned, resource, min)
    {
      var candidates := ListPreferences();
      found := Best(ConfidentRows(candidates, min), resource);
      AnyOrderFindsTheSame(candidates, learned, resource, min);
    }

    method RequestApproval(resource: string, context: Option<string>) returns (id: nat)
      requires Valid()
      modifies this
      ensures Valid() && id !in old(approvals)
      ensures id == old(nextId) && State() == Request(old(State()), resource, context)
    {
      id := nextId;
      approvals := approvals[id := Approval(resource, context, Pending)];
      nextId := nextId + 1;
    }

    method ResolveApproval(id: nat, allow: bool, remember: bool) returns (r: Result<(), ResolveError>)
      requires Valid()
      modifies this
      ensures Valid()
      ensures match Resolve(old(State()), id, allow, remember)
              case Ok(db) => r == Ok(()) && State() == db
              case Err(e) => r == Err(e) && State() == old(State())
    {
      if id !in approvals {
        return Err(NoSuchApproval);
      }
      var approval := approvals[id];
      if approval.status != Pending {
        return Err(AlreadyResolved);
      }
      approvals := approvals[id := approval.(status := if allow then Allowed else Denied)];
      if remember {
        LearnPattern(approval.resource, if allow then Allow else Deny, 1.0);
      }
      r := Ok(());
    }

    method EvaluateAndLearn(rules: seq<Rule<Decision>>, resource: string, context: Option<string>)
      returns (verdict: Verdict)
      requires Valid()
      modifies this
      ensures Valid() && (verdict.PendingApproval? ==> verdict.id !in old(approvals))
      ensures (verdict, State()) == Judged(old(State()), rules, resource, context)
    {
      match Evaluate(rules, resource) {
        case Allow => return Permit;
        case Deny => return Refuse;
        case Ask =>
      }
      var found := Lookup(resource, MIN_AUTO_APPLY_CONFIDENCE);
      if found.Some? {
        match found.value.decision {
          case Allow => return Permit;
          case Deny => return Refuse;
          case Ask =>
        }
      }
      var id := RequestApproval(resource, context);
      verdict := PendingApproval(id);
    }
  }

  // ---- lookup does not depend on the order of rows ---------------------------------

  function ConfidentRows(rows: seq<Rule<Learned>>, min: real): (r: seq<Rule<Learned>>)
    ensures forall row <- r :: row in rows && row.decision.confidence >= min
    ensures forall row <- rows :: row.decision.confidence >= min ==> row in r
  {
    if rows == [] then []
    else
      var rest := ConfidentRows(rows[1..], min);
      if rows[0].decision.confidence >= min then [rows[0]] + rest else rest
  }

  /** Each entry of the table as one row, in any order. */
  ghost predicate Lists(rows: seq<Rule<Learned>>, learned: map<string, Learned>) {
    && DistinctPatterns(rows)
    && (forall row <- rows :: row.pattern in learned && learned[row.pattern] == row.decision)
    && (forall p <- learned :: Rule(p, learned[p]) in rows)
  }

  predicate DistinctPatterns(rows: seq<Rule<Learned>>) {
    forall i, j :: 0 <= i < j < |rows| ==> rows[i].pattern != rows[j].pattern
  }

  lemma {:induction false} ConfidentRowsStayDistinct(rows: seq<Rule<Learned>>, min: real)
    requires DistinctPatterns(rows)
    ensures DistinctPatterns(ConfidentRows(rows, min))
  {
    if rows != [] {
      ConfidentRowsStayDistinct(rows[1..], min);
      var rest := ConfidentRows(rows[1..], min);
      assert forall i :: 0 < i < |rows| ==> rows[1..][i - 1] == rows[i];
      assert forall i :: 0 <= i < |rest| ==> rest[i] in rows[1..] && rest[i].pattern != rows[0].pattern;
    }
  }

  lemma TableOfList(rows: seq<Rule<Learned>>, learned: map<string, Learned>)
    requires Lists(rows, learned)
    ensures Table(rows) == learned
  {
    forall p ensures p in Table(rows) <==> p in learned {
      TableKeys(rows, p);
    }
    forall p | p in learned ensures p in Table(rows) && Table(rows)[p] == learned[p] {
      var i :| 0 <= i < |rows| && rows[i] == Rule(p, learned[p]);
      TableEntry(rows, i);
    }
  }

  /** Whatever the order in which the rows are listed, filtering them and taking the longest
      pattern finds the entry of the longest confident prefix. */
  lemma AnyOrderFindsTheSame(rows: seq<Rule<Learned>>, learned: map<string, Learned>, resource: string, min: real)
    requires Lists(rows, learned)
    ensures Best(ConfidentRows(rows, min), resource) == Known(learned, resource, min)
  {
    ConfidentRowsStayDistinct(rows, min);
    forall p | p in Confident(learned, min) ensures Rule(p, learned[p]) in ConfidentRows(rows, min) {
      assert Rule(p, learned[p]) in rows;
    }
    var table := Confident(learned, min);
    assert forall row <- ConfidentRows(rows, min) :: row.pattern in table && table[row.pattern] == row.decision;
    TableOfList(ConfidentRows(rows, min), Confident(learned, min));
    BestIsLongestPrefix(ConfidentRows(rows, min), resource);
  }

  /** A confident pattern is found exactly when no longer prefix of the resource is confidently
      known: longer patterns below the floor never hide it. */
  lemma ShorterConfidentPatternFound(learned: map<string, Learned>, resource: string, min: real, pattern: string)
    requires pattern in learned && pattern <= resource && learned[pattern].confidence >= min
    ensures Known(learned, resource, min).Some? && Known(learned, resource, min).value.confidence >= min
    ensures (forall p <- learned :: p <= resource && |p| > |pattern| ==> learned[p].confidence < min)
      ==> Known(learned, resource, min) == Some(learned[pattern])
  {
    var table := Confident(learned, min);
    assert pattern == resource[..|pattern|];
    var k := LongestKey(table, resource, |pattern|);
    LongestPrefixFinds(table, resource, |resource|, k);
    assert resource[..k] <= resource && |resource[..k]| == k;
  }

  // ---- the verdict -----------------------------------------------------------------

  /** The longest pattern learned for the resource with confidence 0.8 or more says `d`. */
  ghost predicate LearnedSays(learned: map<string, Learned>, resource: string, d: Decision) {
    exists p <- learned ::
      && p <= resource && learned[p].confidence >= 0.8 && learned[p].decision == d
      && forall q <- learned :: q <= resource && |q| > |p| ==> learned[q].confidence < 0.8
  }

  lemma KnownSays(learned: map<string, Learned>, resource: string, d: Decision)
    ensures LearnedSays(learned, resource, d)
      <==> exists c :: Known(learned, resource, MIN_AUTO_APPLY_CONFIDENCE) == Some(Learned(d, c))
  {
    var table := Confident(learned, MIN_AUTO_APPLY_CONFIDENCE);
    if LearnedSays(learned, resource, d) {
      var p :| p in learned && p <= resource && learned[p].confidence >= 0.8 && learned[p].decision == d
        && forall q <- learned :: q <= resource && |q| > |p| ==> learned[q].confidence < 0.8;
      ShorterConfidentPatternFound(learned, resource, MIN_AUTO_APPLY_CONFIDENCE, p);
      assert learned[p] == Learned(d, learned[p].confidence);
    }
    if c :| Known(learned, resource, MIN_AUTO_APPLY_CONFIDENCE) == Some(Learned(d, c)) {
      LookUpExactly(table, resource, Learned(d, c));
      var k: nat :| IsLongest(table, resource, k) && table[resource[..k]] == Learned(d, c);
      forall q | q in learned && q <= resource && |q| > k ensures learned[q].confidence < 0.8 {
        assert q == resource[..|q|];
      }
    }
  }

  /** The winning static rule decides where it says `Allow` or `Deny`; where it says `Ask`, or none
      applies, the longest confidently learned pattern does; and where that says neither, a new
      pending row asks about this resource. Nothing else ever changes. */
  lemma JudgedExactly(db: Db, rules: seq<Rule<Decision>>, resource: string, context: Option<string>)
    ensures var (verdict, after) := Judged(db, rules, resource, context);
      var asks := !RulesSay(rules, resource, Allow) && !RulesSay(rules, resource, Deny);
      && (verdict == Permit <==> RulesSay(rules, resource, Allow) || (asks && LearnedSays(db.learned, resource, Allow)))
      && (verdict == Refuse <==> RulesSay(rules, resource, Deny) || (asks && LearnedSays(db.learned, resource, Deny)))
      && (if verdict == Permit || verdict == Refuse then after == db
          else verdict == PendingApproval(db.nextId) && after == Db(db.learned,
            db.approvals[db.nextId := Approval(resource, context, Pending)], db.nextId + 1))
  {
    hide RulesSay, LearnedSays, Known;
    EvaluateExactly(rules, resource);
    KnownSays(db.learned, resource, Allow);
    KnownSays(db.learned, resource, Deny);
    var known := Known(db.learned, resource, MIN_AUTO_APPLY_CONFIDENCE);
    assert known.Some? ==> known == Some(Learned(known.value.decision, known.value.confidence));
  }

  // ---- whole runs ------------------------------------------------------------------

  datatype Op =
    | LearnOp(pattern: string, decision: Decision, confidence: real)
    | RequestOp(resource: string, context: Option<string>)
    | ResolveOp(id: nat, allow: bool, remember: bool)
    | EvaluateOp(rules: seq<Rule<Decision>>, asked: string, context: Option<string>)

  /** The state after one call; a failed call changes nothing. */
  function Apply(db: Db, op: Op): Db {
    match op
    case LearnOp(pattern, decision, confidence) => Learn(db, pattern, decision, confidence)
    case RequestOp(resource, context) => Request(db, resource, context)
    case ResolveOp(id, allow, remember) =>
      (match Resolve(db, id, allow, remember)
       case Ok(after) => after
       case Err(_) => db)
    case EvaluateOp(rules, asked, context) => Judged(db, rules, asked, context).1
  }

  /** Does the call record a decision for exactly this pattern? */
  predicate Relearns(db: Db, op: Op, pattern: string) {
    match op
    case LearnOp(p, _, _) => p == pattern
    case ResolveOp(id, _, remember) =>
      remember && id in db.approvals && db.approvals[id].status.Pending? && db.approvals[id].resource == pattern
    case _ => false
  }

  ghost predicate Run(states: seq<Db>, ops: seq<Op>) {
    && |states| == |ops| + 1
    && forall k :: 0 <= k < |ops| ==> states[k + 1] == Apply(states[k], ops[k])
  }

  /** Ids on record were given out, and are not given out again. */
  predicate FreshIds(db: Db) {
    forall id <- db.approvals :: id < db.nextId
  }

  lemma {:induction false} LearnedStays(states: seq<Db>, ops: seq<Op>, pattern: string, k: nat)
    requires Run(states, ops) && k < |states| && pattern in states[0].learned
    requires forall i :: 0 <= i < k ==> !Relearns(states[i], ops[i], pattern)
    ensures pattern in states[k].learned && states[k].learned[pattern] == states[0].learned[pattern]
  {
    if k > 0 {
      LearnedStays(states, ops, pattern, k - 1);
      assert states[k] == Apply(states[k - 1], ops[k - 1]);
    }
  }

  lemma KnownExactly(learned: map<string, Learned>, resource: string, min: real)
    requires resource in learned && learned[resource].confidence >= min
    ensures Known(learned, resource, min) == Some(learned[resource])
  {
    assert resource[..|resource|] == resource;
  }

  /** After `resolve(id, allow, remember = true)` the approval's resource gets that decision in
      every later state in which the static rules say `Ask` and that exact pattern has not been
      learned again, whatever else is learned, requested, resolved or evaluated meanwhile. */
  lemma RememberedDecisionHolds(states: seq<Db>, ops: seq<Op>, id: nat, allow: bool, rules: seq<Rule<Decision>>, k: nat)
    requires Run(states, ops) && 1 <= k < |states| && ops[0] == ResolveOp(id, allow, true)
    requires Resolve(states[0], id, allow, true).Ok?
    requires forall i :: 1 <= i < k ==> !Relearns(states[i], ops[i], states[0].approvals[id].resource)
    requires var asked := states[0].approvals[id].resource;
      !RulesSay(rules, asked, Allow) && !RulesSay(rules, asked, Deny)
    ensures forall context ::
      Judged(states[k], rules, states[0].approvals[id].resource, context).0 == if allow then Permit else Refuse
  {
    var resource := states[0].approvals[id].resource;
    assert states[1] == Apply(states[0], ops[0]);
    forall i | 0 <= i < k - 1 ensures !Relearns(states[1..][i], ops[1..][i], resource) {
      assert states[1..][i] == states[i + 1] && ops[1..][i] == ops[i + 1];
    }
    forall i | 0 <= i < |ops[1..]| ensures states[1..][i + 1] == Apply(states[1..][i], ops[1..][i]) {
      assert states[i + 2] == Apply(states[i + 1], ops[i + 1]);
    }
    LearnedStays(states[1..], ops[1..], resource, k - 1);
    EvaluateExactly(rules, resource);
    KnownExactly(states[k].learned, resource, MIN_AUTO_APPLY_CONFIDENCE);
  }

  /** A decided approval keeps its decision, and every later `resolve` of it is refused. */
  lemma {:induction false} DecidedStays(states: seq<Db>, ops: seq<Op>, id: nat, i: nat, k: nat, allow: bool,
                                        remember: bool)
    requires Run(states, ops) && FreshIds(states[0]) && i <= k < |states|
    requires id in states[i].approvals && !states[i].approvals[id].status.Pending?
    ensures FreshIds(states[k])
    ensures id in states[k].approvals && states[k].approvals[id] == states[i].approvals[id]
    ensures Resolve(states[k], id, allow, remember) == Err(AlreadyResolved)
  {
    if i < k {
      DecidedStays(states, ops, id, i, k - 1, allow, remember);
      assert states[k] == Apply(states[k - 1], ops[k - 1]);
    } else if 0 < k {
      RunKeepsFreshIds(states, ops, k);
    }
  }

  /** When every `resolve` runs as one step, exactly a pending approval can be resolved; the
      answer given then is on record in every later state, with the resource and context that
      were asked about, and every later `resolve` is refused; the resource is learned with full
      confidence if that was asked for, and else nothing is. */
  lemma FirstDecisionSticks(states: seq<Db>, ops: seq<Op>, id: nat, i: nat, k: nat, allow: bool, remember: bool)
    requires Run(states, ops) && FreshIds(states[0]) && i < k < |states| && ops[i] == ResolveOp(id, allow, remember)
    requires id in states[i].approvals && states[i].approvals[id].status == Pending
    ensures var asked := states[i].approvals[id];
      && id in states[k].approvals
      && states[k].approvals[id] == Approval(asked.resource, asked.context, if allow then Allowed else Denied)
      && states[i + 1].learned == if remember
           then states[i].learned[asked.resource := Learned(if allow then Allow else Deny, 1.0)]
           else states[i].learned
    ensures forall again, keep :: Resolve(states[k], id, again, keep) == Err(AlreadyResolved)
  {
    assert states[i + 1] == Apply(states[i], ops[i]);
    forall again, keep ensures Resolve(states[k], id, again, keep) == Err(AlreadyResolved) {
      DecidedStays(states, ops, id, i + 1, k, again, keep);
    }
    DecidedStays(states, ops, id, i + 1, k, allow, remember);
  }

  lemma {:induction false} RunKeepsFreshIds(states: seq<Db>, ops: seq<Op>, k: nat)
    requires Run(states, ops) && FreshIds(states[0]) && k < |states|
    ensures FreshIds(states[k])
  {
    if k > 0 {
      RunKeepsFreshIds(states, ops, k - 1);
      assert states[k] == Apply(states[k - 1], ops[k - 1]);
    }
  }

  /** However wild the confidences that callers pass, those on record stay in [0, 1]. */
  lemma {:induction false} ConfidencesInRange(states: seq<Db>, ops: seq<Op>, k: nat)
    requires Run(states, ops) && k < |states|
    requires forall p <- states[0].learned :: 0.0 <= states[0].learned[p].confidence <= 1.0
    ensures forall p <- states[k].learned :: 0.0 <= states[k].learned[p].confidence <= 1.0
  {
    if k > 0 {
      ConfidencesInRange(states, ops, k - 1);
      assert states[k] == Apply(states[k - 1], ops[k - 1]);
    }
  }
}
