/** Longest-matching-prefix decisions, for static rules and (in `Preferences`) learned ones. */
module Permissions {
  import opened Text

  datatype Decision = Deny | Ask | Allow

  /** A pattern and what is decided for the resources that start with it. */
  datatype Rule<D> = Rule(pattern: string, decision: D)

  predicate Applies<D>(rule: Rule<D>, resource: string) {
    rule.pattern <= resource
  }

  function Applying<D>(rules: seq<Rule<D>>, resource: string): seq<Rule<D>> {
    if rules == [] then []
    else
      var last := rules[|rules| - 1];
      Applying(rules[..|rules| - 1], resource) + if Applies(last, resource) then [last] else []
  }

  /** `max_by_key(|r| r.pattern.len())`: of several longest patterns the last one. */
  function LastLongest<D>(rules: seq<Rule<D>>): Rule<D>
    requires rules != []
  {
    var last := rules[|rules| - 1];
    if |rules| == 1 then last
    else
      var best := LastLongest(rules[..|rules| - 1]);
      if |last.pattern| >= |best.pattern| then last else best
  }

  function Best<D>(rules: seq<Rule<D>>, resource: string): Option<D> {
    var applying := Applying(rules, resource);
    if applying == [] then None else Some(LastLongest(applying).decision)
  }

  /** `evaluate`: what no rule applies to is asked about. */
  function Evaluate(rules: seq<Rule<Decision>>, resource: string): Decision {
    match Best(rules, resource)
    case Some(decision) => decision
    case None => Ask
  }

  // ---- the reference: look up prefixes, longest first, in a table ------------------

  /** Later rules replace earlier ones with the same pattern. */
  function Table<D>(rules: seq<Rule<D>>): map<string, D> {
    if rules == [] then map[]
    else
      var last := rules[|rules| - 1];
      Table(rules[..|rules| - 1])[last.pattern := last.decision]
  }

  /** The entry of the longest prefix of `resource[..n]` that the table has. */
  function LongestPrefix<D>(table: map<string, D>, resource: string, n: nat): Option<D>
    requires n <= |resource|
  {
    if resource[..n] in table then Some(table[resource[..n]])
    else if n == 0 then None
    else LongestPrefix(table, resource, n - 1)
  }

  function LookUp<D>(table: map<string, D>, resource: string): Option<D> {
    LongestPrefix(table, resource, |resource|)
  }

  lemma {:induction false} LongestPrefixFinds<D>(table: map<string, D>, resource: string, n: nat, k: nat)
    requires k <= n <= |resource| && resource[..k] in table
    requires forall j :: k < j <= n ==> resource[..j] !in table
    ensures LongestPrefix(table, resource, n) == Some(table[resource[..k]])
  {
    if k < n {
      LongestPrefixFinds(table, resource, n - 1, k);
    }
  }

  lemma {:induction false} LongestPrefixMisses<D>(table: map<string, D>, resource: string, n: nat)
    requires n <= |resource|
    requires forall j :: 0 <= j <= n ==> resource[..j] !in table
    ensures LongestPrefix(table, resource, n).None?
  {
    if n > 0 {
      LongestPrefixMisses(table, resource, n - 1);
    }
  }

  /** Exactly what a lookup finds: the table's entry for a prefix than which no longer one is
      in the table. */
  lemma LookUpExactly<D>(table: map<string, D>, resource: string, d: D)
    ensures LookUp(table, resource) == Some(d)
      <==> exists k: nat :: IsLongest(table, resource, k) && table[resource[..k]] == d
    ensures LookUp(table, resource).None? <==> forall p <- table :: !(p <= resource)
  {
    if p :| p in table && p <= resource {
      assert p == resource[..|p|];
      var k := LongestKey(table, resource, |p|);
      LongestPrefixFinds(table, resource, |resource|, k);
    } else {
      LongestPrefixMisses(table, resource, |resource|);
    }
  }

  ghost predicate IsLongest<D>(table: map<string, D>, resource: string, k: nat) {
    && k <= |resource| && resource[..k] in table
    && forall j :: k < j <= |resource| ==> resource[..j] !in table
  }

  lemma LongestKey<D>(table: map<string, D>, resource: string, k: nat) returns (longest: nat)
    requires k <= |resource| && resource[..k] in table
    ensures IsLongest(table, resource, longest)
    decreases |resource| - k
  {
    if j :| k < j <= |resource| && resource[..j] in table {
      longest := LongestKey(table, resource, j);
    } else {
      longest := k;
    }
  }

  // ---- the two agree ---------------------------------------------------------------

  lemma {:induction false} TableEntry<D>(rules: seq<Rule<D>>, i: nat)
    requires i < |rules|
    requires forall j :: i < j < |rules| ==> rules[j].pattern != rules[i].pattern
    ensures rules[i].pattern in Table(rules) && Table(rules)[rules[i].pattern] == rules[i].decision
  {
    if i < |rules| - 1 {
      TableEntry(rules[..|rules| - 1], i);
    }
  }

  lemma {:induction false} TableKeys<D>(rules: seq<Rule<D>>, p: string)
    ensures p in Table(rules) <==> exists r <- rules :: r.pattern == p
  {
    if rules != [] {
      var front, last := rules[..|rules| - 1], rules[|rules| - 1];
      TableKeys(front, p);
      assert rules == front + [last];
    }
  }

  /** The rule that `max_by_key` picks: it applies, and every other rule that applies has a
      shorter pattern, or an equally long one and stands earlier. */
  ghost predicate Wins<D>(rules: seq<Rule<D>>, resource: string, i: nat) {
    && i < |rules| && rules[i].pattern <= resource
    && forall j :: 0 <= j < |rules| && rules[j].pattern <= resource ==>
      |rules[j].pattern| < |rules[i].pattern| || (|rules[j].pattern| == |rules[i].pattern| && j <= i)
  }

  lemma {:induction false} WinnerIsPicked<D>(rules: seq<Rule<D>>, resource: string) returns (i: nat)
    ensures if Applying(rules, resource) == [] then forall r <- rules :: !(r.pattern <= resource)
            else Wins(rules, resource, i) && LastLongest(Applying(rules, resource)) == rules[i]
  {
    i := 0;
    if rules != [] {
      var n := |rules| - 1;
      var front, last := rules[..n], rules[n];
      var before := Applying(front, resource);
      assert rules == front + [last];
      i := WinnerIsPicked(front, resource);
      if Applies(last, resource) {
        assert Applying(rules, resource) == before + [last];
        assert (before + [last])[..|before|] == before;
        if before == [] || |last.pattern| >= |LastLongest(before).pattern| {
          i := n;
        }
      } else {
        assert Applying(rules, resource) == before;
      }
    }
  }

  /** Filtering the rules and taking the last of the longest patterns gives what walking the
      resource's prefixes from longest to shortest through a last-wins table gives. */
  lemma BestIsLongestPrefix<D>(rules: seq<Rule<D>>, resource: string)
    ensures Best(rules, resource) == LookUp(Table(rules), resource)
  {
    var table := Table(rules);
    var i := WinnerIsPicked(rules, resource);
    forall k | 0 <= k <= |resource| && resource[..k] in table
      ensures exists r <- rules :: Applies(r, resource) && |r.pattern| == k
    {
      TableKeys(rules, resource[..k]);
    }
    if Applying(rules, resource) == [] {
      LongestPrefixMisses(table, resource, |resource|);
    } else {
      var k := |rules[i].pattern|;
      assert rules[i].pattern == resource[..k];
      TableEntry(rules, i);
      LongestPrefixFinds(table, resource, |resource|, k);
    }
  }

  /** The rule that wins says `d`. */
  ghost predicate RulesSay(rules: seq<Rule<Decision>>, resource: string, d: Decision) {
    exists i: nat :: Wins(rules, resource, i) && rules[i].decision == d
  }

  lemma OneWinner<D>(rules: seq<Rule<D>>, resource: string, i: nat, j: nat)
    requires Wins(rules, resource, i) && Wins(rules, resource, j)
    ensures i == j
  {
  }

  lemma BestSays(rules: seq<Rule<Decision>>, resource: string, d: Decision)
    ensures Best(rules, resource) == Some(d) <==> RulesSay(rules, resource, d)
    ensures Best(rules, resource).None? <==> forall r <- rules :: !(r.pattern <= resource)
  {
    var i := WinnerIsPicked(rules, resource);
    if j: nat :| Wins(rules, resource, j) && rules[j].decision == d {
      assert rules[j] in rules;
      OneWinner(rules, resource, i, j);
    }
  }

  /** What the rules decide: what the winning rule says, and `Ask` where none applies. */
  lemma EvaluateExactly(rules: seq<Rule<Decision>>, resource: string)
    ensures Evaluate(rules, resource) == Allow <==> RulesSay(rules, resource, Allow)
    ensures Evaluate(rules, resource) == Deny <==> RulesSay(rules, resource, Deny)
    ensures Evaluate(rules, resource) == Ask
      <==> RulesSay(rules, resource, Ask) || forall r <- rules :: !(r.pattern <= resource)
  {
    hide RulesSay, Best;
    BestSays(rules, resource, Allow);
    BestSays(rules, resource, Deny);
    BestSays(rules, resource, Ask);
  }

  /** The same over the table that keeps only the last rule of each pattern. */
  lemma EvaluateByTable(rules: seq<Rule<Decision>>, resource: string, d: Decision)
    ensures RulesSay(rules, resource, d)
      <==> exists k: nat :: IsLongest(Table(rules), resource, k) && Table(rules)[resource[..k]] == d
  {
    hide RulesSay, Best, LookUp;
    BestSays(rules, resource, d);
    BestIsLongestPrefix(rules, resource);
    LookUpExactly(Table(rules), resource, d);
  }
}
