/** Fallback chains: what to run next after a rate limit. Chains may overlap and may repeat an
    entry, so whether following `next_after` hop by hop ever stops is a question about the whole
    registry. */
module Fallback {
  import opened Text
  import Sets

  datatype Entry = Entry(agent: string, account: Option<string>)

  type Chain = seq<Entry>

  // ---- one hop ---------------------------------------------------------------------

  /** First position of `e` in the chain; its length when absent. */
  function FirstAt(chain: Chain, e: Entry): (p: nat)
    ensures p <= |chain|
    ensures p < |chain| ==> chain[p] == e
    ensures forall i :: 0 <= i < p ==> chain[i] != e
  {
    if chain == [] || chain[0] == e then 0 else FirstAt(chain[1..], e) + 1
  }

  /** Index of the first chain that holds `e`; the number of chains when none does. */
  function Home(chains: seq<Chain>, e: Entry): (k: nat)
    ensures k <= |chains|
    ensures k < |chains| ==> e in chains[k]
    ensures forall j :: 0 <= j < k ==> e !in chains[j]
  {
    if chains == [] || e in chains[0] then 0 else Home(chains[1..], e) + 1
  }

  /** The entry one step along the first chain that holds `e`, after its first position there. */
  function Hop(chains: seq<Chain>, e: Entry): Option<Entry> {
    var k := Home(chains, e);
    if k == |chains| then None
    else
      var p := FirstAt(chains[k], e);
      if p + 1 < |chains[k]| then Some(chains[k][p + 1]) else None
  }

  function Without(chains: seq<Chain>, head: Entry): (r: seq<Chain>)
    ensures forall c <- r :: c in chains && !HeadIs(c, head)
    ensures forall c <- chains :: HeadIs(c, head) || c in r
    ensures |r| <= |chains|
    ensures |r| == |chains| <==> r == chains
  {
    if chains == [] then []
    else
      var rest := Without(chains[1..], head);
      if HeadIs(chains[0], head) then rest else [chains[0]] + rest
  }

  lemma {:induction false} WithoutKeepsHeads(chains: seq<Chain>, head: Entry)
    requires DistinctHeads(chains)
    ensures DistinctHeads(Without(chains, head))
  {
    if chains != [] {
      assert forall i :: 0 < i < |chains| ==> chains[i] == chains[1..][i - 1];
      WithoutKeepsHeads(chains[1..], head);
      var rest := Without(chains[1..], head);
      forall c | c in rest ensures chains[0] != [] ==> !HeadIs(c, chains[0][0]) {
        assert c in chains[1..];
      }
    }
  }

  lemma {:induction false} WithoutSame(chains: seq<Chain>, head: Entry)
    ensures Without(chains, head) == chains <==> forall c <- chains :: !HeadIs(c, head)
  {
    if chains != [] {
      assert chains == [chains[0]] + chains[1..];
      WithoutSame(chains[1..], head);
    }
  }

  lemma {:induction false} WithoutJoins(some: seq<Chain>, more: seq<Chain>, head: Entry)
    ensures Without(some + more, head) == Without(some, head) + Without(more, head)
  {
    if some == [] {
      assert some + more == more;
    } else {
      assert (some + more)[1..] == some[1..] + more;
      WithoutJoins(some[1..], more, head);
    }
  }

  /** Exactly the chains with another head are kept, each in its place. */
  lemma WithoutExactly(some: seq<Chain>, chain: Chain, more: seq<Chain>, head: Entry)
    ensures Without(some + [chain] + more, head)
      == Without(some, head) + (if chain != [] && chain[0] == head then [] else [chain]) + Without(more, head)
  {
    WithoutJoins(some + [chain], more, head);
    WithoutJoins(some, [chain], head);
    assert [chain][1..] == [];
  }

  predicate HeadIs(chain: Chain, head: Entry) {
    chain != [] && chain[0] == head
  }

  /** No two chains start with the same entry. */
  predicate DistinctHeads(chains: seq<Chain>) {
    forall i, j :: 0 <= i < j < |chains| && chains[i] != [] ==> !HeadIs(chains[j], chains[i][0])
  }

  predicate WellFormed(chains: seq<Chain>) {
    (forall c <- chains :: |c| >= 2) && DistinctHeads(chains)
  }

  /** `fallback.toml` */
  class Registry {
    var chains: seq<Chain>

    constructor ()
      ensures chains == [] && WellFormed(chains)
    {
      chains := [];
    }

    method Set(chain: Chain) returns (ok: bool)
      modifies this
      ensures ok == (|chain| >= 2)
      ensures !ok ==> chains == old(chains)
      ensures ok ==> chains == Without(old(chains), chain[0]) + [chain]
      ensures WellFormed(old(chains)) ==> WellFormed(chains)
    {
      ok := |chain| >= 2;
      if ok {
        if DistinctHeads(chains) {
          WithoutKeepsHeads(chains, chain[0]);
        }
        chains := Without(chains, chain[0]) + [chain];
      }
    }

    method Remove(first: Entry) returns (removed: bool)
      modifies this
      ensures chains == Without(old(chains), first)
      ensures removed == exists c <- old(chains) :: HeadIs(c, first)
      ensures forall c <- chains :: !HeadIs(c, first)
      ensures WellFormed(old(chains)) ==> WellFormed(chains)
    {
      var before := |chains|;
      var kept := Without(chains, first);
      WithoutSame(chains, first);
      if DistinctHeads(chains) {
        WithoutKeepsHeads(chains, first);
      }
      removed := |kept| != before;
      if removed {
        chains := kept;
      }
    }

    method NextAfter(current: Entry) returns (next: Option<Entry>)
      ensures next == Hop(chains, current)
    {
      for k := 0 to |chains|
        invariant forall j :: 0 <= j < k ==> current !in chains[j]
      {
        var chain := chains[k];
        for pos := 0 to |chain|
          invariant forall i :: 0 <= i < pos ==> chain[i] != current
        {
          if chain[pos] == current {
            return if pos + 1 < |chain| then Some(chain[pos + 1]) else None;
          }
        }
      }
      next := None;
    }
  }

  // ---- many hops -------------------------------------------------------------------

  /** The entry reached from `e` by `n` hops, if the walk gets that far. */
  function Walk(chains: seq<Chain>, e: Entry, n: nat): Option<Entry>
    decreases n
  {
    if n == 0 then Some(e)
    else match Hop(chains, e)
      case None => None
      case Some(next) => Walk(chains, next, n - 1)
  }

  ghost predicate Ends(chains: seq<Chain>, e: Entry) {
    exists n: nat :: Walk(chains, e, n).None?
  }

  lemma {:induction false} WalkAdds(chains: seq<Chain>, e: Entry, m: nat, n: nat)
    ensures Walk(chains, e, m + n)
      == match Walk(chains, e, m) case None => None case Some(f) => Walk(chains, f, n)
    decreases m
  {
    if m > 0 && Hop(chains, e).Some? {
      WalkAdds(chains, Hop(chains, e).value, m - 1, n);
    }
  }

  /** Position `r` of chain `k` is where `next_after` looks its entry up. */
  predicate LookedUpAt(chains: seq<Chain>, k: nat, r: nat)
    requires k < |chains| && r < |chains[k]|
  {
    Home(chains, chains[k][r]) == k && FirstAt(chains[k], chains[k][r]) == r
  }

  /** A stretch of one chain that comes back to its start without ever being left. */
  predicate Trap(chains: seq<Chain>, k: nat, p: nat, q: nat) {
    && k < |chains| && p < q < |chains[k]| && chains[k][p] == chains[k][q]
    && forall r :: p <= r < q ==> LookedUpAt(chains, k, r)
  }

  /** The walk follows the chain as long as the entries it meets are looked up there. */
  lemma {:induction false} WalkAlong(chains: seq<Chain>, k: nat, p: nat, t: nat)
    requires k < |chains| && p + t < |chains[k]|
    requires forall r :: p <= r < p + t ==> LookedUpAt(chains, k, r)
    ensures Walk(chains, chains[k][p], t) == Some(chains[k][p + t])
    decreases t
  {
    if t > 0 {
      assert LookedUpAt(chains, k, p);
      WalkAlong(chains, k, p + 1, t - 1);
    }
  }

  lemma {:induction false} CycleNeverEnds(chains: seq<Chain>, e: Entry, period: nat, n: nat)
    requires period > 0 && Walk(chains, e, period) == Some(e)
    ensures Walk(chains, e, n).Some?
    decreases n
  {
    if n < period {
      WalkAdds(chains, e, n, period - n);
    } else {
      WalkAdds(chains, e, period, n - period);
      CycleNeverEnds(chains, e, period, n - period);
    }
  }

  lemma TrapNeverEnds(chains: seq<Chain>, k: nat, p: nat, q: nat)
    requires Trap(chains, k, p, q)
    ensures !Ends(chains, chains[k][p])
  {
    WalkAlong(chains, k, p, q - p);
    forall n: nat ensures Walk(chains, chains[k][p], n).Some? {
      CycleNeverEnds(chains, chains[k][p], q - p, n);
    }
  }

  /** Start of the longest stretch ending in `p` whose entries are all looked up in place. */
  function StretchStart(chains: seq<Chain>, k: nat, p: nat): (b: nat)
    requires k < |chains| && p < |chains[k]| && LookedUpAt(chains, k, p)
    ensures b <= p && forall r :: b <= r <= p ==> LookedUpAt(chains, k, r)
    ensures b > 0 ==> !LookedUpAt(chains, k, b - 1)
  {
    if p > 0 && LookedUpAt(chains, k, p - 1) then StretchStart(chains, k, p - 1) else p
  }

  /** Without a trap every walk ends: each hop goes to an earlier chain, or to an earlier stretch
      of the same chain, or further along the same stretch. */
  lemma {:induction false} WalkEnds(chains: seq<Chain>, k: nat, p: nat) returns (n: nat)
    requires k < |chains| && p < |chains[k]| && LookedUpAt(chains, k, p)
    requires forall k, p, q :: !Trap(chains, k, p, q)
    ensures Walk(chains, chains[k][p], n).None?
    decreases k, StretchStart(chains, k, p), |chains[k]| - p
  {
    if p + 1 == |chains[k]| {
      n := 1;
    } else {
      var f := chains[k][p + 1];
      var k' := Home(chains, f);
      var p' := FirstAt(chains[k'], f);
      if k' == k && p' <= p {
        assert !Trap(chains, k, p', p + 1);
      }
      var m := WalkEnds(chains, k', p');
      n := m + 1;
    }
  }

  /** Every walk ends exactly when no chain has a stretch that comes back to its start with
      every entry of it looked up in place. */
  lemma WalksEndExactlyWithoutTraps(chains: seq<Chain>)
    ensures (forall e :: Ends(chains, e)) <==> (forall k, p, q :: !Trap(chains, k, p, q))
  {
    if k, p, q :| Trap(chains, k, p, q) {
      TrapNeverEnds(chains, k, p, q);
    } else {
      forall e ensures Ends(chains, e) {
        var k := Home(chains, e);
        if k == |chains| {
          assert Walk(chains, e, 1).None?;
        } else {
          var n := WalkEnds(chains, k, FirstAt(chains[k], e));
        }
      }
    }
  }

  // ---- no entry twice, and how many hops -------------------------------------------

  predicate NoRepeat(chain: Chain) {
    forall i, j :: 0 <= i < j < |chain| ==> chain[i] != chain[j]
  }

  function EntriesOf(chains: seq<Chain>): set<Entry> {
    set c <- chains, e <- c :: e
  }

  /** A walk that ends visits no entry twice. */
  lemma VisitedOnce(chains: seq<Chain>, e: Entry, i: nat, j: nat)
    requires Ends(chains, e) && i < j && Walk(chains, e, j).Some?
    ensures Walk(chains, e, i).Some? && Walk(chains, e, i) != Walk(chains, e, j)
  {
    WalkAdds(chains, e, i, j - i);
    if Walk(chains, e, i) == Walk(chains, e, j) {
      ReturnNeverEnds(chains, e, i, j);
    }
  }

  lemma ReturnNeverEnds(chains: seq<Chain>, e: Entry, i: nat, j: nat)
    requires i < j && Walk(chains, e, i).Some? && Walk(chains, e, i) == Walk(chains, e, j)
    ensures !Ends(chains, e)
  {
    WalkAdds(chains, e, i, j - i);
    forall n: nat ensures Walk(chains, e, n).Some? {
      if n < i {
        WalkAdds(chains, e, n, i - n);
      } else {
        WalkAdds(chains, e, i, n - i);
        CycleNeverEnds(chains, Walk(chains, e, i).value, j - i, n - i);
      }
    }
  }

  ghost predicate VisitedBy(chains: seq<Chain>, e: Entry, n: nat, f: Entry) {
    exists i: nat :: i <= n && Walk(chains, e, i) == Some(f)
  }

  /** The entries after the first `n` hops, `e` among them. */
  lemma {:induction false} VisitedSet(chains: seq<Chain>, e: Entry, n: nat) returns (seen: set<Entry>)
    requires e in EntriesOf(chains) && Ends(chains, e) && Walk(chains, e, n).Some?
    ensures |seen| == n + 1
    ensures seen <= EntriesOf(chains)
    ensures forall f <- seen :: VisitedBy(chains, e, n, f)
    decreases n
  {
    if n == 0 {
      seen := {e};
      assert Walk(chains, e, n) == Some(e);
    } else {
      WalkAdds(chains, e, n - 1, 1);
      var before := VisitedSet(chains, e, n - 1);
      var f := Walk(chains, e, n).value;
      if f in before {
        var i: nat :| i <= n - 1 && Walk(chains, e, i) == Some(f);
        VisitedOnce(chains, e, i, n);
      }
      var last := Walk(chains, e, n - 1).value;
      assert Walk(chains, last, 1) == Some(f) && Hop(chains, last) == Some(f);
      var home := chains[Home(chains, last)];
      assert home in chains && f in home;
      assert Walk(chains, e, n) == Some(f);
      seen := before + {f};
      assert forall g :: VisitedBy(chains, e, n - 1, g) ==> VisitedBy(chains, e, n, g);
    }
  }

  lemma FewHops(chains: seq<Chain>, e: Entry, n: nat)
    requires e in EntriesOf(chains) && Ends(chains, e) && Walk(chains, e, n).Some?
    ensures n < |EntriesOf(chains)|
  {
    var seen := VisitedSet(chains, e, n);
    Sets.SubsetIsSmaller(seen, EntriesOf(chains));
  }

  /** If no single chain repeats an entry, every walk ends, even over overlapping chains: it
      visits no entry twice and makes fewer hops than there are entries. */
  lemma NoRepeatsWalksEnd(chains: seq<Chain>, e: Entry)
    requires forall c <- chains :: NoRepeat(c)
    ensures Ends(chains, e)
    ensures forall i: nat, j: nat :: i < j && Walk(chains, e, j).Some? ==> Walk(chains, e, i) != Walk(chains, e, j)
    ensures e in EntriesOf(chains) ==> Walk(chains, e, |EntriesOf(chains)|).None?
    ensures e !in EntriesOf(chains) ==> Hop(chains, e).None?
  {
    forall k: nat, p: nat, q: nat ensures !Trap(chains, k, p, q) {
      assert k < |chains| ==> chains[k] in chains && NoRepeat(chains[k]);
    }
    WalksEndExactlyWithoutTraps(chains);
    forall i: nat, j: nat | i < j && Walk(chains, e, j).Some? ensures Walk(chains, e, i) != Walk(chains, e, j) {
      VisitedOnce(chains, e, i, j);
    }
    if e in EntriesOf(chains) && Walk(chains, e, |EntriesOf(chains)|).Some? {
      FewHops(chains, e, |EntriesOf(chains)|);
    }
    if Home(chains, e) < |chains| {
      assert e in EntriesOf(chains);
    }
  }

  /** A fresh registry in which `set` stored `[a, b, a, c]`: the walk from `a` goes on for ever
      and never tries `c`, although each single call only moves one step along the chain. */
  lemma RepeatedEntryLoops(a: Entry, b: Entry, c: Entry)
    requires a != b && b != c && c != a
    ensures var chains := Without([], a) + [[a, b, a, c]];
      && WellFormed(chains) && !Ends(chains, a)
      && forall n: nat :: Walk(chains, a, n) != Some(c)
  {
    var chain := [a, b, a, c];
    var chains := [chain];
    assert Without([], a) + [chain] == chains;
    assert FirstAt(chain, a) == 0 && FirstAt(chain, b) == 1;
    assert Home(chains, a) == 0 && Home(chains, b) == 0;
    assert Trap(chains, 0, 0, 2);
    TrapNeverEnds(chains, 0, 0, 2);
    forall n: nat ensures Walk(chains, a, n) != Some(c) {
      if Walk(chains, a, n) == Some(c) {
        assert Hop(chains, c).None?;
        WalkAdds(chains, a, n, 1);
      }
    }
  }

  /** After `set`, the walk from the new chain's head tries the chain's entries in order and then
      stops, if the chain repeats nothing and shares no entry with the chains that stay. */
  lemma SetThenWalk(before: seq<Chain>, chain: Chain, i: nat)
    requires |chain| >= 2 && NoRepeat(chain) && i <= |chain|
    requires forall c <- Without(before, chain[0]), e <- chain :: e !in c
    ensures Walk(Without(before, chain[0]) + [chain], chain[0], i)
      == if i < |chain| then Some(chain[i]) else None
  {
    var kept := Without(before, chain[0]);
    var chains := kept + [chain];
    forall r | 0 <= r < |chain| ensures LookedUpAt(chains, |kept|, r) {
      LookedUpInLast(kept, chain, r);
    }
    if i < |chain| {
      WalkAlong(chains, |kept|, 0, i);
    } else {
      WalkAlong(chains, |kept|, 0, i - 1);
      WalkAdds(chains, chain[0], i - 1, 1);
      assert LookedUpAt(chains, |kept|, i - 1);
    }
  }

  lemma LookedUpInLast(kept: seq<Chain>, chain: Chain, r: nat)
    requires NoRepeat(chain) && r < |chain|
    requires forall c <- kept, e <- chain :: e !in c
    ensures LookedUpAt(kept + [chain], |kept|, r)
  {
    var chains := kept + [chain];
    assert chains[|kept|] == chain && chain[r] in chain;
    assert forall j :: 0 <= j < |kept| ==> chains[j] in kept && chain[r] !in chains[j];
    assert Home(chains, chain[r]) >= |kept|;
  }
}
