/** Names that must be fresh: ids for further keys of a pool platform, and account names. Both
    are found by counting up; that the counting stops is a pigeonhole argument. */
module PoolKeys {
  import opened Text

  // ---- counting up to a free name --------------------------------------------------

  function Numbered(prefix: string, n: nat): string {
    prefix + Decimal(n)
  }

  /** `n` is the least number from `start` on whose name is free. */
  predicate LeastFree(prefix: string, start: nat, taken: seq<string>, n: nat) {
    && start <= n && Numbered(prefix, n) !in taken
    && forall m :: start <= m < n ==> Numbered(prefix, m) in taken
  }

  lemma NumberedInjective(prefix: string, m: nat, n: nat)
    requires Numbered(prefix, m) == Numbered(prefix, n)
    ensures m == n
  {
    hide Decimal;
    assert Numbered(prefix, m)[|prefix|..] == Decimal(m) && Numbered(prefix, n)[|prefix|..] == Decimal(n);
    DecimalInjective(m, n);
  }

  /** Distinct numbers have distinct names, so a list holds no more of them than it is long. */
  lemma {:induction false} Pigeonhole(prefix: string, lo: nat, hi: nat, taken: seq<string>)
    requires lo <= hi && forall n :: lo <= n < hi ==> Numbered(prefix, n) in taken
    ensures hi - lo <= |taken|
    decreases hi
  {
    if lo < hi {
      var i :| 0 <= i < |taken| && taken[i] == Numbered(prefix, hi - 1);
      var rest := taken[..i] + taken[i + 1..];
      forall n | lo <= n < hi - 1 ensures Numbered(prefix, n) in rest {
        var j :| 0 <= j < |taken| && taken[j] == Numbered(prefix, n);
        if j == i {
          NumberedInjective(prefix, n, hi - 1);
        }
        assert taken[j] == rest[if j < i then j else j - 1];
      }
      Pigeonhole(prefix, lo, hi - 1, rest);
    }
  }

  // ---- keys of a platform ----------------------------------------------------------

  /** What `next_free_key_id` returns for a list of ids. */
  predicate IsNextFree(ids: seq<string>, id: string) {
    if ids == [] then id == "default"
    else exists n :: |ids| + 1 <= n <= 2 * |ids| + 1 && LeastFree("key", |ids| + 1, ids, n) && id == Numbered("key", n)
  }

  /** Returns an id not in use, after at most one probe more than there are ids, for any list. */
  method NextFreeKeyId(existing: seq<string>) returns (id: string, probes: nat)
    ensures id !in existing
    ensures IsNextFree(existing, id)
    ensures probes <= |existing| + 1
  {
    probes := 0;
    if existing == [] {
      return "default", probes;
    }
    var n := |existing| + 1;
    while true
      invariant |existing| + 1 <= n <= 2 * |existing| + 1
      invariant probes == n - (|existing| + 1)
      invariant forall m :: |existing| + 1 <= m < n ==> Numbered("key", m) in existing
      decreases 2 * |existing| + 1 - n
    {
      var candidate := Numbered("key", n);
      probes := probes + 1;
      if candidate !in existing {
        assert LeastFree("key", |existing| + 1, existing, n);
        return candidate, probes;
      }
      Pigeonhole("key", |existing| + 1, n + 1, existing);
      n := n + 1;
    }
  }

  lemma NextFreeIsFree(ids: seq<string>, id: string)
    requires IsNextFree(ids, id)
    ensures id !in ids
  {
  }

  datatype Row = Row(secretRef: string, addedAt: nat, lastValidated: Option<nat>, valid: bool, disabled: bool)

  /** The table, keyed by platform and key id, and the keychain its rows refer to. */
  datatype Pool = Pool(rows: map<(string, string), Row>, secrets: map<string, string>)

  function SecretName(platform: string, id: string): string {
    "pool-key:" + platform + ":" + id
  }

  /** `pool_keys::add`: a new row, or for one on record only its reference. */
  function Added(rows: map<(string, string), Row>, platform: string, id: string, now: nat): map<(string, string), Row> {
    var ref := SecretName(platform, id);
    if (platform, id) in rows
    then rows[(platform, id) := rows[(platform, id)].(secretRef := ref)]
    else rows[(platform, id) := Row(ref, now, None, false, false)]
  }

  function Stored(pool: Pool, platform: string, id: string, secret: string, now: nat): Pool {
    Pool(Added(pool.rows, platform, id, now), pool.secrets[SecretName(platform, id) := secret])
  }

  function KeyIds(rows: map<(string, string), Row>, platform: string): set<string> {
    set k <- rows | k.0 == platform :: k.1
  }

  /** The ids of a platform's keys, each once. */
  ghost predicate Lists(ids: seq<string>, rows: map<(string, string), Row>, platform: string) {
    && (forall id :: id in ids <==> (platform, id) in rows)
    && (forall i, j :: 0 <= i < j < |ids| ==> ids[i] != ids[j])
  }

  class PoolKeyStore {
    var rows: map<(string, string), Row>
    var secrets: map<string, string>

    function State(): Pool
      reads this
    {
      Pool(rows, secrets)
    }

    constructor ()
      ensures State() == Pool(map[], map[])
    {
      rows, secrets := map[], map[];
    }

    /** `pool_keys::list` for one platform; nothing is said about the order. */
    method List(platform: string) returns (ids: seq<string>)
      ensures Lists(ids, rows, platform)
    {
      ids := [];
      var left := rows.Keys;
      while left != {}
        invariant left <= rows.Keys
        invariant forall id :: id in ids <==> (platform, id) in rows && (platform, id) !in left
        invariant forall i, j :: 0 <= i < j < |ids| ==> ids[i] != ids[j]
        decreases left
      {
        var k :| k in left;
        left := left - {k};
        if k.0 == platform {
          assert (platform, k.1) == k;
          ids := ids + [k.1];
        }
      }
    }

    method Add(platform: string, id: string, now: nat)
      modifies this`rows
      ensures rows == Added(old(rows), platform, id, now)
    {
      if (platform, id) in rows {
        rows := rows[(platform, id) := rows[(platform, id)].(secretRef := SecretName(platform, id))];
      } else {
        rows := rows[(platform, id) := Row(SecretName(platform, id), now, None, false, false)];
      }
    }

    /** `ProviderAddFree`: an explicit id rotates that one key, none picks a fresh one. */
    method ProviderAddFree(platform: string, secret: string, keyId: Option<string>, now: nat)
      modifies this
      ensures AddsKey(old(State()), State(), Call(platform, secret, keyId, now))
    {
      var id;
      match keyId {
        case Some(explicit) => id := explicit;
        case None =>
          var ids := List(platform);
          var probes;
          id, probes := NextFreeKeyId(ids);
      }
      secrets := secrets[SecretName(platform, id) := secret];
      Add(platform, id, now);
    }
  }

  datatype Call = Call(platform: string, secret: string, keyId: Option<string>, now: nat)

  /** What a `ProviderAddFree` does: under the id it is given, or under the next free one. */
  ghost predicate AddsKey(before: Pool, after: Pool, call: Call) {
    match call.keyId
    case Some(id) => after == Stored(before, call.platform, id, call.secret, call.now)
    case None => AddsFresh(before, after, call.platform, call.secret, call.now)
  }

  ghost predicate AddsFresh(before: Pool, after: Pool, platform: string, secret: string, now: nat) {
    exists ids, id :: Lists(ids, before.rows, platform) && IsNextFree(ids, id)
        && after == Stored(before, platform, id, secret, now)
  }

  /** After a call, its key is on record, and what its reference names in the keychain is the
      secret just given. A key that was on record keeps all but its reference; a new one begins
      unvalidated. No other row and no other secret is touched. */
  ghost predicate HasAdded(before: Pool, after: Pool, call: Call, id: string) {
    var key, ref := (call.platform, id), "pool-key:" + call.platform + ":" + id;
    && (if call.keyId.Some? then id == call.keyId.value else key !in before.rows)
    && after.rows.Keys == before.rows.Keys + {key} && after.rows[key].secretRef == ref
    && ref in after.secrets && after.secrets[ref] == call.secret
    && (forall other <- before.rows :: other != key ==> after.rows[other] == before.rows[other])
    && (forall name :: name != ref ==> (name in before.secrets <==> name in after.secrets))
    && (forall name <- before.secrets :: name != ref ==> after.secrets[name] == before.secrets[name])
    && after.rows[key] == if key in before.rows
         then Row(ref, before.rows[key].addedAt, before.rows[key].lastValidated, before.rows[key].valid,
                  before.rows[key].disabled)
         else Row(ref, call.now, None, false, false)
  }

  lemma AddedKeyIsStored(before: Pool, after: Pool, call: Call) returns (id: string)
    requires AddsKey(before, after, call)
    ensures HasAdded(before, after, call, id)
  {
    hide IsNextFree;
    if call.keyId.Some? {
      id := call.keyId.value;
    } else {
      var ids;
      ids, id :| Lists(ids, before.rows, call.platform) && IsNextFree(ids, id)
        && after == Stored(before, call.platform, id, call.secret, call.now);
      NextFreeIsFree(ids, id);
    }
  }

  /** One key added for a platform without an explicit id: one id more, and everything that was
      there stays as it was. */
  lemma FreshAddGrowsByOne(before: Pool, after: Pool, platform: string, secret: string, now: nat)
    requires AddsFresh(before, after, platform, secret, now)
    ensures |KeyIds(after.rows, platform)| == |KeyIds(before.rows, platform)| + 1
    ensures forall other :: other != platform ==> KeyIds(after.rows, other) == KeyIds(before.rows, other)
    ensures forall k <- before.rows :: k in after.rows && after.rows[k] == before.rows[k]
  {
    hide IsNextFree, SecretName, KeyIds;
    var ids, id :| Lists(ids, before.rows, platform) && IsNextFree(ids, id)
        && after == Stored(before, platform, id, secret, now);
    NextFreeIsFree(ids, id);
    assert (platform, id) !in before.rows;
    assert after.rows.Keys == before.rows.Keys + {(platform, id)};
    KeyIdsAre(before.rows, after.rows, platform, id, platform);
    forall other | other != platform ensures KeyIds(after.rows, other) == KeyIds(before.rows, other) {
      KeyIdsAre(before.rows, after.rows, platform, id, other);
    }
  }

  lemma KeyIdsAre(before: map<(string, string), Row>, after: map<(string, string), Row>, platform: string, id: string,
                  asked: string)
    requires after.Keys == before.Keys + {(platform, id)}
    ensures KeyIds(after, asked) == KeyIds(before, asked) + (if asked == platform then {id} else {})
    ensures id in KeyIds(before, platform) <==> (platform, id) in before
  {
    assert forall k :: k in KeyIds(after, asked) <==> (asked, k) in after;
    assert forall k :: k in KeyIds(before, asked) <==> (asked, k) in before;
  }

  /** `k` adds in a row without explicit ids grow the platform's key set by exactly `k`, leave
      every other platform's as it was, and overwrite no row. */
  lemma {:induction false} SuccessiveAdds(pools: seq<Pool>, platform: string, secrets: seq<string>, times: seq<nat>,
                                          k: nat)
    requires |pools| == |secrets| + 1 == |times| + 1 && k < |pools|
    requires forall i :: 0 <= i < |secrets| ==> AddsFresh(pools[i], pools[i + 1], platform, secrets[i], times[i])
    ensures |KeyIds(pools[k].rows, platform)| == |KeyIds(pools[0].rows, platform)| + k
    ensures forall other :: other != platform ==> KeyIds(pools[k].rows, other) == KeyIds(pools[0].rows, other)
    ensures forall key <- pools[0].rows :: key in pools[k].rows && pools[k].rows[key] == pools[0].rows[key]
  {
    if k > 0 {
      SuccessiveAdds(pools, platform, secrets, times, k - 1);
      FreshAddGrowsByOne(pools[k - 1], pools[k], platform, secrets[k - 1], times[k - 1]);
    }
  }

  /** The ids that a platform's keys get in a row. */
  function IdNo(i: nat): string {
    if i == 0 then "default" else "key" + Decimal(i + 1)
  }

  lemma IdNoInjective(i: nat, j: nat)
    requires IdNo(i) == IdNo(j)
    ensures i == j
  {
    hide Decimal;
    assert i > 0 ==> IdNo(i)[0] == 'k' && IdNo(i)[3..] == Decimal(i + 1);
    assert j > 0 ==> IdNo(j)[0] == 'k' && IdNo(j)[3..] == Decimal(j + 1);
    if i > 0 && j > 0 {
      DecimalInjective(i + 1, j + 1);
    }
  }

  lemma {:induction false} DistinctCount(ids: seq<string>)
    requires forall i, j :: 0 <= i < j < |ids| ==> ids[i] != ids[j]
    ensures |(set id | id in ids)| == |ids|
  {
    if ids != [] {
      var front, last := ids[..|ids| - 1], ids[|ids| - 1];
      DistinctCount(front);
      assert ids == front + [last];
      assert (set id | id in ids) == (set id | id in front) + {last};
    }
  }

  lemma ListedCount(ids: seq<string>, rows: map<(string, string), Row>, platform: string)
    requires Lists(ids, rows, platform)
    ensures |ids| == |KeyIds(rows, platform)|
  {
    DistinctCount(ids);
    assert forall x :: x in KeyIds(rows, platform) <==> (platform, x) in rows;
    assert (set x | x in ids) == KeyIds(rows, platform);
  }

  /** With the first `k` ids in use, the next free one is the id after them. */
  lemma NextFreeInARow(ids: seq<string>, id: string, k: nat)
    requires |ids| == k && (forall x :: x in ids <==> exists i: nat :: i < k && x == IdNo(i)) && IsNextFree(ids, id)
    ensures id == IdNo(k)
  {
    hide Decimal;
    if k > 0 {
      var n :| |ids| + 1 <= n && LeastFree("key", |ids| + 1, ids, n) && id == Numbered("key", n);
      forall i: nat | i < k ensures IdNo(i) != IdNo(k) {
        if IdNo(i) == IdNo(k) {
          IdNoInjective(i, k);
        }
      }
      assert Numbered("key", k + 1) == IdNo(k);
      assert IdNo(k) !in ids;
    }
  }

  /** A platform's first key is `default`, the next ones are `key2`, `key3` and so on, each in its
      turn. */
  lemma {:induction false} IdsInARow(pools: seq<Pool>, platform: string, secrets: seq<string>, times: seq<nat>, k: nat)
    requires |pools| == |secrets| + 1 == |times| + 1 && k < |pools|
    requires forall i :: 0 <= i < |secrets| ==> AddsFresh(pools[i], pools[i + 1], platform, secrets[i], times[i])
    requires KeyIds(pools[0].rows, platform) == {}
    ensures forall id :: (platform, id) in pools[k].rows <==> exists i: nat :: i < k && id == IdNo(i)
  {
    hide IdNo, IsNextFree;
    if k == 0 {
      assert forall id :: (platform, id) in pools[0].rows ==> id in KeyIds(pools[0].rows, platform);
    } else {
      IdsInARow(pools, platform, secrets, times, k - 1);
      SuccessiveAdds(pools, platform, secrets, times, k - 1);
      var before, after := pools[k - 1], pools[k];
      var ids, id :| Lists(ids, before.rows, platform) && IsNextFree(ids, id)
        && after == Stored(before, platform, id, secrets[k - 1], times[k - 1]);
      ListedCount(ids, before.rows, platform);
      NextFreeInARow(ids, id, k - 1);
      forall x ensures (platform, x) in after.rows <==> exists i: nat :: i < k && x == IdNo(i) {
        assert (platform, x) in after.rows <==> (platform, x) in before.rows || x == id;
      }
    }
  }

  // ---- keychain names --------------------------------------------------------------

  /** The three registries' names never meet, and two pool keys share one only if a platform
      name holds a colon. */
  lemma SecretNamesDistinct(p: string, id: string, q: string, other: string)
    ensures SecretName(p, id) != "provider:" + q
    ensures SecretName(p, id) != "provider-key:" + q + ":" + other
    ensures SecretName(p, id) == SecretName(q, other) && ':' !in p && ':' !in q ==> p == q && id == other
  {
    assert SecretName(p, id)[1] == 'o' && ("provider:" + q)[1] == 'r';
    assert ("provider-key:" + q + ":" + other)[1] == 'r';
    if SecretName(p, id) == SecretName(q, other) && ':' !in p && ':' !in q {
      var a, b := p + [':'] + id, q + [':'] + other;
      assert SecretName(p, id)[9..] == a && SecretName(q, other)[9..] == b;
      SplitFirstOfJoined(p, ':', id);
      SplitFirstOfJoined(q, ':', other);
    }
  }

  lemma ColonsCollide(a: string, b: string, c: string)
    ensures SecretName(a, b + ":" + c) == SecretName(a + ":" + b, c)
    ensures (a, b + ":" + c) != (a + ":" + b, c)
  {
    assert "pool-key:" + a + ":" + (b + ":" + c) == "pool-key:" + (a + ":" + b) + ":" + c;
    assert |b + ":" + c| > |c|;
  }

  /** Adding a fresh key keeps the secret of every key on record, when no platform name holds a
      colon. */
  lemma FreshAddKeepsSecrets(before: Pool, after: Pool, platform: string, secret: string, now: nat, k: (string, string))
    requires AddsFresh(before, after, platform, secret, now)
    requires ':' !in platform && ':' !in k.0
    requires k in before.rows && SecretName(k.0, k.1) in before.secrets
    ensures SecretName(k.0, k.1) in after.secrets
    ensures after.secrets[SecretName(k.0, k.1)] == before.secrets[SecretName(k.0, k.1)]
  {
    hide IsNextFree, SecretName;
    var ids, id :| Lists(ids, before.rows, platform) && IsNextFree(ids, id)
        && after == Stored(before, platform, id, secret, now);
    NextFreeIsFree(ids, id);
    SecretNamesDistinct(k.0, k.1, platform, id);
    assert k == (k.0, k.1);
  }

  /** In a row of calls, with and without explicit ids and for any platforms without colons, a key
      keeps the secret it was given last: only a call that names it replaces it. */
  lemma {:induction false} LastSecretHolds(pools: seq<Pool>, calls: seq<Call>, ids: seq<string>, i: nat, k: nat)
    requires |pools| == |calls| + 1 == |ids| + 1 && i < k < |pools|
    requires forall j :: 0 <= j < |calls| ==> HasAdded(pools[j], pools[j + 1], calls[j], ids[j])
    requires forall j :: 0 <= j < |calls| ==> ':' !in calls[j].platform
    requires forall j :: i < j < k ==> !(calls[j].platform == calls[i].platform && calls[j].keyId == Some(ids[i]))
    ensures var key := (calls[i].platform, ids[i]);
      && key in pools[k].rows && key in pools[i + 1].rows && pools[k].rows[key] == pools[i + 1].rows[key]
      && pools[k].rows[key].secretRef in pools[k].secrets
      && pools[k].secrets[pools[k].rows[key].secretRef] == calls[i].secret
  {
    assert HasAdded(pools[k - 1], pools[k], calls[k - 1], ids[k - 1]);
    if i < k - 1 {
      LastSecretHolds(pools, calls, ids, i, k - 1);
      assert HasAdded(pools[i], pools[i + 1], calls[i], ids[i]);
      SecretNamesDistinct(calls[i].platform, ids[i], calls[k - 1].platform, ids[k - 1]);
    }
  }

  // ---- account names ---------------------------------------------------------------

  predicate IsSafe(c: char) {
    IsAlnum(c) || c == '-' || c == '_' || c == '.'
  }

  function Slug(baseName: string): (slug: string)
    ensures |slug| == |baseName|
    ensures forall i :: 0 <= i < |slug| ==> IsSafe(slug[i])
    ensures forall i :: 0 <= i < |slug| ==> slug[i] == baseName[i] || !IsSafe(baseName[i])
  {
    seq(|baseName|, i requires 0 <= i < |baseName| => if IsSafe(baseName[i]) then baseName[i] else '-')
  }

  /** Letters, digits and three marks stay; everything else becomes a dash. */
  lemma SlugSpelled(baseName: string, i: nat)
    requires i < |baseName|
    ensures var c := baseName[i];
      Slug(baseName)[i] == if 'a' <= c <= 'z' || 'A' <= c <= 'Z' || '0' <= c <= '9' || c in "-_." then c else '-'
  {
  }

  /** The slug itself if free, else with the least free suffix from 2 on. */
  ghost predicate IsFreshName(baseName: string, existing: seq<string>, name: string) {
    if Slug(baseName) !in existing then name == Slug(baseName)
    else exists n :: 2 <= n <= |existing| + 1 && LeastFree(Slug(baseName) + "-", 2, existing, n)
           && name == Numbered(Slug(baseName) + "-", n)
  }

  /** At most one probe more than there are names. */
  method FreshAccountName(baseName: string, existing: seq<string>) returns (name: string, probes: nat)
    ensures name !in existing && IsFreshName(baseName, existing, name)
    ensures probes <= |existing| + 1
    ensures forall i :: 0 <= i < |name| ==> IsSafe(name[i])
  {
    var slug := Slug(baseName);
    var prefix := slug + "-";
    name := slug;
    var suffix := 2;
    probes := 1;
    while name in existing
      invariant 2 <= suffix <= |existing| + 2
      invariant probes == suffix - 1
      invariant name == if suffix == 2 then slug else Numbered(prefix, suffix - 1)
      invariant suffix > 2 ==> slug in existing && suffix - 1 <= |existing| + 1
      invariant forall m :: 2 <= m < suffix - 1 ==> Numbered(prefix, m) in existing
      invariant forall i :: 0 <= i < |name| ==> IsSafe(name[i])
      decreases |existing| + 2 - suffix
    {
      SuffixesRunOut(slug, suffix, existing);
      name := Numbered(prefix, suffix);
      suffix := suffix + 1;
      probes := probes + 1;
    }
    if suffix > 2 {
      assert LeastFree(prefix, 2, existing, suffix - 1);
    }
  }

  /** The slug and the suffixed names below `n` are all taken. */
  lemma SuffixesRunOut(slug: string, n: nat, taken: seq<string>)
    requires n >= 2 && slug in taken
    requires forall m :: 2 <= m < n ==> Numbered(slug + "-", m) in taken
    ensures n <= |taken| + 1
  {
    var i :| 0 <= i < |taken| && taken[i] == slug;
    var rest := taken[..i] + taken[i + 1..];
    forall m | 2 <= m < n ensures Numbered(slug + "-", m) in rest {
      var j :| 0 <= j < |taken| && taken[j] == Numbered(slug + "-", m);
      assert |taken[j]| > |slug|;
      assert taken[j] == rest[if j < i then j else j - 1];
    }
    Pigeonhole(slug + "-", 2, n, rest);
  }

  /** The accounts of one name, made one after the other, are the slug, then the slug with `-2`,
      `-3` and so on. */
  lemma {:induction false} AccountsInARow(baseName: string, names: seq<string>, i: nat)
    requires forall k :: 0 <= k < |names| ==> IsFreshName(baseName, names[..k], names[k])
    requires i < |names|
    ensures names[i] == if i == 0 then Slug(baseName) else Slug(baseName) + "-" + Decimal(i + 1)
  {
    hide Slug, Decimal;
    assert IsFreshName(baseName, names[..i], names[i]);
    if i > 0 {
      var prefix := Slug(baseName) + "-";
      AccountsInARow(baseName, names, 0);
      assert names[..i][0] == Slug(baseName);
      var n :| 2 <= n && LeastFree(prefix, 2, names[..i], n) && names[i] == Numbered(prefix, n);
      forall k | 0 < k < i ensures names[k] == Numbered(prefix, k + 1) && names[k] in names[..i] {
        AccountsInARow(baseName, names, k);
        assert names[..i][k] == names[k];
      }
      NumberFreeInARow(prefix, Slug(baseName), names[..i], n);
    }
  }

  lemma NumberIsTaken(prefix: string, taken: seq<string>, n: nat)
    requires forall k :: 0 < k < |taken| ==> taken[k] == Numbered(prefix, k + 1)
    requires 2 <= n <= |taken|
    ensures Numbered(prefix, n) in taken
  {
    assert taken[n - 1] == Numbered(prefix, n);
  }

  lemma NumberFreeInARow(prefix: string, slug: string, taken: seq<string>, n: nat)
    requires |slug| < |prefix| && taken != [] && taken[0] == slug && LeastFree(prefix, 2, taken, n)
    requires forall k :: 0 < k < |taken| ==> taken[k] == Numbered(prefix, k + 1)
    ensures n == |taken| + 1
  {
    hide Decimal;
    if 2 <= n <= |taken| {
      NumberIsTaken(prefix, taken, n);
    } else if n > |taken| + 1 {
      var m := |taken| + 1;
      var j :| 0 <= j < |taken| && taken[j] == Numbered(prefix, m);
      assert j > 0;
      NumberedInjective(prefix, m, j + 1);
    }
  }
}
