/** The alias store: `scan_and_replace`, `resolve`, `take_alias_value` and `sweep_expired`
    over the `redact_aliases` table and the process-wide alias counter.

    Time is a parameter of every operation and may go backwards. The age cipher is a pair of
    functions; its randomness is the counter value handed to `encrypt`. */
module RedactStore {
  import opened Text
  import opened AliasTokens
  import opened SecretSpans

  const TTL_MS: int := 3 * 60 * 60 * 1000

  datatype Cipher = Cipher(encrypt: (nat, string) -> Bytes, decrypt: Bytes -> Option<string>)

  ghost predicate Inverse(c: Cipher) {
    forall nonce: nat, s: string :: c.decrypt(c.encrypt(nonce, s)) == Some(s)
  }

  datatype Key = Key(session: string, alias: string)

  datatype Row = Row(ciphertext: Bytes, createdAt: int, expiresAt: int)

  type Rows = map<Key, Row>

  /** `issued` counts every `fetch_add` of this process; aliases print it modulo the
      counter's range. */
  datatype Store = Store(rows: Rows, issued: nat)

  datatype PendingAlias = PendingAlias(alias: string, session: string, createdAt: int, expiresAt: int)

  datatype Error = MalformedToken(token: string) | Unresolvable(alias: string) | Undecryptable(alias: string)

  // ---- specification functions -----------------------------------------------------

  function NameAt(session: string, n: nat): AliasName {
    AliasName(session, Decimal(n % COUNTER_RANGE))
  }

  function KeyAt(session: string, n: nat): Key {
    Key(session, Alias(NameAt(session, n)))
  }

  /** The rewritten text, from source index `last` on. */
  function ScanText(session: string, text: string, spans: seq<Span>, n: nat, last: nat): string
    requires SpansFrom(text, spans, last)
  {
    if spans == [] then text[last..]
    else text[last..spans[0].start] + Alias(NameAt(session, n))
         + ScanText(session, text, spans[1..], n + 1, spans[0].end)
  }

  function ScanRows(c: Cipher, rows: Rows, session: string, text: string, spans: seq<Span>, n: nat, now: int): Rows
    requires forall s <- spans :: InText(text, s)
    decreases spans
  {
    if spans == [] then rows
    else
      assert InText(text, spans[0]);
      var value := text[spans[0].start..spans[0].end];
      var row := Row(c.encrypt(n, value), now, now + TTL_MS);
      ScanRows(c, rows[KeyAt(session, n) := row], session, text, spans[1..], n + 1, now)
  }

  function ScanAliases(session: string, n: nat, count: nat, now: int): seq<PendingAlias> {
    seq(count, k requires 0 <= k => PendingAlias(Alias(NameAt(session, n + k)), session, now, now + TTL_MS))
  }

  lemma ScanUnfold(c: Cipher, rows: Rows, session: string, text: string, spans: seq<Span>, k: nat, n: nat, last: nat,
                   now: int)
    requires k < |spans| && SpansFrom(text, spans[k..], last) && forall s <- spans :: InText(text, s)
    ensures last <= spans[k].start && InText(text, spans[k]) && SpansFrom(text, spans[k + 1..], spans[k].end)
    ensures ScanText(session, text, spans[k..], n, last)
         == text[last..spans[k].start] + Alias(NameAt(session, n))
             + ScanText(session, text, spans[k + 1..], n + 1, spans[k].end)
    ensures var row := Row(c.encrypt(n, text[spans[k].start..spans[k].end]), now, now + TTL_MS);
      ScanRows(c, rows, session, text, spans[k..], n, now)
        == ScanRows(c, rows[KeyAt(session, n) := row], session, text, spans[k + 1..], n + 1, now)
  {
    hide Alias, NameAt;
    assert spans[k..][0] == spans[k] && spans[k..][1..] == spans[k + 1..];
  }

  lemma ScanOfNothing(c: Cipher, rows: Rows, session: string, text: string, spans: seq<Span>, n: nat, last: nat,
                      now: int)
    requires spans == [] && SpansFrom(text, spans, last)
    ensures last <= |text| && ScanText(session, text, spans, n, last) == text[last..]
    ensures ScanRows(c, rows, session, text, spans, n, now) == rows
    ensures ScanAliases(session, n, 0, now) == []
  {
  }

  lemma MoreAliases(session: string, n: nat, k: nat, now: int)
    ensures ScanAliases(session, n, k + 1, now)
         == ScanAliases(session, n, k, now) + [PendingAlias(Alias(NameAt(session, n + k)), session, now, now + TTL_MS)]
  {
  }

  function Swept(rows: Rows, now: int): Rows {
    map k | k in rows && rows[k].expiresAt >= now :: rows[k]
  }

  /** One token's plaintext. */
  function Reveal(c: Cipher, rows: Rows, key: Key): Result<string, Error> {
    if key !in rows then Err(Unresolvable(key.alias))
    else
      match c.decrypt(rows[key].ciphertext)
      case None => Err(Undecryptable(key.alias))
      case Some(s) => Ok(s)
  }

  /** The plaintexts of all tokens, or the error of the first that has none. */
  function RevealAll(c: Cipher, rows: Rows, ts: seq<Token>): (r: Result<seq<string>, Error>)
    ensures r.Ok? ==> |r.value| == |ts|
  {
    if ts == [] then Ok([])
    else
      match Reveal(c, rows, Key(ts[0].session, ts[0].alias))
      case Err(e) => Err(e)
      case Ok(s) =>
        match RevealAll(c, rows, ts[1..])
        case Err(e) => Err(e)
        case Ok(rest) => Ok([s] + rest)
  }

  predicate RangesFrom(text: string, ts: seq<Token>, last: nat) {
    if ts == [] then last <= |text|
    else last <= ts[0].start <= ts[0].end <= |text| && RangesFrom(text, ts[1..], ts[0].end)
  }

  /** `text[last..]` with each token's range replaced by its value. */
  function Splice(text: string, ts: seq<Token>, values: seq<string>, last: nat): string
    requires |values| == |ts| && RangesFrom(text, ts, last)
  {
    if ts == [] then text[last..]
    else text[last..ts[0].start] + values[0] + Splice(text, ts[1..], values[1..], ts[0].end)
  }

  lemma {:induction false} TokenRanges(text: string, i: nat, last: nat)
    requires last <= i <= |text|
    ensures RangesFrom(text, TokensFrom(text, i), last)
    decreases |text| - i
  {
    hide NextCandidate, CandidateToken, Open;
    if NextCandidate(text, i).Some? {
      var (start, end) := NextCandidate(text, i).value;
      TokenRanges(text, end, if CandidateToken(text, start, end).Some? then end else last);
    }
  }

  function ResolveText(c: Cipher, rows: Rows, text: string, now: int): Result<string, Error> {
    var ts := TokensFrom(text, 0);
    if ts == [] then Ok(text)
    else
      match RevealAll(c, Swept(rows, now), ts)
      case Err(e) => Err(e)
      case Ok(values) => TokenRanges(text, 0, 0); Ok(Splice(text, ts, values, 0))
  }

  /** Texts without tokens return before the sweep. */
  function ResolveRows(rows: Rows, text: string, now: int): Rows {
    if TokensFrom(text, 0) == [] then rows else Swept(rows, now)
  }

  function TakeValue(c: Cipher, rows: Rows, token: string, now: int): Result<string, Error> {
    match TakeKey(token)
    case None => Err(MalformedToken(Trim(token)))
    case Some(name) => Reveal(c, Swept(rows, now), Key(name.session, Trim(token)))
  }

  function TakeRows(c: Cipher, rows: Rows, token: string, now: int): Rows {
    match TakeKey(token)
    case None => rows
    case Some(name) =>
      var swept := Swept(rows, now);
      var key := Key(name.session, Trim(token));
      if Reveal(c, swept, key).Ok? then swept - {key} else swept
  }

  lemma Regroup(a: string, b: string, c: string, d: string)
    ensures a + (b + c + d) == a + b + c + d == a + (b + c) + d
  {
  }

  // ---- one call --------------------------------------------------------------------

  /** One call. A scan carries the spans it selects; nothing but their order and disjointness
      is used. */
  datatype Op =
    | Scan(session: string, text: string, spans: seq<Span>, now: int)
    | Expand(text: string, now: int)     // `resolve`
    | Take(token: string, now: int)
    | Sweep(now: int)

  predicate Legal(op: Op) {
    op.Scan? ==> SpansFrom(op.text, op.spans, 0) && forall s <- op.spans :: InText(op.text, s)
  }

  function Apply(c: Cipher, st: Store, op: Op): (next: Store)
    requires Legal(op)
    ensures st.issued <= next.issued
  {
    match op
    case Scan(session, text, spans, now) =>
      Store(ScanRows(c, st.rows, session, text, spans, st.issued, now), st.issued + |spans|)
    case Expand(text, now) => st.(rows := ResolveRows(st.rows, text, now))
    case Take(token, now) => st.(rows := TakeRows(c, st.rows, token, now))
    case Sweep(now) => st.(rows := Swept(st.rows, now))
  }

  // ---- the store -------------------------------------------------------------------

  class RedactStore {
    var rows: Rows
    var issued: nat
    const cipher: Cipher
    /** `shannon_entropy(word) >= 3.5` */
    const highEntropy: string -> bool

    constructor (cipher: Cipher, highEntropy: string -> bool)
      ensures rows == map[] && issued == 1 && this.cipher == cipher && this.highEntropy == highEntropy
    {
      rows, issued := map[], 1;
      this.cipher, this.highEntropy := cipher, highEntropy;
    }

    ghost function State(): Store
      reads this
    {
      Store(rows, issued)
    }

    /** `scan_and_replace`; `spans` are the spans it found. */
    method ScanAndReplace(session: string, text: string, now: int)
      returns (out: string, aliases: seq<PendingAlias>, ghost spans: seq<Span>)
      modifies this
      ensures SecretSpansOf(text, highEntropy, spans)
      ensures SpansFrom(text, spans, 0) && (forall s <- spans :: InText(text, s))
      ensures out == ScanText(session, text, spans, old(issued), 0)
      ensures aliases == ScanAliases(session, old(issued), |spans|, now)
      ensures State() == Apply(cipher, old(State()), Scan(session, text, spans, now))
    {
      hide SecretSpansOf, NameAt, Alias, ScanText, ScanRows, SpansFrom;
      var todo := FindSecretSpans(text, highEntropy);
      spans := todo;
      SecretSpansPartition(text, highEntropy, spans);
      out, aliases := "", [];
      if todo == [] {
        ScanOfNothing(cipher, rows, session, text, todo, issued, 0, now);
        return text, [], spans;
      }
      var last: nat, k: nat := 0, 0;
      assert todo[0..] == todo;
      assert ScanAliases(session, issued, 0, now) == [];
      while k < |todo|
        invariant k <= |todo| && issued == old(issued) + k
        invariant SpansFrom(text, todo[k..], last)
        invariant out + ScanText(session, text, todo[k..], issued, last)
               == ScanText(session, text, spans, old(issued), 0)
        invariant ScanRows(cipher, rows, session, text, todo[k..], issued, now)
               == ScanRows(cipher, old(rows), session, text, spans, old(issued), now)
        invariant aliases == ScanAliases(session, old(issued), k, now)
      {
        var start, end, n := todo[k].start, todo[k].end, issued;
        ghost var before := out;
        ScanUnfold(cipher, rows, session, text, todo, k, n, last, now);
        out := out + text[last..start];
        issued := issued + 1;
        var alias := Alias(NameAt(session, n));
        rows := rows[Key(session, alias) := Row(cipher.encrypt(n, text[start..end]), now, now + TTL_MS)];
        MoreAliases(session, old(issued), k, now);
        aliases := aliases + [PendingAlias(alias, session, now, now + TTL_MS)];
        out := out + alias;
        Regroup(before, text[last..start], alias, ScanText(session, text, todo[k + 1..], n + 1, end));
        last := end;
        k := k + 1;
      }
      ScanOfNothing(cipher, rows, session, text, todo[k..], issued, last, now);
      out := out + text[last..];
    }

    method Resolve(text: string, now: int) returns (r: Result<string, Error>)
      modifies this
      ensures r == ResolveText(cipher, old(rows), text, now)
      ensures State() == Apply(cipher, old(State()), Expand(text, now))
    {
      hide TokensFrom;
      var ts := FindAliasTokens(text);
      if ts == [] {
        return Ok(text);
      }
      var _ := SweepExpired(now);
      TokenRanges(text, 0, 0);
      var out := "";
      var last: nat, k: nat := 0, 0;
      assert ts[0..] == ts;
      assert forall s: string {:trigger out + s} :: out + s == s;
      while k < |ts|
        invariant k <= |ts| && RangesFrom(text, ts[k..], last)
        invariant rows == Swept(old(rows), now) && issued == old(issued)
        invariant var rest := RevealAll(cipher, rows, ts[k..]);
          ResolveText(cipher, old(rows), text, now)
          == if rest.Err? then Err(rest.error) else Ok(out + Splice(text, ts[k..], rest.value, last))
      {
        assert ts[k..][0] == ts[k] && ts[k..][1..] == ts[k + 1..];
        ghost var rest := RevealAll(cipher, rows, ts[k + 1..]);
        var value := Reveal(cipher, rows, Key(ts[k].session, ts[k].alias));
        if value.Err? {
          return Err(value.error);
        }
        ghost var before := out;
        out := out + text[last..ts[k].start] + value.value;
        if rest.Ok? {
          assert ([value.value] + rest.value)[1..] == rest.value;
          ghost var tail := Splice(text, ts[k + 1..], rest.value, ts[k].end);
          Regroup(before, text[last..ts[k].start], value.value, tail);
        }
        last := ts[k].end;
        k := k + 1;
      }
      assert ts[k..] == [];
      out := out + text[last..];
      return Ok(out);
    }

    method TakeAliasValue(token: string, now: int) returns (r: Result<string, Error>)
      modifies this
      ensures r == TakeValue(cipher, old(rows), token, now)
      ensures State() == Apply(cipher, old(State()), Take(token, now))
    {
      hide TakeKey, Trim, Reveal, Swept;
      var trimmed := Trim(token);
      var name := TakeKey(token);
      if name.None? {
        return Err(MalformedToken(trimmed));
      }
      var _ := SweepExpired(now);
      var key := Key(name.value.session, trimmed);
      r := Reveal(cipher, rows, key);
      if r.Ok? {
        rows := rows - {key};
      }
    }

    method SweepExpired(now: int) returns (removed: nat)
      modifies this
      ensures State() == Apply(cipher, old(State()), Sweep(now))
      ensures removed + |rows| == |old(rows)|
    {
      var expired := map k | k in rows && rows[k].expiresAt < now :: rows[k];
      removed := |expired|;
      ghost var kept := Swept(rows, now);
      assert rows.Keys == kept.Keys + expired.Keys && kept.Keys !! expired.Keys;
      assert |rows.Keys| == |kept.Keys| + |expired.Keys|;
      rows := Swept(rows, now);
    }
  }
}
