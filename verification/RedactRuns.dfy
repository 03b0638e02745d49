/** Runs of one process over the alias store: the round trip of redaction, and the life of an
    alias from the scan that issues it. */
module RedactRuns {
  import opened Text
  import opened AliasTokens
  import opened SecretSpans
  import opened RedactStore

  function Run(c: Cipher, st: Store, ops: seq<Op>): (end: Store)
    requires forall op <- ops :: Legal(op)
    ensures st.issued <= end.issued
    decreases ops
  {
    if ops == [] then st
    else
      assert ops[0] in ops;
      Run(c, Apply(c, st, ops[0]), ops[1..])
  }

  /** `op` removes the row of a decryptable alias that expires at `expiresAt`. */
  predicate Removes(op: Op, key: Key, expiresAt: int) {
    match op
    case Scan(_, _, _, _) => false
    case Expand(text, now) => TokensFrom(text, 0) != [] && expiresAt < now
    case Take(token, now) =>
      var name := TakeKey(token);
      name.Some? && (expiresAt < now || Key(name.value.session, Trim(token)) == key)
    case Sweep(now) => expiresAt < now
  }

  // ---- keys of one process never repeat --------------------------------------------

  lemma KeysRepeatOnlyAfterWrap(session: string, m: nat, session': string, n: nat)
    requires KeyAt(session, m) == KeyAt(session', n)
    ensures session == session' && m % COUNTER_RANGE == n % COUNTER_RANGE
  {
    hide Open, Alias, Decimal;
    var a, b := NameAt(session, m), NameAt(session', n);
    AliasSlices(a);
    AliasSlices(b);
    var prefix := |session| + 1;
    assert Body(a)[prefix..] == a.number && Body(b)[prefix..] == b.number;
    DecimalInjective(m % COUNTER_RANGE, n % COUNTER_RANGE);
  }

  lemma NoWrapNoRepeat(m: nat, n: nat)
    requires m < n < m + COUNTER_RANGE
    ensures m % COUNTER_RANGE != n % COUNTER_RANGE
  {
    var r := COUNTER_RANGE;
    assert n / r == m / r || n / r == m / r + 1;
  }

  lemma {:induction false} ScanKeepsOthers(c: Cipher, rows: Rows, session: string, text: string, spans: seq<Span>,
                                           n: nat, now: int, key: Key)
    requires forall s <- spans :: InText(text, s)
    requires forall j :: n <= j < n + |spans| ==> KeyAt(session, j) != key
    ensures var after := ScanRows(c, rows, session, text, spans, n, now);
      (key in after <==> key in rows) && (key in rows ==> after[key] == rows[key])
    decreases spans
  {
    hide KeyAt;
    if spans != [] {
      assert InText(text, spans[0]);
      var value := text[spans[0].start..spans[0].end];
      var row := Row(c.encrypt(n, value), now, now + TTL_MS);
      ScanKeepsOthers(c, rows[KeyAt(session, n) := row], session, text, spans[1..], n + 1, now, key);
    }
  }

  lemma {:induction false} ScanStores(c: Cipher, rows: Rows, session: string, text: string, spans: seq<Span>,
                                      n: nat, now: int, j: nat)
    requires j < |spans| <= COUNTER_RANGE && forall s <- spans :: InText(text, s)
    ensures InText(text, spans[j])
    ensures var after, key := ScanRows(c, rows, session, text, spans, n, now), KeyAt(session, n + j);
      key in after && after[key] == Row(c.encrypt(n + j, text[spans[j].start..spans[j].end]), now, now + TTL_MS)
    decreases spans
  {
    hide KeyAt;
    assert InText(text, spans[0]);
    var row := Row(c.encrypt(n, text[spans[0].start..spans[0].end]), now, now + TTL_MS);
    var next := rows[KeyAt(session, n) := row];
    if j == 0 {
      forall k | n + 1 <= k < n + |spans| ensures KeyAt(session, k) != KeyAt(session, n) {
        NoWrapNoRepeat(n, k);
        if KeyAt(session, k) == KeyAt(session, n) {
          KeysRepeatOnlyAfterWrap(session, k, session, n);
        }
      }
      ScanKeepsOthers(c, next, session, text, spans[1..], n + 1, now, KeyAt(session, n));
    } else {
      ScanStores(c, next, session, text, spans[1..], n + 1, now, j - 1);
    }
  }

  // ---- the life of an alias --------------------------------------------------------

  /** One call keeps an issued alias's row, as it is, exactly if it does not remove it; and
      never brings a row back. */
  lemma OneCall(c: Cipher, st: Store, op: Op, session: string, m: nat)
    requires Legal(op) && m < st.issued && Apply(c, st, op).issued <= m + COUNTER_RANGE
    requires var key := KeyAt(session, m); key in st.rows ==> c.decrypt(st.rows[key].ciphertext).Some?
    ensures var key, after := KeyAt(session, m), Apply(c, st, op).rows;
      && (key in after ==> key in st.rows && after[key] == st.rows[key])
      && (key in st.rows ==> (key in after <==> !Removes(op, key, st.rows[key].expiresAt)))
  {
    hide KeyAt, TokensFrom, TakeKey, Trim;
    var key := KeyAt(session, m);
    if op.Scan? {
      var n := st.issued;
      forall j | n <= j < n + |op.spans| ensures KeyAt(op.session, j) != key {
        NoWrapNoRepeat(m, j);
        if KeyAt(op.session, j) == key {
          KeysRepeatOnlyAfterWrap(op.session, j, session, m);
        }
      }
      ScanKeepsOthers(c, st.rows, op.session, op.text, op.spans, n, op.now, key);
    }
  }

  /** Over any run that issues fewer aliases than the counter has values: the row of an issued
      alias is there at the end, unchanged, exactly if no call removed it. */
  lemma {:induction false} AliasLifeCycle(c: Cipher, st: Store, ops: seq<Op>, session: string, m: nat)
    requires (forall op <- ops :: Legal(op)) && m < st.issued && Run(c, st, ops).issued <= m + COUNTER_RANGE
    requires var key := KeyAt(session, m); key in st.rows ==> c.decrypt(st.rows[key].ciphertext).Some?
    ensures var key, after := KeyAt(session, m), Run(c, st, ops).rows;
      && (key in after ==> key in st.rows && after[key] == st.rows[key])
      && (key in st.rows ==> (key in after <==> forall op <- ops :: !Removes(op, key, st.rows[key].expiresAt)))
    decreases ops
  {
    hide KeyAt, Removes, Apply;
    if ops != [] {
      var next := Apply(c, st, ops[0]);
      assert ops == [ops[0]] + ops[1..];
      assert Run(c, st, ops) == Run(c, next, ops[1..]);
      OneCall(c, st, ops[0], session, m);
      AliasLifeCycle(c, next, ops[1..], session, m);
    }
  }

  // ---- when resolving fails --------------------------------------------------------

  function TokenKey(t: Token): Key {
    Key(t.session, t.alias)
  }

  lemma {:induction false} RevealAllFailsExactly(c: Cipher, rows: Rows, ts: seq<Token>)
    ensures RevealAll(c, rows, ts).Err? <==> exists t <- ts :: Reveal(c, rows, TokenKey(t)).Err?
  {
    if ts != [] {
      RevealAllFailsExactly(c, rows, ts[1..]);
      assert ts[0] in ts && forall t :: t in ts <==> t == ts[0] || t in ts[1..];
      assert Reveal(c, rows, TokenKey(ts[0])).Err? || RevealAll(c, rows, ts).Err? == RevealAll(c, rows, ts[1..]).Err?;
    }
  }

  lemma {:induction false} RevealAllAt(c: Cipher, rows: Rows, ts: seq<Token>, k: nat)
    requires RevealAll(c, rows, ts).Ok? && k < |ts|
    ensures Reveal(c, rows, TokenKey(ts[k])) == Ok(RevealAll(c, rows, ts).value[k])
  {
    var rest := RevealAll(c, rows, ts[1..]);
    assert rest.Ok? && RevealAll(c, rows, ts).value == [Reveal(c, rows, TokenKey(ts[0])).value] + rest.value;
    if k > 0 {
      RevealAllAt(c, rows, ts[1..], k - 1);
      assert ts[1..][k - 1] == ts[k] && RevealAll(c, rows, ts).value[k] == rest.value[k - 1];
    }
  }

  /** All-or-nothing: `resolve` fails exactly if some token of the text has no plaintext in the
      swept table, and otherwise puts its plaintext in the place of every token. */
  lemma ResolveFailsExactly(c: Cipher, rows: Rows, text: string, now: int)
    ensures ResolveText(c, rows, text, now).Err? <==>
      exists t <- TokensFrom(text, 0) :: Reveal(c, Swept(rows, now), TokenKey(t)).Err?
    ensures ResolveText(c, rows, text, now).Ok? ==>
      exists values :: Plaintexts(c, Swept(rows, now), TokensFrom(text, 0), values)
        && RangesFrom(text, TokensFrom(text, 0), 0)
        && ResolveText(c, rows, text, now) == Ok(Splice(text, TokensFrom(text, 0), values, 0))
  {
    hide TokensFrom;
    var swept, ts := Swept(rows, now), TokensFrom(text, 0);
    RevealAllFailsExactly(c, swept, ts);
    TokenRanges(text, 0, 0);
    if RevealAll(c, swept, ts).Ok? {
      forall k | 0 <= k < |ts| ensures Reveal(c, swept, TokenKey(ts[k])) == Ok(RevealAll(c, swept, ts).value[k]) {
        RevealAllAt(c, swept, ts, k);
      }
      assert Plaintexts(c, swept, ts, RevealAll(c, swept, ts).value);
      assert text[0..] == text;
    }
  }

  ghost predicate Plaintexts(c: Cipher, rows: Rows, ts: seq<Token>, values: seq<string>) {
    |values| == |ts| && forall k :: 0 <= k < |ts| ==> Reveal(c, rows, TokenKey(ts[k])) == Ok(values[k])
  }

  /** The two together: a token issued by this process resolves at `later`, and then to the
      secret it was issued for, exactly if no call removed it and it has not expired. */
  lemma RevealedExactlyWhileAlive(c: Cipher, st: Store, ops: seq<Op>, session: string, m: nat, later: int)
    requires (forall op <- ops :: Legal(op)) && m < st.issued && Run(c, st, ops).issued <= m + COUNTER_RANGE
    requires var key := KeyAt(session, m); key in st.rows && c.decrypt(st.rows[key].ciphertext).Some?
    ensures var key := KeyAt(session, m);
      var revealed := Reveal(c, Swept(Run(c, st, ops).rows, later), key);
      && (revealed.Ok? <==>
            later <= st.rows[key].expiresAt && forall op <- ops :: !Removes(op, key, st.rows[key].expiresAt))
      && (revealed.Ok? ==> Some(revealed.value) == c.decrypt(st.rows[key].ciphertext))
  {
    hide KeyAt, Removes, Run;
    AliasLifeCycle(c, st, ops, session, m);
  }

  /** A taken alias never resolves again. */
  lemma TakenIsGone(c: Cipher, st: Store, token: string, now: int, ops: seq<Op>, session: string, m: nat, text: string,
                    later: int)
    requires m < st.issued && Trim(token) == KeyAt(session, m).alias && session != ""
    requires TakeValue(c, st.rows, token, now).Ok?
    requires forall op <- ops :: Legal(op)
    requires Run(c, Apply(c, st, Take(token, now)), ops).issued <= m + COUNTER_RANGE
    requires exists t <- TokensFrom(text, 0) :: TokenKey(t) == KeyAt(session, m)
    ensures ResolveText(c, Run(c, Apply(c, st, Take(token, now)), ops).rows, text, later).Err?
  {
    hide TokensFrom, Alias, ResolveText, Run;
    var taken := Apply(c, st, Take(token, now));
    TakeKeyOnlyOfPrinted(token);
    AliasInjective(TakeKey(token).value, NameAt(session, m));
    assert KeyAt(session, m) !in taken.rows;
    AliasLifeCycle(c, taken, ops, session, m);
    ResolveFailsExactly(c, Run(c, taken, ops).rows, text, later);
  }

  // ---- taking one alias ------------------------------------------------------------

  /** A token with outer spaces or without, read as the alias it is. */
  lemma TakeKeyAround(token: string, name: AliasName)
    requires WellFormed(name) && Trim(token) == Alias(name)
    ensures TakeKey(token) == Some(name)
  {
    hide Alias, Trim, TokenRest;
    AliasIsTrimmed(name);
    TakeKeyOfPrinted(name);
  }

  /** Tokens are refused as malformed exactly if they are, but for outer spaces, no alias of any
      session and number; nothing else is. */
  lemma MalformedExactly(c: Cipher, rows: Rows, token: string, now: int)
    ensures var r := TakeValue(c, rows, token, now);
      && (r == Err(MalformedToken(Trim(token))) <==> forall session, number ::
            session != "" && number != "" && AllDigits(number) ==>
            Trim(token) != "{{REDACTED:" + session + ":" + number + "}}")
      && (r.Err? && r.error.MalformedToken? ==> r.error.token == Trim(token))
  {
    hide Trim, TokenRest, ParseRest, Alias;
    if TakeKey(token).Some? {
      TakeKeyOnlyOfPrinted(token);
      AliasSpelled(TakeKey(token).value);
    } else {
      forall session, number | session != "" && number != "" && AllDigits(number)
        ensures Trim(token) != "{{REDACTED:" + session + ":" + number + "}}"
      {
        AliasSpelled(AliasName(session, number));
        if Trim(token) == Alias(AliasName(session, number)) {
          TakeKeyAround(token, AliasName(session, number));
        }
      }
    }
  }

  lemma AliasSpelled(name: AliasName)
    ensures Alias(name) == "{{REDACTED:" + name.session + ":" + name.number + "}}"
  {
  }

  /** In every state that a process reaches, taking the token of an alias it issued succeeds, and
      then returns the secret it was issued for, exactly if no call removed it and it has not
      expired. */
  lemma TakenExactlyWhileAlive(c: Cipher, st: Store, ops: seq<Op>, session: string, m: nat, token: string, later: int)
    requires (forall op <- ops :: Legal(op)) && m < st.issued && Run(c, st, ops).issued <= m + COUNTER_RANGE
    requires var key := KeyAt(session, m); key in st.rows && c.decrypt(st.rows[key].ciphertext).Some?
    requires Trim(token) == KeyAt(session, m).alias && session != ""
    ensures var key := KeyAt(session, m);
      var taken := TakeValue(c, Run(c, st, ops).rows, token, later);
      && (taken.Ok? <==>
            later <= st.rows[key].expiresAt && forall op <- ops :: !Removes(op, key, st.rows[key].expiresAt))
      && (taken.Ok? ==> Some(taken.value) == c.decrypt(st.rows[key].ciphertext))
  {
    hide Alias, Removes, Run, Trim, TakeKey, Reveal;
    RevealedExactlyWhileAlive(c, st, ops, session, m, later);
    TakeKeyAround(token, NameAt(session, m));
  }

  /** What a take does to the table: a malformed token changes nothing; any other call drops the rows
      that have expired; and only one that returns a secret drops that secret's row as well. */
  lemma TakeDropsExactly(c: Cipher, rows: Rows, token: string, now: int)
    ensures var r, after := TakeValue(c, rows, token, now), TakeRows(c, rows, token, now);
      && (forall k :: k in after ==> k in rows && after[k] == rows[k])
      && (r.Err? && r.error.MalformedToken? ==> after == rows)
      && (r.Err? && !r.error.MalformedToken? ==> forall k <- rows :: k in after <==> now <= rows[k].expiresAt)
      && (r.Ok? ==> exists key <- rows ::
            && key.alias == Trim(token) && c.decrypt(rows[key].ciphertext) == Some(r.value)
            && forall k <- rows :: k in after <==> now <= rows[k].expiresAt && k != key)
  {
    hide Trim, TakeKey;
    if TakeValue(c, rows, token, now).Ok? {
      var key := Key(TakeKey(token).value.session, Trim(token));
      assert key in rows;
    }
  }

  // ---- the round trip --------------------------------------------------------------

  lemma SliceHasNone(text: string, pat: string, lo: nat, hi: nat)
    requires lo <= hi <= |text| && !Contains(text, pat)
    ensures !Contains(text[lo..hi], pat)
  {
    hide MatchesAt;
    forall i | MatchesAt(text[lo..hi], pat, i) ensures false {
      MatchBounds(text[lo..hi], pat, i);
      MatchInSlice(text, lo, hi, pat, lo + i);
    }
  }

  lemma NoTokensIn(text: string, i: nat)
    requires i <= |text| && !Contains(text[i..], Open())
    ensures TokensFrom(text, i) == []
  {
    hide Open, MatchesAt;
    assert text[i..|text|] == text[i..];
    if j: nat :| i <= j && MatchesAt(text, Open(), j) {
      MatchBounds(text, Open(), j);
      MatchInSlice(text, i, |text|, Open(), j);
    }
  }

  /** The finder, run over a rewritten text, finds exactly the aliases the scan printed, and
      splicing the secrets back in gives the original. */
  lemma {:induction false} RewrittenTokens(text: string, spans: seq<Span>, session: string, n: nat, last: nat,
                                           out: string, i: nat, values: seq<string>)
    requires SpansFrom(text, spans, last) && !Contains(text, Open())
    requires session != "" && !Contains(session, CLOSE)
    requires i <= |out| && out[i..] == ScanText(session, text, spans, n, last)
    requires |values| == |spans| && forall k :: 0 <= k < |spans| ==>
      spans[k].start <= spans[k].end <= |text| && values[k] == text[spans[k].start..spans[k].end]
    ensures var ts := TokensFrom(out, i);
      && |ts| == |spans| && RangesFrom(out, ts, i)
      && (forall k :: 0 <= k < |ts| ==> TokenKey(ts[k]) == KeyAt(session, n + k))
      && Splice(out, ts, values, i) == text[last..]
    decreases spans
  {
    hide TokensFrom, Contains, Alias, Open, NameAt, KeyAt;
    if spans == [] {
      SliceHasNone(text, Open(), last, |text|);
      assert text[last..|text|] == text[last..];
      NoTokensIn(out, i);
    } else {
      var gap := text[last..spans[0].start];
      var end := i + |gap| + |Alias(NameAt(session, n))|;
      FirstRewritten(text, spans, session, n, last, out, i);
      RewrittenTokens(text, spans[1..], session, n + 1, spans[0].end, out, end, values[1..]);
      TokenInFront(out, i, i + |gap|, end, session, n, TokensFrom(out, end), values);
      assert text[last..] == gap + values[0] + text[spans[0].end..];
    }
  }

  /** One more token at the front of a list, and what splicing then yields. */
  lemma TokenInFront(out: string, i: nat, at: nat, end: nat, session: string, n: nat, rest: seq<Token>,
                     values: seq<string>)
    requires i <= at <= end <= |out| && end == at + |Alias(NameAt(session, n))|
    requires values != [] && |rest| == |values| - 1 && RangesFrom(out, rest, end)
    requires forall k :: 0 <= k < |rest| ==> TokenKey(rest[k]) == KeyAt(session, n + 1 + k)
    ensures var ts := [Token(at, end, session, Alias(NameAt(session, n)))] + rest;
      && RangesFrom(out, ts, i)
      && Splice(out, ts, values, i) == out[i..at] + values[0] + Splice(out, rest, values[1..], end)
      && forall k :: 0 <= k < |ts| ==> TokenKey(ts[k]) == KeyAt(session, n + k)
  {
    hide Alias, NameAt;
    var ts := [Token(at, end, session, Alias(NameAt(session, n)))] + rest;
    assert ts[1..] == rest;
    forall k | 0 <= k < |ts| ensures TokenKey(ts[k]) == KeyAt(session, n + k) {
      if k > 0 {
        assert ts[k] == rest[k - 1];
      }
    }
  }

  /** The first alias is the first token found, and the rest of the text follows it. */
  lemma FirstRewritten(text: string, spans: seq<Span>, session: string, n: nat, last: nat, out: string, i: nat)
    requires spans != [] && SpansFrom(text, spans, last) && !Contains(text, Open())
    requires session != "" && !Contains(session, CLOSE)
    requires i <= |out| && out[i..] == ScanText(session, text, spans, n, last)
    ensures var gap, name := text[last..spans[0].start], NameAt(session, n);
      var at, end := i + |gap|, i + |gap| + |Alias(name)|;
      && end <= |out| && out[i..at] == gap && name.session == session
      && out[end..] == ScanText(session, text, spans[1..], n + 1, spans[0].end)
      && TokensFrom(out, i) == [Token(at, end, session, Alias(name))] + TokensFrom(out, end)
  {
    hide TokensFrom, Contains, Alias, Open, AliasAt, MatchesAt, Decimal, Printable;
    var gap, name := text[last..spans[0].start], NameAt(session, n);
    var at := i + |gap|;
    SplitTail(out, i, gap, Alias(name), ScanText(session, text, spans[1..], n + 1, spans[0].end));
    AliasAtIsSlice(out, at, name);
    SliceHasNone(text, Open(), last, spans[0].start);
    NameIsPrintable(session, n);
    TokensAfterGap(out, i, at, name);
  }

  lemma NameIsPrintable(session: string, n: nat)
    requires session != "" && !Contains(session, CLOSE)
    ensures Printable(NameAt(session, n))
  {
    hide Contains, Decimal;
  }

  lemma SplitTail(out: string, i: nat, gap: string, alias: string, rest: string)
    requires i <= |out| && out[i..] == gap + alias + rest
    ensures var at, end := i + |gap|, i + |gap| + |alias|;
      end <= |out| && out[i..at] == gap && MatchesAt(out, alias, at) && out[end..] == rest
  {
    var at, end := i + |gap|, i + |gap| + |alias|;
    var tail := out[i..];
    assert forall k :: 0 <= k < |tail| ==> tail[k] == out[i + k];
    assert out[i..at] == tail[..|gap|] && out[at..end] == tail[|gap|..|gap| + |alias|]
        && out[end..] == tail[|gap| + |alias|..];
    MatchIsSlice(out, alias, at);
  }

  lemma {:induction false} RevealAllGives(c: Cipher, rows: Rows, ts: seq<Token>, values: seq<string>)
    requires |values| == |ts|
    requires forall k :: 0 <= k < |ts| ==> Reveal(c, rows, TokenKey(ts[k])) == Ok(values[k])
    ensures RevealAll(c, rows, ts) == Ok(values)
  {
    if ts != [] {
      assert Reveal(c, rows, TokenKey(ts[0])) == Ok(values[0]);
      assert forall k :: 0 <= k < |ts| - 1 ==> ts[1..][k] == ts[k + 1] && values[1..][k] == values[k + 1];
      RevealAllGives(c, rows, ts[1..], values[1..]);
      assert values == [values[0]] + values[1..];
    }
  }

  /** The aliases of one scan survive a run that neither expires nor takes them. */
  lemma ScannedStaysRevealed(c: Cipher, st: Store, scan: Op, ops: seq<Op>, j: nat, later: int)
    requires Inverse(c) && scan.Scan? && Legal(scan) && j < |scan.spans| && forall op <- ops :: Legal(op)
    requires Run(c, Apply(c, st, scan), ops).issued <= st.issued + COUNTER_RANGE
    requires later <= scan.now + TTL_MS
    requires forall op <- ops :: !Removes(op, KeyAt(scan.session, st.issued + j), scan.now + TTL_MS)
    ensures InText(scan.text, scan.spans[j])
    ensures Reveal(c, Swept(Run(c, Apply(c, st, scan), ops).rows, later), KeyAt(scan.session, st.issued + j))
         == Ok(scan.text[scan.spans[j].start..scan.spans[j].end])
  {
    hide KeyAt, Removes, Run, SpansFrom, ScanRows;
    var next := Apply(c, st, scan);
    ScanStores(c, st.rows, scan.session, scan.text, scan.spans, st.issued, scan.now, j);
    AliasLifeCycle(c, next, ops, scan.session, st.issued + j);
  }

  /** Taking an alias of a scan, after any run that neither expires nor takes it, returns the very
      text it stands for; outer spaces do not matter. */
  lemma ScanThenTake(c: Cipher, st: Store, scan: Op, ops: seq<Op>, j: nat, token: string, later: int)
    requires Inverse(c) && scan.Scan? && Legal(scan) && j < |scan.spans| && forall op <- ops :: Legal(op)
    requires Run(c, Apply(c, st, scan), ops).issued <= st.issued + COUNTER_RANGE
    requires later <= scan.now + TTL_MS && scan.session != ""
    requires forall op <- ops :: !Removes(op, KeyAt(scan.session, st.issued + j), scan.now + TTL_MS)
    requires Trim(token) == KeyAt(scan.session, st.issued + j).alias
    ensures InText(scan.text, scan.spans[j])
    ensures TakeValue(c, Run(c, Apply(c, st, scan), ops).rows, token, later)
         == Ok(scan.text[scan.spans[j].start..scan.spans[j].end])
  {
    hide Alias, Removes, Run, Trim, TakeKey, Reveal, Apply, SpansFrom;
    ScannedStaysRevealed(c, st, scan, ops, j, later);
    TakeKeyAround(token, NameAt(scan.session, st.issued + j));
  }

  /** The report of a scan: for every span the printed alias, under the session, made now and
      good for three hours; and under that alias the table has a row with those very times. */
  lemma ReportedAsStored(c: Cipher, st: Store, scan: Op, j: nat)
    requires scan.Scan? && Legal(scan) && j < |scan.spans| <= COUNTER_RANGE
    ensures var aliases := ScanAliases(scan.session, st.issued, |scan.spans|, scan.now);
      var rows, key := Apply(c, st, scan).rows, Key(scan.session, aliases[j].alias);
      && |aliases| == |scan.spans|
      && aliases[j].alias
           == "{{REDACTED:" + scan.session + ":" + Decimal((st.issued + j) % 0x1_0000_0000_0000_0000) + "}}"
      && aliases[j].session == scan.session && aliases[j].createdAt == scan.now
      && aliases[j].expiresAt == scan.now + 10_800_000
      && key in rows && rows[key].createdAt == scan.now && rows[key].expiresAt == scan.now + 10_800_000
  {
    hide Decimal, ScanRows, SpansFrom;
    ScanStores(c, st.rows, scan.session, scan.text, scan.spans, st.issued, scan.now, j);
    AliasSpelled(NameAt(scan.session, st.issued + j));
  }

  /** `resolve` undoes `scan_and_replace`, whatever scans, resolves, sweeps and takes of other
      aliases come in between, until the aliases expire. */
  lemma ScanThenResolve(c: Cipher, st: Store, scan: Op, ops: seq<Op>, later: int)
    requires Inverse(c) && scan.Scan? && Legal(scan) && forall op <- ops :: Legal(op)
    requires !Contains(scan.text, Open()) && scan.session != "" && !Contains(scan.session, CLOSE)
    requires Run(c, Apply(c, st, scan), ops).issued <= st.issued + COUNTER_RANGE
    requires later <= scan.now + TTL_MS && forall op <- ops :: op.now <= scan.now + TTL_MS
    requires forall op, k :: op in ops && op.Take? && st.issued <= k < st.issued + |scan.spans| ==>
      Trim(op.token) != KeyAt(scan.session, k).alias
    ensures var out := ScanText(scan.session, scan.text, scan.spans, st.issued, 0);
      ResolveText(c, Run(c, Apply(c, st, scan), ops).rows, out, later) == Ok(scan.text)
  {
    hide Apply, Run, Contains, Open, KeyAt, ScanText, Reveal, TokensFrom, SpansFrom;
    var text, spans, n := scan.text, scan.spans, st.issued;
    var out := ScanText(scan.session, text, spans, n, 0);
    var rows := Run(c, Apply(c, st, scan), ops).rows;
    assert forall k :: 0 <= k < |spans| ==> InText(text, spans[k]);
    var values := seq(|spans|, k requires 0 <= k < |spans| => text[spans[k].start..spans[k].end]);
    assert out[0..] == out && text[0..] == text;
    RewrittenTokens(text, spans, scan.session, n, 0, out, 0, values);
    var ts := TokensFrom(out, 0);
    forall k | 0 <= k < |ts| ensures Reveal(c, Swept(rows, later), TokenKey(ts[k])) == Ok(values[k]) {
      NotRemoved(scan, ops, n, k);
      ScannedStaysRevealed(c, st, scan, ops, k, later);
    }
    RevealAllGives(c, Swept(rows, later), ts, values);
    if ts == [] {
      assert spans == [];
      EmptySplice(out, values, text);
    }
  }

  lemma EmptySplice(out: string, values: seq<string>, text: string)
    requires values == [] && Splice(out, [], values, 0) == text[0..]
    ensures out == text
  {
    assert out[0..] == out && text[0..] == text;
  }

  lemma NotRemoved(scan: Op, ops: seq<Op>, n: nat, j: nat)
    requires scan.Scan? && j < |scan.spans| && forall op <- ops :: op.now <= scan.now + TTL_MS
    requires forall op, k :: op in ops && op.Take? && n <= k < n + |scan.spans| ==>
        Trim(op.token) != KeyAt(scan.session, k).alias
    ensures forall op <- ops :: !Removes(op, KeyAt(scan.session, n + j), scan.now + TTL_MS)
  {
    hide KeyAt, TokensFrom, TakeKey, Trim;
  }
}
