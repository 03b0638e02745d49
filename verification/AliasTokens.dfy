/** Alias tokens `{{REDACTED:<session>:<n>}}`: the printer, the left-to-right finder that
    `resolve` uses, and the separate one-token parser that `take_alias_value` uses. */
module AliasTokens {
  import opened Text

  const CLOSE: string := "}}"

  /** The fixed prefix of every alias. A function, so that proofs can hide its letters. */
  function Open(): (r: string)
    ensures |r| == 11 && '}' !in r
  {
    "{{REDACTED:"
  }

  /** The two variable parts of an alias: session id and printed counter. */
  datatype AliasName = AliasName(session: string, number: string)

  datatype Token = Token(start: nat, end: nat, session: string, alias: string)

  function Alias(name: AliasName): (r: string)
    ensures |r| == 11 + |name.session| + 1 + |name.number| + 2
  {
    Open() + Body(name) + CLOSE
  }

  function Body(name: AliasName): string {
    name.session + ":" + name.number
  }

  lemma AliasSlices(name: AliasName)
    ensures var a := Alias(name);
      a[..11] == Open() && a[11..|a| - 2] == Body(name) && a[|a| - 2..] == CLOSE
  {
    hide Open, Body;
    Sandwich(Open(), Body(name), CLOSE);
  }

  predicate WellFormed(name: AliasName) {
    name.session != "" && name.number != "" && AllDigits(name.number)
  }

  /** Executable `contains`. */
  predicate Has(text: string, pat: string)
    ensures Has(text, pat) <==> Contains(text, pat)
  {
    FindFrom(text, pat, 0).Some?
  }

  predicate Printable(name: AliasName) {
    WellFormed(name) && !Has(name.session, CLOSE)
  }

  /** `name` is printed in `text` from `at` on. */
  ghost predicate AliasAt(text: string, at: nat, name: AliasName) {
    && MatchesAt(text, Open(), at)
    && MatchesAt(text, name.session, at + 11)
    && MatchesAt(text, ":", at + 11 + |name.session|)
    && MatchesAt(text, name.number, at + 12 + |name.session|)
    && MatchesAt(text, CLOSE, at + 12 + |name.session| + |name.number|)
  }

  lemma AliasAtIsSlice(text: string, at: nat, name: AliasName)
    ensures AliasAt(text, at, name) <==> MatchesAt(text, Alias(name), at)
  {
    hide Alias, AliasAt, MatchesAt;
    var a, n := Alias(name), |name.session|;
    AliasSlices(name);
    assert a[..11] + a[11..|a| - 2] + a[|a| - 2..] == a;
    MatchesJoin(text, at, Open(), Body(name));
    MatchesJoin(text, at, Open() + Body(name), CLOSE);
    MatchesJoin(text, at + 11, name.session + ":", name.number);
    MatchesJoin(text, at + 11, name.session, ":");
    AliasAtParts(text, at, name);
  }

  lemma AliasAtParts(text: string, at: nat, name: AliasName)
    ensures AliasAt(text, at, name) <==>
      && MatchesAt(text, Open(), at) && MatchesAt(text, name.session, at + 11)
      && MatchesAt(text, ":", at + 11 + |name.session|)
      && MatchesAt(text, name.number, at + 12 + |name.session|)
      && MatchesAt(text, CLOSE, at + 12 + |name.session| + |name.number|)
  {
    hide MatchesAt;
  }

  lemma MatchesJoin(text: string, at: nat, a: string, b: string)
    ensures MatchesAt(text, a + b, at) <==> MatchesAt(text, a, at) && MatchesAt(text, b, at + |a|)
  {
    if MatchesAt(text, a + b, at) {
      forall k | 0 <= k < |b| ensures text[at + |a| + k] == b[k] {
        assert text[at + (|a| + k)] == (a + b)[|a| + k];
      }
      forall k | 0 <= k < |a| ensures text[at + k] == a[k] {
        assert text[at + k] == (a + b)[k];
      }
    }
  }

  /** The session and number of the text between Open and CLOSE, if it has both. */
  function ParseRest(rest: string): (r: Option<AliasName>)
    ensures r.Some? ==> WellFormed(r.value) && rest == Body(r.value)
  {
    match SplitLast(rest, ':')
    case None => None
    case Some((session, number)) =>
      if WellFormed(AliasName(session, number)) then Some(AliasName(session, number)) else None
  }

  lemma ParseRestOfPrinted(name: AliasName)
    requires WellFormed(name)
    ensures ParseRest(Body(name)) == Some(name)
  {
    SplitLastOfJoined(name.session, ':', name.number);
  }

  // ---- the finder ------------------------------------------------------------------

  lemma CloseIsPastOpen(text: string, start: nat, close: nat)
    requires MatchesAt(text, Open(), start) && MatchesAt(text, CLOSE, close) && start <= close
    ensures start + 11 <= close
  {
    hide Open;
    assert text[close + 0] == CLOSE[0];
    forall k | start <= k < start + 11 ensures text[k] != CLOSE[0] {
      assert text[start + (k - start)] == Open()[k - start];
    }
  }

  /** The next candidate: the first Open from `i` on, up to and including the first CLOSE
      after it. */
  function NextCandidate(text: string, i: nat): (r: Option<(nat, nat)>)
    requires i <= |text|
    ensures r.Some? ==> i <= r.value.0 && r.value.0 + 13 <= r.value.1 <= |text|
    ensures r.Some? ==> MatchesAt(text, Open(), r.value.0) && MatchesAt(text, CLOSE, r.value.1 - 2)
  {
    match FindFrom(text, Open(), i)
    case None => None
    case Some(start) =>
      match FindFrom(text, CLOSE, start)
      case None => None
      case Some(close) => CloseIsPastOpen(text, start, close); Some((start, close + 2))
  }

  /** `inner.strip_prefix("REDACTED:")` for the candidate's inner text. */
  function CandidateRest(candidate: string): (r: Option<string>)
    requires |candidate| >= 13
    ensures candidate[..11] == Open() ==> r == Some(candidate[11..|candidate| - 2])
  {
    assert Open()[2..] == "REDACTED:";
    assert candidate[..11] == Open() ==> candidate[2..|candidate| - 2][..9] == candidate[..11][2..];
    StripPrefix(candidate[2..|candidate| - 2], "REDACTED:")
  }

  /** What the finder makes of one candidate. */
  function CandidateToken(text: string, start: nat, end: nat): (r: Option<Token>)
    requires start + 13 <= end <= |text|
    ensures r.Some? ==> r.value.start == start && r.value.end == end
  {
    var candidate := text[start..end];
    match CandidateRest(candidate)
    case None => None
    case Some(rest) =>
      match ParseRest(rest)
      case None => None
      case Some(name) => Some(Token(start, end, name.session, candidate))
  }

  /** The tokens from index `i` on, left to right. */
  function TokensFrom(text: string, i: nat): seq<Token>
    requires i <= |text|
    decreases |text| - i
  {
    match NextCandidate(text, i)
    case None => []
    case Some((start, end)) =>
      match CandidateToken(text, start, end)
      case None => TokensFrom(text, end)
      case Some(t) => [t] + TokensFrom(text, end)
  }

  /** `find_alias_tokens` */
  method FindAliasTokens(text: string) returns (out: seq<Token>)
    ensures out == TokensFrom(text, 0)
  {
    hide NextCandidate, CandidateToken;
    out := [];
    var i := 0;
    while true
      invariant i <= |text|
      invariant TokensFrom(text, 0) == out + TokensFrom(text, i)
      decreases |text| - i
    {
      ghost var before := out;
      var next := NextCandidate(text, i);
      if next.None? { break; }
      var (start, end) := next.value;
      var token := CandidateToken(text, start, end);
      if token.Some? {
        out := out + [token.value];
        assert before + ([token.value] + TokensFrom(text, end)) == out + TokensFrom(text, end);
      }
      i := end;
    }
  }

  // ---- what the finder returns -----------------------------------------------------

  ghost predicate PrintedForm(text: string, t: Token) {
    t.start <= t.end <= |text| && t.alias == text[t.start..t.end]
    && exists number :: WellFormed(AliasName(t.session, number)) && t.alias == Alias(AliasName(t.session, number))
  }

  lemma CandidateIsPrinted(text: string, start: nat, end: nat)
    requires start + 13 <= end <= |text|
    requires MatchesAt(text, Open(), start) && MatchesAt(text, CLOSE, end - 2)
    requires CandidateToken(text, start, end).Some?
    ensures PrintedForm(text, CandidateToken(text, start, end).value)
  {
    hide Open, CandidateRest, MatchesAt;
    MatchIsSlice(text, Open(), start);
    MatchIsSlice(text, CLOSE, end - 2);
    var candidate := text[start..end];
    assert candidate[..11] == Open();
    assert candidate[|candidate| - 2..] == CLOSE;
    var rest := CandidateRest(candidate).value;
    var name := ParseRest(rest).value;
    hide Body;
    assert candidate == Open() + rest + CLOSE;
    assert candidate == Alias(name);
    assert WellFormed(AliasName(name.session, name.number));
  }

  /** Ranges come out sorted, disjoint and in bounds, and each is the printed form of the
      session it reports and some decimal number. */
  lemma {:induction false} TokensAreSortedPrintedForms(text: string, i: nat)
    requires i <= |text|
    ensures forall k :: 0 <= k < |TokensFrom(text, i)| ==>
      i <= TokensFrom(text, i)[k].start && PrintedForm(text, TokensFrom(text, i)[k])
    ensures forall k, m :: 0 <= k < m < |TokensFrom(text, i)| ==>
      TokensFrom(text, i)[k].end <= TokensFrom(text, i)[m].start
    decreases |text| - i
  {
    hide NextCandidate, CandidateToken;
    if NextCandidate(text, i).Some? {
      var (start, end) := NextCandidate(text, i).value;
      TokensAreSortedPrintedForms(text, end);
      if CandidateToken(text, start, end).Some? {
        CandidateIsPrinted(text, start, end);
      }
    }
  }

  // ---- recognising a printed alias -------------------------------------------------

  lemma OpenIsBorderless()
    ensures Borderless(Open())
  {
    forall k | 0 < k < 11 ensures Open()[k..] != Open()[..11 - k] {
      var last := 10 - k;
      assert Open()[k..][last] == ':' && Open()[..11 - k][last] == Open()[last] != ':';
    }
  }

  /** The first CLOSE after the start of a printable alias is the alias's own. */
  lemma CloseEndsAlias(text: string, at: nat, name: AliasName)
    requires Printable(name) && AliasAt(text, at, name)
    ensures FindFrom(text, CLOSE, at) == Some(at + |Alias(name)| - 2)
  {
    hide Open, FindFrom;
    var sess, num := at + 11, at + 12 + |name.session|;
    var end := at + |Alias(name)| - 2;
    assert text[num - 1] == ":"[0];
    forall j | at <= j < end ensures !MatchesAt(text, CLOSE, j) {
      if j < sess {
        assert text[j] == Open()[j - at] != CLOSE[0];
      } else if j + 2 <= num - 1 {
        MatchInSlice(text, sess, num - 1, CLOSE, j);
        MatchIsSlice(text, name.session, sess);
      } else if j < num {
        assert CLOSE[num - 1 - j] != ':';
      } else {
        assert text[j] == name.number[j - num] != CLOSE[0];
      }
    }
    FoundFirst(text, CLOSE, at, end);
  }

  lemma CandidateOfPrinted(text: string, at: nat, name: AliasName)
    requires WellFormed(name) && AliasAt(text, at, name)
    ensures var end := at + |Alias(name)|;
      CandidateToken(text, at, end) == Some(Token(at, end, name.session, Alias(name)))
  {
    var a := Alias(name);
    hide Open, CandidateRest, AliasAt, MatchesAt, ParseRest, Alias, Body, WellFormed;
    AliasAtIsSlice(text, at, name);
    AliasSlices(name);
    ParseRestOfPrinted(name);
    MatchIsSlice(text, a, at);
  }

  /** One alias after a gap without Open is found exactly, and the search goes on after it. */
  lemma TokensAfterGap(text: string, i: nat, at: nat, name: AliasName)
    requires i <= at && AliasAt(text, at, name) && Printable(name)
    requires !Contains(text[i..at], Open())
    ensures at + |Alias(name)| <= |text|
    ensures var end := at + |Alias(name)|;
      TokensFrom(text, i) == [Token(at, end, name.session, Alias(name))] + TokensFrom(text, end)
  {
    hide Open, FindFrom, Alias, Contains, Borderless, CandidateToken, WellFormed;
    OpenIsBorderless();
    FoundAfterGap(text, Open(), i, at);
    CloseEndsAlias(text, at, name);
    CandidateOfPrinted(text, at, name);
  }

  // ---- the finder, candidate by candidate ------------------------------------------

  /** From `i` on, the first opening is at `start` and the first closing after it ends at `end`. */
  ghost predicate FirstCandidate(text: string, i: nat, start: nat, end: nat) {
    && i <= start <= end - 2 && end <= |text|
    && MatchesAt(text, "{{REDACTED:", start) && (forall j :: i <= j < start ==> !MatchesAt(text, "{{REDACTED:", j))
    && MatchesAt(text, "}}", end - 2) && (forall j :: start <= j < end - 2 ==> !MatchesAt(text, "}}", j))
  }

  /** The text is the alias of this session and number. */
  predicate IsPrinted(text: string, session: string, number: string) {
    session != "" && number != "" && AllDigits(number) && text == "{{REDACTED:" + session + ":" + number + "}}"
  }

  lemma FirstCandidateIsNext(text: string, i: nat, start: nat, end: nat)
    requires FirstCandidate(text, i, start, end)
    ensures NextCandidate(text, i) == Some((start, end))
  {
    hide MatchesAt, FindFrom;
    FoundFirst(text, Open(), i, start);
    FoundFirst(text, CLOSE, start, end - 2);
  }

  /** The text between opening and closing decides what a candidate is. */
  lemma CandidateIsRest(text: string, start: nat, end: nat)
    requires start + 13 <= end <= |text| && MatchesAt(text, Open(), start) && MatchesAt(text, CLOSE, end - 2)
    ensures var c := text[start..end];
      && c == Open() + c[11..|c| - 2] + CLOSE
      && CandidateRest(c) == Some(c[11..|c| - 2])
  {
    hide Open, MatchesAt;
    var c := text[start..end];
    MatchIsSlice(text, Open(), start);
    MatchIsSlice(text, CLOSE, end - 2);
    assert c[..11] == text[start..start + 11] && c[|c| - 2..] == text[end - 2..end];
    assert c == c[..11] + c[11..|c| - 2] + c[|c| - 2..];
  }

  lemma CandidateParses(text: string, start: nat, end: nat, name: AliasName)
    requires start + 13 <= end <= |text| && MatchesAt(text, Open(), start) && MatchesAt(text, CLOSE, end - 2)
    ensures WellFormed(name) && text[start..end] == Alias(name) ==>
      CandidateToken(text, start, end) == Some(Token(start, end, name.session, text[start..end]))
  {
    hide Open, Alias, WellFormed, Body, MatchesAt, CandidateRest, ParseRest;
    CandidateIsRest(text, start, end);
    AliasSlices(name);
    if WellFormed(name) && text[start..end] == Alias(name) {
      ParseRestOfPrinted(name);
    }
  }

  lemma ParsedCandidate(text: string, start: nat, end: nat)
    requires start + 13 <= end <= |text| && MatchesAt(text, Open(), start) && MatchesAt(text, CLOSE, end - 2)
    requires CandidateToken(text, start, end).Some?
    ensures exists n :: WellFormed(n) && text[start..end] == Alias(n)
  {
    hide Open, Alias, WellFormed, Body, MatchesAt, CandidateRest, ParseRest;
    CandidateIsRest(text, start, end);
    var c := text[start..end];
    AliasIsJoined(ParseRest(c[11..|c| - 2]).value);
  }

  lemma AliasIsJoined(name: AliasName)
    ensures Alias(name) == Open() + Body(name) + CLOSE
  {
  }

  /** The finder takes the candidates in turn: one that is a printed alias is a token, any other is
      left out, and the search goes on behind either. */
  lemma CandidateDecides(text: string, i: nat, start: nat, end: nat)
    requires FirstCandidate(text, i, start, end)
    ensures forall session, number :: IsPrinted(text[start..end], session, number) ==>
      TokensFrom(text, i) == [Token(start, end, session, text[start..end])] + TokensFrom(text, end)
    ensures (forall session, number :: !IsPrinted(text[start..end], session, number)) ==>
      TokensFrom(text, i) == TokensFrom(text, end)
  {
    hide MatchesAt, NextCandidate, CandidateToken, FirstCandidate;
    FirstCandidateIsNext(text, i, start, end);
    forall session, number | IsPrinted(text[start..end], session, number)
      ensures TokensFrom(text, i) == [Token(start, end, session, text[start..end])] + TokensFrom(text, end)
    {
      CandidateParses(text, start, end, AliasName(session, number));
      assert text[start..end] == Alias(AliasName(session, number));
    }
    if CandidateToken(text, start, end).Some? {
      ParsedCandidate(text, start, end);
      var n :| WellFormed(n) && text[start..end] == Alias(n);
      assert IsPrinted(text[start..end], n.session, n.number);
    }
  }

  /** Without another opening, or without a closing behind it, nothing more is found. */
  lemma NoCandidateLeft(text: string, i: nat)
    requires i <= |text| && forall start, end :: !FirstCandidate(text, i, start, end)
    ensures TokensFrom(text, i) == []
  {
    hide MatchesAt;
    if NextCandidate(text, i).Some? {
      var (start, end) := NextCandidate(text, i).value;
      NextIsFirst(text, i, start, end);
    }
  }

  lemma NextIsFirst(text: string, i: nat, start: nat, end: nat)
    requires i <= |text| && NextCandidate(text, i) == Some((start, end))
    ensures FirstCandidate(text, i, start, end)
  {
    hide MatchesAt;
  }

  // ---- the one-token parser --------------------------------------------------------

  /** `strip_prefix("{{")`, `strip_suffix("}}")`, `strip_prefix("REDACTED:")` in turn. */
  function TokenRest(t: string): (r: Option<string>)
    ensures r.Some? <==> |t| >= 13 && t[..11] == Open() && t[|t| - 2..] == CLOSE
    ensures r.Some? ==> r.value == t[11..|t| - 2]
  {
    assert Open()[..2] == "{{" && Open()[2..] == "REDACTED:";
    match StripPrefix(t, "{{")
    case None => None
    case Some(s) =>
      assert t == "{{" + s;
      match StripSuffix(s, CLOSE)
      case None => None
      case Some(u) =>
        assert s == u + CLOSE && t == "{{" + u + CLOSE;
        assert "REDACTED:" <= u <==> |t| >= 13 && t[..11] == Open();
        StripPrefix(u, "REDACTED:")
  }

  /** The key `take_alias_value` derives from a token, or None for a malformed one. */
  function TakeKey(token: string): Option<AliasName> {
    match TokenRest(Trim(token))
    case None => None
    case Some(rest) => ParseRest(rest)
  }

  lemma AliasIsTrimmed(name: AliasName)
    ensures Trim(Alias(name)) == Alias(name)
  {
    var a := Alias(name);
    AliasSlices(name);
    assert a[0] == a[..11][0] == '{' && a[|a| - 1] == a[|a| - 2..][1] == '}';
    TrimFixesTrimmed(a);
  }

  /** The one-token parser inverts the printer. */
  lemma TakeKeyOfPrinted(name: AliasName)
    requires WellFormed(name)
    ensures TakeKey(Alias(name)) == Some(name)
  {
    hide Open, TokenRest, ParseRest, Alias, Body, Trim, WellFormed;
    AliasIsTrimmed(name);
    ParseRestOfPrinted(name);
    AliasSlices(name);
  }

  /** ... and accepts nothing but printed forms. */
  lemma TakeKeyOnlyOfPrinted(token: string)
    requires TakeKey(token).Some?
    ensures WellFormed(TakeKey(token).value) && Trim(token) == Alias(TakeKey(token).value)
  {
    hide Open, TokenRest, Trim;
    var t := Trim(token);
    assert t == Open() + t[11..|t| - 2] + CLOSE;
  }

  lemma AliasInjective(a: AliasName, b: AliasName)
    requires WellFormed(a) && WellFormed(b) && Alias(a) == Alias(b)
    ensures a == b
  {
    TakeKeyOfPrinted(a);
    TakeKeyOfPrinted(b);
  }

  /** Both parsers give every found token the same table key. */
  lemma FinderAgreesWithTake(text: string, k: nat)
    requires k < |TokensFrom(text, 0)|
    ensures var t := TokensFrom(text, 0)[k];
      TakeKey(t.alias).Some? && TakeKey(t.alias).value.session == t.session && Trim(t.alias) == t.alias
  {
    TokensAreSortedPrintedForms(text, 0);
    hide TakeKey, TokensFrom, Alias;
    var t := TokensFrom(text, 0)[k];
    var number :| WellFormed(AliasName(t.session, number)) && t.alias == Alias(AliasName(t.session, number));
    TakeKeyOfPrinted(AliasName(t.session, number));
    AliasIsTrimmed(AliasName(t.session, number));
  }

  /** Conversely, the finder recognises a trimmed token accepted by the one-token parser,
      whole and under the same session, exactly when the session hides no CLOSE. */
  lemma TakeAgreesWithFinder(token: string)
    requires TakeKey(token).Some? && Trim(token) == token
    ensures var name := TakeKey(token).value;
      TokensFrom(token, 0) == [Token(0, |token|, name.session, token)] <==> !Contains(name.session, CLOSE)
  {
    hide TokensFrom, TakeKey, Alias, Contains, AliasAt, Trim, WellFormed, Open;
    TakeKeyOnlyOfPrinted(token);
    var name := TakeKey(token).value;
    AliasAtIsSlice(token, 0, name);
    if !Contains(name.session, CLOSE) {
      LoneAlias(token, name);
    } else {
      EarlyCloseCutsToken(token, name);
    }
  }

  lemma LoneAlias(token: string, name: AliasName)
    requires AliasAt(token, 0, name) && |token| == |Alias(name)| && Printable(name)
    ensures TokensFrom(token, 0) == [Token(0, |token|, name.session, Alias(name))]
  {
    hide Alias, Contains, AliasAt, Open, Printable, TokensFrom, WellFormed;
    NoOpenInEmpty(token);
    NothingAtEnd(token);
    TokensAfterGap(token, 0, 0, name);
  }

  lemma NoOpenInEmpty(text: string)
    ensures !Contains(text[0..0], Open())
  {
    hide Open;
  }

  lemma NothingAtEnd(text: string)
    ensures TokensFrom(text, |text|) == []
  {
    hide Open, CandidateToken;
    assert !MatchesAt(text, Open(), |text|);
  }

  lemma EarlyCloseCutsToken(token: string, name: AliasName)
    requires AliasAt(token, 0, name) && |token| == |Alias(name)| && Contains(name.session, CLOSE)
    ensures var ts := TokensFrom(token, 0); ts == [] || ts[0].end < |token| || 0 < ts[0].start
  {
    hide TokensFrom, Contains, Open, NextCandidate;
    var j := CloseInSession(token, name);
    CutAt(token, j);
    TokensAreSortedPrintedForms(token, NextCandidate(token, 0).value.1);
    FirstTokenEnds(token);
  }

  lemma CloseInSession(token: string, name: AliasName) returns (j: nat)
    requires AliasAt(token, 0, name) && |token| == |Alias(name)| && Contains(name.session, CLOSE)
    ensures MatchesAt(token, Open(), 0) && MatchesAt(token, CLOSE, j) && j + 2 < |token|
  {
    var i :| MatchesAt(name.session, CLOSE, i);
    MatchIsSlice(token, name.session, 11);
    MatchInSlice(token, 11, 11 + |name.session|, CLOSE, 11 + i);
    j := 11 + i;
  }

  lemma CutAt(token: string, j: nat)
    requires MatchesAt(token, Open(), 0) && MatchesAt(token, CLOSE, j) && j + 2 < |token|
    ensures NextCandidate(token, 0).Some? && NextCandidate(token, 0).value.1 <= j + 2
  {
    hide MatchesAt, Open;
    FoundFirst(token, Open(), 0, 0);
  }

  lemma FirstTokenEnds(text: string)
    requires NextCandidate(text, 0).Some?
    ensures var ts, end := TokensFrom(text, 0), NextCandidate(text, 0).value.1;
      ts == TokensFrom(text, end) || (ts != [] && ts[0].end <= end)
  {
    hide NextCandidate;
  }
}
