/** What the four detectors take for a secret, spelled out: texts written as their pieces joined,
    with the words, marks and lengths themselves. */
module SecretForms {
  import opened Text
  import opened SecretSpans

  // ---- pieces of a text ------------------------------------------------------------

  /** The next piece of `text` after position `p`, when a piece and a rest are known to follow. */
  lemma Piece(text: string, p: nat, piece: string, rest: string)
    requires p <= |text| && text[p..] == piece + rest
    ensures p + |piece| <= |text| && text[p..p + |piece|] == piece && text[p + |piece|..] == rest
    ensures forall k :: p <= k < p + |piece| ==> text[k] == piece[k - p]
  {
    var tail := text[p..];
    assert tail[..|piece|] == piece && tail[|piece|..] == rest;
    forall k | p <= k < p + |piece| ensures text[k] == piece[k - p] {
      assert tail[k - p] == text[k];
    }
  }

  lemma Unpiece(text: string, p: nat, q: nat)
    requires p <= q <= |text|
    ensures text[p..] == text[p..q] + text[q..]
  {
  }

  predicate IsWhite(c: char) {
    c == ' ' || c == '\t' || c == '\n' || c == '\U{000B}' || c == '\U{000C}' || c == '\r'
  }

  predicate IsTokenLetter(c: char) {
    'a' <= c <= 'z' || 'A' <= c <= 'Z' || '0' <= c <= '9' || c == '-' || c == '_'
  }

  predicate AllWhite(s: string) {
    forall k :: 0 <= k < |s| ==> IsWhite(s[k])
  }

  predicate AllToken(s: string) {
    forall k :: 0 <= k < |s| ==> IsTokenLetter(s[k])
  }

  predicate AllValue(s: string) {
    forall k :: 0 <= k < |s| ==> !IsWhite(s[k]) && s[k] != '\'' && s[k] != '"'
  }

  lemma RunExactly(text: string, p: char -> bool, from: nat, piece: string)
    requires from <= |text| && from + |piece| <= |text| && text[from..from + |piece|] == piece
    ensures Run(text, p, from, from + |piece|) <==>
      && (forall k :: 0 <= k < |piece| ==> p(piece[k]))
      && (text[from + |piece|..] == "" || !p(text[from + |piece|..][0]))
  {
    assert forall k :: 0 <= k < |piece| ==> piece[k] == text[from + k];
    assert forall k :: from <= k < from + |piece| ==> text[k] == piece[k - from];
  }

  // ---- assignments -----------------------------------------------------------------

  predicate IsLabel(word: string) {
    || word == "api_key" || word == "apikey" || word == "api-key" || word == "key"
    || word == "token" || word == "secret" || word == "password" || word == "pwd"
  }

  /** `front name gap sep gap2 quote value rest` */
  datatype Assigned = Assigned(front: string, name: string, gap: string, sep: string, gap2: string, quote: string,
                               value: string, rest: string)

  function Spelled(a: Assigned): string {
    a.front + (a.name + AfterName(a))
  }

  function AfterName(a: Assigned): string {
    a.gap + (a.sep + AfterSep(a))
  }

  function AfterSep(a: Assigned): string {
    a.gap2 + (a.quote + AfterQuote(a))
  }

  function AfterQuote(a: Assigned): string {
    a.value + a.rest
  }

  function ValueSpan(a: Assigned): Span {
    var start := |a.front| + |a.name| + |a.gap| + |a.sep| + |a.gap2| + |a.quote|;
    Span(start, start + |a.value|)
  }

  /** The word, each letter of it small or capital. */
  predicate InAnyCase(name: string, word: string) {
    && |name| == |word|
    && forall k :: 0 <= k < |name| ==>
      name[k] == word[k] || ('A' <= name[k] <= 'Z' && word[k] as int == name[k] as int + 32)
  }

  ghost predicate NamesLabel(name: string) {
    exists word :: IsLabel(word) && InAnyCase(name, word)
  }

  lemma LabelsHaveSmallLetters(word: string)
    requires IsLabel(word)
    ensures forall k :: 0 <= k < |word| ==> !IsUpper(word[k])
  {
  }

  lemma NamesLabelExactly(name: string)
    ensures NamesLabel(name) <==> IsLabel(Lower(name))
  {
    hide IsLabel;
    if word :| IsLabel(word) && InAnyCase(name, word) {
      LabelsHaveSmallLetters(word);
      assert Lower(name) == word;
    }
    if IsLabel(Lower(name)) {
      assert InAnyCase(name, Lower(name));
    }
  }

  /** A label in any case, `:` or `=`, white space on either side of it or none, an opening quote of
      either kind or none, and eight or more characters up to white space, a quote or the end. */
  ghost predicate IsAssignment(a: Assigned) {
    && NamesLabel(a.name) && AllWhite(a.gap) && (a.sep == ":" || a.sep == "=") && AllWhite(a.gap2)
    && (a.quote == "" || a.quote == "'" || a.quote == "\"")
    && |a.value| >= 8 && AllValue(a.value)
    && (a.rest == "" || IsWhite(a.rest[0]) || a.rest[0] == '\'' || a.rest[0] == '"')
  }

  lemma LabelsAre(word: string)
    ensures word in Labels() <==> IsLabel(word)
  {
  }

  /** From `from` to `p` is white space, and at `p` something else, if anything. */
  predicate WhiteUpTo(text: string, from: nat, p: nat) {
    && from <= p <= |text| && (forall k :: from <= k < p ==> IsWhite(text[k]))
    && (p < |text| ==> !IsWhite(text[p]))
  }

  lemma SkipsWhite(text: string, from: nat)
    requires from <= |text|
    ensures WhiteUpTo(text, from, SkipSpaces(text, from))
  {
    var s, r := text[from..], TrimStart(text[from..]);
    TrimStartExactly(s);
    var q := SkipSpaces(text, from);
    assert forall k :: from <= k < |text| ==> text[k] == s[k - from];
    assert q < |text| ==> text[q] == s[|s| - |r|..][0];
  }

  lemma WhiteUnique(text: string, from: nat, p: nat, q: nat)
    requires WhiteUpTo(text, from, p) && WhiteUpTo(text, from, q)
    ensures p == q
  {
  }

  lemma SkipSpacesExactly(text: string, from: nat, p: nat)
    requires from <= |text|
    ensures p == SkipSpaces(text, from) <==>
      from <= p <= |text| && AllWhite(text[from..p]) && (p < |text| ==> !IsWhite(text[p]))
  {
    hide SkipSpaces, IsWhite;
    var q := SkipSpaces(text, from);
    SkipsWhite(text, from);
    if from <= p <= |text| {
      assert AllWhite(text[from..p]) <==> forall k :: from <= k < p ==> IsWhite(text[k]) by {
        SliceIsWhite(text, from, p);
      }
      if WhiteUpTo(text, from, p) {
        WhiteUnique(text, from, p, q);
      }
    }
  }

  lemma SliceIsWhite(text: string, lo: nat, hi: nat)
    requires lo <= hi <= |text|
    ensures AllWhite(text[lo..hi]) <==> forall k :: lo <= k < hi ==> IsWhite(text[k])
  {
    hide IsWhite;
    var w := text[lo..hi];
    if AllWhite(w) {
      forall k | lo <= k < hi ensures IsWhite(text[k]) {
        assert w[k - lo] == text[k];
      }
    }
  }

  /** Two pieces and what follows, read off or put together. */
  lemma TwoPieces(text: string, p: nat, x: string, y: string, rest: string)
    requires p <= |text|
    ensures text[p..] == x + (y + rest) <==>
      && p + |x| + |y| <= |text| && text[p..p + |x|] == x && text[p + |x|..p + |x| + |y|] == y
      && text[p + |x| + |y|..] == rest
  {
    var q, r := p + |x|, p + |x| + |y|;
    if text[p..] == x + (y + rest) {
      Piece(text, p, x, y + rest);
      Piece(text, q, y, rest);
    }
    if r <= |text| {
      Unpiece(text, p, q);
      Unpiece(text, q, r);
    }
  }

  /** Where a spelled assignment's pieces stand. */
  ghost predicate Stands(text: string, a: Assigned) {
    HeadStands(text, a) && MiddleStands(text, a) && QuoteStands(text, a) && ValueStands(text, a)
  }

  ghost predicate HeadStands(text: string, a: Assigned) {
    var p1 := |a.front| + |a.name|;
    p1 <= |text| && text[..|a.front|] == a.front && text[|a.front|..p1] == a.name
  }

  ghost predicate MiddleStands(text: string, a: Assigned) {
    var p1 := |a.front| + |a.name|;
    var p2 := p1 + |a.gap|;
    p2 + |a.sep| <= |text| && text[p1..p2] == a.gap && text[p2..p2 + |a.sep|] == a.sep
  }

  ghost predicate QuoteStands(text: string, a: Assigned) {
    var s, p4 := ValueSpan(a), ValueSpan(a).start - |a.quote|;
    s.start <= |text| && text[p4 - |a.gap2|..p4] == a.gap2 && text[p4..s.start] == a.quote
  }

  ghost predicate ValueStands(text: string, a: Assigned) {
    var s := ValueSpan(a);
    s.end <= |text| && text[s.start..s.end] == a.value && text[s.end..] == a.rest
  }

  lemma SpelledHead(text: string, a: Assigned)
    ensures var p1 := |a.front| + |a.name|;
      text == Spelled(a) <==> HeadStands(text, a) && text[p1..] == AfterName(a)
  {
    hide AfterName;
    assert text[0..] == text;
    TwoPieces(text, 0, a.front, a.name, AfterName(a));
  }

  lemma SpelledMiddle(text: string, a: Assigned)
    requires HeadStands(text, a)
    ensures var p1 := |a.front| + |a.name|;
      text[p1..] == AfterName(a) <==> MiddleStands(text, a) && text[p1 + |a.gap| + |a.sep|..] == AfterSep(a)
  {
    hide AfterSep;
    TwoPieces(text, |a.front| + |a.name|, a.gap, a.sep, AfterSep(a));
  }

  lemma SpelledQuote(text: string, a: Assigned)
    requires MiddleStands(text, a)
    ensures text[|a.front| + |a.name| + |a.gap| + |a.sep|..] == AfterSep(a)
      <==> QuoteStands(text, a) && text[ValueSpan(a).start..] == AfterQuote(a)
  {
    hide AfterQuote;
    TwoPieces(text, |a.front| + |a.name| + |a.gap| + |a.sep|, a.gap2, a.quote, AfterQuote(a));
  }

  lemma SpelledValue(text: string, a: Assigned)
    requires ValueSpan(a).start <= |text|
    ensures text[ValueSpan(a).start..] == AfterQuote(a) <==> ValueStands(text, a)
  {
    hide ValueSpan;
    var s := ValueSpan(a);
    ValueSpanLength(a);
    if text[s.start..] == AfterQuote(a) {
      Piece(text, s.start, a.value, a.rest);
    }
    if s.end <= |text| {
      Unpiece(text, s.start, s.end);
    }
  }

  lemma ValueSpanLength(a: Assigned)
    ensures ValueSpan(a).end == ValueSpan(a).start + |a.value|
  {
  }

  lemma SpelledStands(text: string, a: Assigned)
    ensures text == Spelled(a) <==> Stands(text, a)
  {
    hide Spelled, AfterName, AfterSep, AfterQuote, ValueStands;
    SpelledHead(text, a);
    if HeadStands(text, a) {
      SpelledMiddle(text, a);
      if MiddleStands(text, a) {
        SpelledQuote(text, a);
        if QuoteStands(text, a) {
          SpelledValue(text, a);
        }
      }
    }
  }

  lemma SepIsNext(text: string, a: Assigned)
    requires HeadStands(text, a) && MiddleStands(text, a) && IsAssignment(a)
    ensures var p1 := |a.front| + |a.name|;
      var p2 := p1 + |a.gap|;
      SkipSpaces(text, p1) == p2 && p2 < |text| && [text[p2]] == a.sep
  {
    hide NamesLabel, SkipSpaces, HeadStands;
    var p1 := |a.front| + |a.name|;
    var p2 := p1 + |a.gap|;
    assert text[p2] == text[p2..p2 + 1][0] == a.sep[0];
    SkipSpacesExactly(text, p1, p2);
  }

  lemma QuoteIsNext(text: string, a: Assigned)
    requires QuoteStands(text, a) && ValueStands(text, a) && IsAssignment(a)
    ensures var s := ValueSpan(a);
      var p4 := s.start - |a.quote|;
      && p4 - |a.gap2| <= |text| && SkipSpaces(text, p4 - |a.gap2|) == p4 && p4 < |text|
      && (if text[p4] == '\'' || text[p4] == '"' then p4 + 1 else p4) == s.start
  {
    hide NamesLabel, SkipSpaces;
    var s := ValueSpan(a);
    var p4 := s.start - |a.quote|;
    assert text[s.start] == text[s.start..s.end][0] == a.value[0];
    assert a.quote != "" ==> text[p4] == text[p4..s.start][0] == a.quote[0];
    SkipSpacesExactly(text, p4 - |a.gap2|, p4);
  }

  /** Where the value starts, behind separator, spaces and opening quote. */
  lemma ValueStartsThere(text: string, a: Assigned)
    requires Stands(text, a) && IsAssignment(a)
    ensures |a.front| + |a.name| <= |text|
    ensures ValueStart(text, |a.front| + |a.name|) == Some(ValueSpan(a).start)
  {
    hide NamesLabel, SkipSpaces, AllWhite, AllValue, ValueStands, QuoteStands;
    SepIsNext(text, a);
    QuoteIsNext(text, a);
  }

  lemma AssignmentIsSecret(text: string, a: Assigned)
    requires text == Spelled(a) && IsAssignment(a)
    ensures AssignedSecret(text, ValueSpan(a))
  {
    hide Spelled, ValueStart, IsLabel, Labels, NamesLabel;
    SpelledStands(text, a);
    ValueStartsThere(text, a);
    var s, p1 := ValueSpan(a), |a.front| + |a.name|;
    LabelsAre(Lower(a.name));
    NamesLabelExactly(a.name);
    forall k | 0 <= k < |a.name| ensures Lower(text)[|a.front| + k] == Lower(a.name)[k] {
      assert text[|a.front| + k] == text[|a.front|..p1][k];
    }
    RunExactly(text, ValueChar, s.start, a.value);
    assert Assignment(text, Lower(a.name), |a.front|, s);
  }

  /** The pieces of an assignment whose label is at `at` and whose value is `s`. */
  function PiecesAt(text: string, at: nat, p1: nat, p2: nat, p4: nat, s: Span): Assigned
    requires at <= p1 <= p2 < p4 <= s.start <= s.end <= |text|
  {
    Assigned(text[..at], text[at..p1], text[p1..p2], text[p2..p2 + 1], text[p2 + 1..p4], text[p4..s.start],
             text[s.start..s.end], text[s.end..])
  }

  lemma PiecesStand(text: string, at: nat, p1: nat, p2: nat, p4: nat, s: Span)
    requires at <= p1 <= p2 < p4 <= s.start <= s.end <= |text|
    ensures var a := PiecesAt(text, at, p1, p2, p4, s); text == Spelled(a) && s == ValueSpan(a)
  {
    hide Spelled;
    SpelledStands(text, PiecesAt(text, at, p1, p2, p4, s));
  }

  lemma SecretIsAssignment(text: string, name: string, at: nat, s: Span) returns (a: Assigned)
    requires name in Labels() && Assignment(text, name, at, s)
    ensures text == Spelled(a) && IsAssignment(a) && s == ValueSpan(a)
  {
    hide Spelled, IsLabel, NamesLabel, Labels, Lower, SkipSpaces, MatchesAt, AllWhite, Run, ValueSpan;
    var p1 := at + |name|;
    MatchBounds(Lower(text), name, at);
    var p2 := SkipSpaces(text, p1);
    SkipSpacesExactly(text, p1, p2);
    var p4 := SkipSpaces(text, p2 + 1);
    SkipSpacesExactly(text, p2 + 1, p4);
    RunInText(text, s);
    PiecesStand(text, at, p1, p2, p4, s);
    a := PiecesAt(text, at, p1, p2, p4, s);
    RunExactly(text, ValueChar, s.start, a.value);
    LowerSlice(text, at, p1);
    MatchIsSlice(Lower(text), name, at);
    LabelsAre(name);
    NamesLabelExactly(a.name);
    assert a.quote == "" || a.quote == [text[p4]];
  }

  lemma RunInText(text: string, s: Span)
    requires Run(text, ValueChar, s.start, s.end)
    ensures s.start <= s.end <= |text|
  {
  }

  lemma LowerSlice(text: string, lo: nat, hi: nat)
    requires lo <= hi <= |text|
    ensures Lower(text)[lo..hi] == Lower(text[lo..hi])
  {
  }

  /** The third detector's candidates are exactly the values of spelled assignments. */
  lemma AssignmentsExactly(text: string, s: Span)
    ensures AssignedSecret(text, s) <==> exists a :: text == Spelled(a) && IsAssignment(a) && s == ValueSpan(a)
  {
    hide Spelled, IsAssignment, ValueSpan, Assignment, Labels;
    if AssignedSecret(text, s) {
      var name, at: nat :| name in Labels() && Assignment(text, name, at, s);
      var a := SecretIsAssignment(text, name, at, s);
    }
    if a :| text == Spelled(a) && IsAssignment(a) && s == ValueSpan(a) {
      AssignmentIsSecret(text, a);
    }
  }

  // ---- vendor secrets --------------------------------------------------------------

  /** The prefix that stands `m`th in the order of claims, and the least length of its secrets. */
  predicate IsVendor(m: nat, prefix: string, least: nat) {
    || (m == 0 && prefix == "sk-" && least == 23)
    || (m == 1 && prefix == "ghp_" && least == 40)
    || (m == 2 && prefix == "gho_" && least == 40)
    || (m == 3 && prefix == "xoxb-" && least == 15)
    || (m == 4 && prefix == "xoxp-" && least == 15)
    || (m == 5 && prefix == "xoxa-" && least == 15)
    || (m == 6 && prefix == "xoxs-" && least == 15)
    || (m == 7 && prefix == "AKIA" && least == 20)
  }

  lemma VendorsAre(m: nat)
    ensures |Vendors()| == 8
    ensures m < 8 ==> IsVendor(m, Vendors()[m].prefix, Vendors()[m].minLen)
  {
  }

  /** A secret of the `m`th vendor: its prefix and token characters up to where they end. */
  ghost predicate VendorForm(text: string, m: nat, s: Span) {
    && s.start < s.end <= |text| && AllToken(text[s.start..s.end]) && (s.end < |text| ==> !IsTokenLetter(text[s.end]))
    && exists prefix, least :: IsVendor(m, prefix, least) && prefix <= text[s.start..s.end] && s.end - s.start >= least
  }

  lemma SecretHasForm(text: string, m: nat, s: Span)
    requires m < 8 && VendorSecret(text, Vendors()[m], s)
    ensures VendorForm(text, m, s)
  {
    hide Vendors, MatchesAt;
    VendorsAre(m);
    var v := Vendors()[m];
    assert v in Vendors();
    MatchIsSlice(text, v.prefix, s.start);
    VendorRun(text, v, s);
    RunExactly(text, TokenChar, s.start, text[s.start..s.end]);
    assert text[s.start..s.end][..|v.prefix|] == text[s.start..s.start + |v.prefix|] == v.prefix;
  }

  lemma FormIsSecret(text: string, m: nat, s: Span)
    requires m < 8 && VendorForm(text, m, s)
    ensures VendorSecret(text, Vendors()[m], s)
  {
    hide Vendors, MatchesAt;
    VendorsAre(m);
    var v, w := Vendors()[m], text[s.start..s.end];
    MatchIsSlice(text, v.prefix, s.start);
    assert forall k :: s.start <= k < s.end ==> text[k] == w[k - s.start];
    assert v.prefix <= w && text[s.start..s.start + |v.prefix|] == w[..|v.prefix|];
  }

  lemma VendorsExactly(text: string, m: nat, s: Span)
    requires m < 8
    ensures VendorSecret(text, Vendors()[m], s) <==> VendorForm(text, m, s)
  {
    hide Vendors, VendorSecret, VendorForm;
    VendorsAre(m);
    if VendorSecret(text, Vendors()[m], s) {
      SecretHasForm(text, m, s);
    }
    if VendorForm(text, m, s) {
      FormIsSecret(text, m, s);
    }
  }

  // ---- JWT shapes ------------------------------------------------------------------

  function Dotted(first: string, second: string, third: string): string {
    first + "." + (second + ("." + third))
  }

  predicate IsSegment(s: string) {
    |s| >= 10 && AllToken(s)
  }

  ghost predicate JwtForm(text: string, s: Span) {
    && s.start < s.end <= |text| && (s.end < |text| ==> !IsTokenLetter(text[s.end]))
    && exists first, second, third :: text[s.start..s.end] == Dotted(first, second, third)
         && IsSegment(first) && IsSegment(second) && IsSegment(third)
  }

  lemma JwtIsForm(text: string, start: nat, a: nat, b: nat, end: nat)
    requires JwtShape(text, start, a, b, end)
    ensures JwtForm(text, Span(start, end))
  {
    var first, second, third := text[start..a], text[a + 1..b], text[b + 1..end];
    RunExactly(text, TokenChar, start, first);
    RunExactly(text, TokenChar, a + 1, second);
    RunExactly(text, TokenChar, b + 1, third);
    assert text[start..end] == Dotted(first, second, third);
  }

  lemma FormIsJwt(text: string, s: Span, first: string, second: string, third: string)
    requires s.start < s.end <= |text| && text[s.start..s.end] == Dotted(first, second, third)
    requires s.end < |text| ==> !IsTokenLetter(text[s.end])
    requires IsSegment(first) && IsSegment(second) && IsSegment(third)
    ensures Jwt(text, s)
  {
    var w, n := text[s.start..s.end], s.start + |first| + 1 + |second|;
    assert forall k :: s.start <= k < s.end ==> text[k] == w[k - s.start];
    assert text[s.start..s.start + |first|] == first;
    assert text[s.start + |first| + 1..n] == second && text[n + 1..s.end] == third;
    RunExactly(text, TokenChar, s.start, first);
    RunExactly(text, TokenChar, s.start + |first| + 1, second);
    RunExactly(text, TokenChar, n + 1, third);
    assert JwtShape(text, s.start, s.start + |first|, n, s.end);
  }

  lemma JwtsExactly(text: string, s: Span)
    ensures Jwt(text, s) <==> JwtForm(text, s)
  {
    hide JwtShape, IsSegment, Dotted;
    if Jwt(text, s) {
      var a, b :| JwtShape(text, s.start, a, b, s.end);
      JwtIsForm(text, s.start, a, b, s.end);
    }
    if JwtForm(text, s) {
      var first, second, third :| text[s.start..s.end] == Dotted(first, second, third)
        && IsSegment(first) && IsSegment(second) && IsSegment(third);
      FormIsJwt(text, s, first, second, third);
    }
  }

  // ---- high-entropy words ----------------------------------------------------------

  predicate IsHexWord(s: string, n: nat) {
    |s| == n && forall c <- s :: '0' <= c <= '9' || 'a' <= c <= 'f' || 'A' <= c <= 'F'
  }

  function Dashed(a: string, b: string, c: string, d: string, e: string): string {
    a + ("-" + (b + ("-" + (c + ("-" + (d + ("-" + e)))))))
  }

  ghost predicate UuidForm(w: string) {
    exists a, b, c, d, e :: w == Dashed(a, b, c, d, e)
      && IsHexWord(a, 8) && IsHexWord(b, 4) && IsHexWord(c, 4) && IsHexWord(d, 4) && IsHexWord(e, 12)
  }

  function WithDot(stem: string, ext: string): string {
    stem + ("." + ext)
  }

  ghost predicate FilenameForm(w: string) {
    exists stem, ext :: w == WithDot(stem, ext) && stem != "" && 1 <= |ext| <= 5 && forall c <- ext :: 'a' <= c <= 'z'
  }

  /** A word of 20 or more characters with a digit and a letter that looks random and is no UUID, no
      hash, no path, no file name and no piece of code. */
  ghost predicate SuspectForm(w: string, highEntropy: string -> bool) {
    && |w| >= 20 && highEntropy(w)
    && (exists c <- w :: '0' <= c <= '9') && (exists c <- w :: 'a' <= c <= 'z' || 'A' <= c <= 'Z')
    && !UuidForm(w) && !FilenameForm(w) && (exists c <- w :: !('0' <= c <= '9' || 'a' <= c <= 'f'))
    && '/' !in w && '{' !in w && '}' !in w && '[' !in w && ']' !in w && '"' !in w
  }

  ghost predicate WordForm(text: string, highEntropy: string -> bool, s: Span) {
    && s.start < s.end <= |text|
    && (forall k :: s.start <= k < s.end ==> !IsWhite(text[k]))
    && (s.start > 0 ==> IsWhite(text[s.start - 1])) && (s.end < |text| ==> IsWhite(text[s.end]))
    && SuspectForm(text[s.start..s.end], highEntropy)
  }

  lemma {:induction false} JoinOfSplit(s: string, c: char)
    ensures Join(Split(s, c), c) == s
  {
    if s != "" {
      JoinOfSplit(s[1..], c);
      var rest := Split(s[1..], c);
      assert s == [s[0]] + s[1..];
      if s[0] == c {
        assert ([""] + rest)[1..] == rest;
      } else {
        assert ([[s[0]] + rest[0]] + rest[1..])[1..] == rest[1..];
      }
    }
  }

  lemma JoinedFive(a: string, b: string, c: string, d: string, e: string)
    ensures Join([a, b, c, d, e], '-') == Dashed(a, b, c, d, e)
  {
    assert [a, b, c, d, e][1..] == [b, c, d, e] && [b, c, d, e][1..] == [c, d, e];
    assert [c, d, e][1..] == [d, e] && [d, e][1..] == [e];
    assert Join([d, e], '-') == d + ("-" + e);
    assert Join([c, d, e], '-') == c + ("-" + (d + ("-" + e)));
    assert Join([b, c, d, e], '-') == b + ("-" + (c + ("-" + (d + ("-" + e)))));
  }

  lemma UuidsExactly(w: string)
    ensures IsUuid(w) <==> UuidForm(w)
  {
    hide Split, Join, Dashed;
    var p := Split(w, '-');
    JoinOfSplit(w, '-');
    if IsUuid(w) {
      assert p == [p[0], p[1], p[2], p[3], p[4]];
      JoinedFive(p[0], p[1], p[2], p[3], p[4]);
      assert IsHexWord(p[0], 8) && IsHexWord(p[1], 4) && IsHexWord(p[2], 4);
      assert IsHexWord(p[3], 4) && IsHexWord(p[4], 12);
    }
    if UuidForm(w) {
      var a, b, c, d, e :| w == Dashed(a, b, c, d, e)
        && IsHexWord(a, 8) && IsHexWord(b, 4) && IsHexWord(c, 4) && IsHexWord(d, 4) && IsHexWord(e, 12);
      JoinedFive(a, b, c, d, e);
      SplitOfJoined([a, b, c, d, e], '-');
    }
  }

  lemma FilenamesExactly(w: string)
    ensures LooksLikeAFilename(w) <==> FilenameForm(w)
  {
    hide SplitLast;
    if LooksLikeAFilename(w) {
      var (stem, ext) := SplitLast(w, '.').value;
      assert w == WithDot(stem, ext);
    }
    if stem, ext :| w == WithDot(stem, ext) && stem != "" && 1 <= |ext| <= 5 && forall c <- ext :: 'a' <= c <= 'z' {
      SplitLastOfJoined(stem, '.', ext);
      assert w == stem + ['.'] + ext;
    }
  }

  lemma SuspectsExactly(w: string, highEntropy: string -> bool)
    ensures SuspiciousWord(w, highEntropy) <==> SuspectForm(w, highEntropy)
  {
    hide IsUuid, UuidForm, LooksLikeAFilename, FilenameForm;
    UuidsExactly(w);
    FilenamesExactly(w);
    assert forall c <- w :: c !in "{}[]\"" <==> c != '{' && c != '}' && c != '[' && c != ']' && c != '"';
  }

  lemma WordsExactly(text: string, highEntropy: string -> bool, s: Span)
    ensures EntropicSecret(text, highEntropy, s) <==> WordForm(text, highEntropy, s)
  {
    hide SuspiciousWord, SuspectForm;
    if s.start <= s.end <= |text| {
      SuspectsExactly(text[s.start..s.end], highEntropy);
    }
  }

  // ---- all four --------------------------------------------------------------------

  ghost predicate AssignedForm(text: string, s: Span) {
    exists a :: text == Spelled(a) && IsAssignment(a) && s == ValueSpan(a)
  }

  ghost predicate AnyForm(text: string, highEntropy: string -> bool, s: Span) {
    || (exists m: nat :: VendorForm(text, m, s))
    || JwtForm(text, s) || AssignedForm(text, s) || WordForm(text, highEntropy, s)
  }

  lemma AnyVendorExactly(text: string, s: Span)
    ensures AnyVendorSecret(text, s) <==> exists m: nat :: VendorForm(text, m, s)
  {
    hide VendorForm, VendorSecret, Vendors;
    if AnyVendorSecret(text, s) {
      var v :| v in Vendors() && VendorSecret(text, v, s);
      var m: nat :| m < 8 && Vendors()[m] == v;
      VendorsExactly(text, m, s);
    }
    if m: nat :| VendorForm(text, m, s) {
      VendorIsListed(text, m, s);
      VendorsExactly(text, m, s);
    }
  }

  lemma VendorIsListed(text: string, m: nat, s: Span)
    requires VendorForm(text, m, s)
    ensures m < 8
  {
  }

  /** Whatever the detectors take is a secret of one of the four spelled forms, and whatever has
      such a form is taken. */
  lemma DetectedExactly(text: string, highEntropy: string -> bool, s: Span)
    ensures (exists rank: nat :: Detected(text, highEntropy, rank, s)) <==> AnyForm(text, highEntropy, s)
  {
    hide AnyVendorSecret, Jwt, JwtForm, AssignedSecret, AssignedForm, EntropicSecret, WordForm, VendorForm;
    AnyVendorExactly(text, s);
    JwtsExactly(text, s);
    AssignedExactly(text, s);
    WordsExactly(text, highEntropy, s);
    assert Detected(text, highEntropy, 0, s) <==> AnyVendorSecret(text, s);
    assert Detected(text, highEntropy, 1, s) <==> Jwt(text, s);
    assert Detected(text, highEntropy, 2, s) <==> AssignedSecret(text, s);
    assert Detected(text, highEntropy, 3, s) <==> EntropicSecret(text, highEntropy, s);
  }

  lemma AssignedExactly(text: string, s: Span)
    ensures AssignedSecret(text, s) <==> AssignedForm(text, s)
  {
    hide Spelled, IsAssignment, ValueSpan, AssignedSecret;
    AssignmentsExactly(text, s);
  }

  /** A chosen span that overlaps `s` is a vendor secret, or a JWT shape, or, if it may be, an
      assigned value. */
  ghost predicate MetByForm(text: string, s: Span, orValue: bool, spans: seq<Span>) {
    exists t <- spans :: Overlap(t, s)
      && ((exists m: nat :: VendorForm(text, m, t)) || JwtForm(text, t) || (orValue && AssignedForm(text, t)))
  }

  /** What `find_secret_spans` does to a text, in terms of the text alone. Every chosen span is a
      secret of one of the four forms. Every vendor secret ends with one; every JWT shape begins
      inside a JWT shape that a vendor secret or a JWT shape was chosen for; every assigned value
      meets one of these or another assigned value; and every suspect word meets some chosen span. */
  lemma SecretsAreFound(text: string, highEntropy: string -> bool, spans: seq<Span>)
    requires SecretSpansOf(text, highEntropy, spans)
    ensures forall s <- spans :: AnyForm(text, highEntropy, s)
    ensures forall m: nat, s: Span :: VendorForm(text, m, s) ==> exists t <- spans :: t.end == s.end
    ensures forall s: Span :: JwtForm(text, s) ==>
      exists c: Span :: JwtForm(text, c) && c.start <= s.start < c.end && MetByForm(text, c, false, spans)
    ensures forall s: Span :: AssignedForm(text, s) ==> MetByForm(text, s, true, spans)
    ensures forall s: Span :: WordForm(text, highEntropy, s) ==> Meets(s, spans)
  {
    hide SecretSpansOf, AnyForm, AssignedForm, WordForm, VendorForm, JwtForm, MetByForm;
    forall s | s in spans ensures AnyForm(text, highEntropy, s) {
      ChosenIsDetected(text, highEntropy, spans, s);
      DetectedExactly(text, highEntropy, s);
    }
    forall m: nat, s: Span | VendorForm(text, m, s) ensures exists t <- spans :: t.end == s.end {
      AnyVendorExactly(text, s);
      VendorEndIsMet(text, highEntropy, spans, s);
    }
    forall s: Span | JwtForm(text, s)
      ensures exists c: Span :: JwtForm(text, c) && c.start <= s.start < c.end && MetByForm(text, c, false, spans)
    {
      JwtsExactly(text, s);
      var c := JwtIsMet(text, highEntropy, spans, s);
      JwtsExactly(text, c);
    }
    forall s: Span | AssignedForm(text, s) ensures MetByForm(text, s, true, spans) {
      AssignedExactly(text, s);
      ValueIsMet(text, highEntropy, spans, s);
    }
    forall s: Span | WordForm(text, highEntropy, s) ensures Meets(s, spans) {
      WordsExactly(text, highEntropy, s);
      WordIsMet(text, highEntropy, spans, s);
    }
  }

  lemma ChosenIsDetected(text: string, highEntropy: string -> bool, spans: seq<Span>, s: Span)
    requires SecretSpansOf(text, highEntropy, spans) && s in spans
    ensures exists rank: nat :: Detected(text, highEntropy, rank, s)
  {
    hide Detected, VendorsMet, JwtDone, AssignedSecret, EntropicSecret;
    var jwts :| JwtDone(text, jwts, |text|) && Chosen(text, highEntropy, 4, jwts, spans);
    assert DetectedBelow(text, highEntropy, 4, s);
  }

  lemma WordIsMet(text: string, highEntropy: string -> bool, spans: seq<Span>, s: Span)
    requires SecretSpansOf(text, highEntropy, spans) && EntropicSecret(text, highEntropy, s)
    ensures Meets(s, spans)
  {
    hide Detected, VendorsMet, JwtDone, AssignedSecret, EntropicSecret, DetectedBelow;
    var jwts :| JwtDone(text, jwts, |text|) && Chosen(text, highEntropy, 4, jwts, spans);
  }

  lemma MetIsMetByForm(text: string, highEntropy: string -> bool, ranks: nat, s: Span, spans: seq<Span>)
    requires ranks <= 3 && MetBelow(text, highEntropy, ranks, s, spans)
    ensures MetByForm(text, s, ranks == 3, spans)
  {
    hide AnyVendorSecret, Jwt, JwtForm, AssignedSecret, AssignedForm, EntropicSecret, VendorForm;
    var t :| t in spans && Overlap(t, s) && DetectedBelow(text, highEntropy, ranks, t);
    AnyVendorExactly(text, t);
    JwtsExactly(text, t);
    AssignedExactly(text, t);
  }

  lemma ValueIsMet(text: string, highEntropy: string -> bool, spans: seq<Span>, s: Span)
    requires SecretSpansOf(text, highEntropy, spans) && AssignedSecret(text, s)
    ensures MetByForm(text, s, true, spans)
  {
    hide Detected, VendorsMet, JwtDone, AssignedSecret, EntropicSecret, DetectedBelow, MetByForm;
    var jwts :| JwtDone(text, jwts, |text|) && Chosen(text, highEntropy, 4, jwts, spans);
    MetIsMetByForm(text, highEntropy, 3, s, spans);
  }

  lemma VendorEndIsMet(text: string, highEntropy: string -> bool, spans: seq<Span>, s: Span)
    requires SecretSpansOf(text, highEntropy, spans) && AnyVendorSecret(text, s)
    ensures exists t <- spans :: t.end == s.end
  {
    hide Chosen, JwtDone, VendorSecret, Lead, Vendors;
    var v :| v in Vendors() && VendorSecret(text, v, s);
    assert LeadEnds(text, s.end, spans);
  }

  lemma JwtIsMet(text: string, highEntropy: string -> bool, spans: seq<Span>, s: Span) returns (c: Span)
    requires SecretSpansOf(text, highEntropy, spans) && Jwt(text, s)
    ensures Jwt(text, c) && c.start <= s.start < c.end && MetByForm(text, c, false, spans)
  {
    hide Detected, VendorsMet, Jwt, AssignedSecret, EntropicSecret, DetectedBelow, MetByForm;
    var jwts :| JwtDone(text, jwts, |text|) && Chosen(text, highEntropy, 4, jwts, spans);
    JwtInText(text, s);
    c :| c in jwts && c.start <= s.start < c.end;
    MetIsMetByForm(text, highEntropy, 2, c, spans);
  }

  lemma JwtInText(text: string, s: Span)
    requires Jwt(text, s)
    ensures s.start < |text|
  {
  }
}
