/** Secret detection: four detectors feed a greedy choice of disjoint spans. */
module SecretSpans {
  import opened Text

  datatype Span = Span(start: nat, end: nat)

  predicate InText(text: string, s: Span) {
    s.start < s.end <= |text|
  }

  predicate Overlap(a: Span, b: Span) {
    a.start < b.end && b.start < a.end
  }

  ghost predicate Meets(s: Span, spans: seq<Span>) {
    exists t <- spans :: Overlap(t, s)
  }

  ghost predicate Apart(spans: seq<Span>) {
    forall k, m :: 0 <= k < m < |spans| ==> !Overlap(spans[k], spans[m])
  }

  // ---- character runs --------------------------------------------------------------

  predicate TokenChar(c: char) {
    IsAlnum(c) || c == '-' || c == '_'
  }

  predicate ValueChar(c: char) {
    !IsSpace(c) && c != '\'' && c != '"'
  }

  /** `[from, end)` is the maximal run of `p`-characters from `from` on. */
  ghost predicate Run(text: string, p: char -> bool, from: nat, end: nat) {
    && from <= end <= |text|
    && (forall k :: from <= k < end ==> p(text[k]))
    && (end < |text| ==> !p(text[end]))
  }

  /** `token_end`, `scan_b64url` and `token_end_no_quote` differ only in the character class. */
  method RunEnd(text: string, p: char -> bool, from: nat) returns (end: nat)
    requires from <= |text|
    ensures Run(text, p, from, end)
  {
    end := from;
    while end < |text|
      invariant from <= end <= |text|
      invariant forall k :: from <= k < end ==> p(text[k])
    {
      if p(text[end]) {
        end := end + 1;
      } else {
        break;
      }
    }
  }

  lemma RunUnique(text: string, p: char -> bool, from: nat, end: nat, from': nat, end': nat)
    requires Run(text, p, from, end) && Run(text, p, from', end')
    requires from <= from' <= end
    ensures end == end'
  {
    assert end < |text| ==> !p(text[end]);
    assert end' < |text| ==> !p(text[end']);
  }

  // ---- choosing spans --------------------------------------------------------------

  method PushIfFree(spans: seq<Span>, s: Span) returns (out: seq<Span>)
    requires Apart(spans) && s.start < s.end
    ensures Apart(out) && Meets(s, out)
    ensures out == if Meets(s, spans) then spans else spans + [s]
  {
    var k := 0;
    while k < |spans|
      invariant k <= |spans|
      invariant forall m :: 0 <= m < k ==> !Overlap(spans[m], s)
    {
      if Overlap(spans[k], s) {
        assert spans[k] in spans;
        return spans;
      }
      k := k + 1;
    }
    out := spans + [s];
    assert s in out && Overlap(s, s);
    assert forall t <- spans :: !Overlap(t, s);
  }

  /** Offers every candidate of one detector in turn. */
  method PushAll(spans: seq<Span>, candidates: seq<Span>) returns (out: seq<Span>)
    requires Apart(spans) && forall c <- candidates :: c.start < c.end
    ensures Apart(out) && spans <= out
    ensures forall s <- out :: s in spans || s in candidates
    ensures forall c <- candidates :: Meets(c, out)
  {
    out := spans;
    for k := 0 to |candidates|
      invariant Apart(out) && spans <= out
      invariant forall s <- out :: s in spans || s in candidates
      invariant forall m :: 0 <= m < k ==> Meets(candidates[m], out)
    {
      ghost var before := out;
      out := PushIfFree(out, candidates[k]);
      MeetsGrows(before, out);
    }
  }

  lemma MeetsGrows(spans: seq<Span>, more: seq<Span>)
    requires spans <= more
    ensures forall s :: Meets(s, spans) ==> Meets(s, more)
  {
    forall s | Meets(s, spans) ensures Meets(s, more) {
      var k :| 0 <= k < |spans| && Overlap(spans[k], s);
      assert more[k] == spans[k];
    }
  }

  // ---- 1. vendor prefixes ----------------------------------------------------------

  datatype Vendor = Vendor(prefix: string, minLen: nat)

  function Vendors(): (vs: seq<Vendor>)
    ensures |vs| == 8 && vs[0].minLen == 23
    ensures forall v <- vs :: 0 < |v.prefix| < v.minLen && forall k :: 0 <= k < |v.prefix| ==> TokenChar(v.prefix[k])
  {
    [
      Vendor("sk-", 23),
      Vendor("ghp_", 40),
      Vendor("gho_", 40),
      Vendor("xoxb-", 15),
      Vendor("xoxp-", 15),
      Vendor("xoxa-", 15),
      Vendor("xoxs-", 15),
      Vendor("AKIA", 20)
    ]
  }

  /** An occurrence of the prefix whose token run is long enough, wherever it is. */
  ghost predicate VendorSecret(text: string, v: Vendor, s: Span) {
    && MatchesAt(text, v.prefix, s.start)
    && Run(text, TokenChar, s.start + |v.prefix|, s.end)
    && s.end - s.start >= v.minLen
  }

  ghost predicate AnyVendorSecret(text: string, s: Span) {
    exists v <- Vendors() :: VendorSecret(text, v, s)
  }

  /** The leftmost of the vendor's secrets in its run of token characters. */
  ghost predicate Leftmost(text: string, v: Vendor, s: Span) {
    VendorSecret(text, v, s) && forall c: Span :: VendorSecret(text, v, c) && c.end == s.end ==> s.start <= c.start
  }

  /** ... of the first vendor, in the order of the table, that has one there. */
  ghost predicate Leads(text: string, m: int, s: Span) {
    && 0 <= m < 8 && Leftmost(text, Vendors()[m], s)
    && forall l, c: Span :: 0 <= l < m && VendorSecret(text, Vendors()[l], c) ==> c.end != s.end
  }

  ghost predicate Lead(text: string, s: Span) {
    exists m :: Leads(text, m, s)
  }

  ghost predicate EndsOneOf(end: nat, spans: seq<Span>) {
    exists s <- spans :: s.end == end
  }

  /** The whole of a vendor secret is token characters, up to the end of their run. */
  lemma VendorRun(text: string, v: Vendor, s: Span)
    requires v in Vendors() && MatchesAt(text, v.prefix, s.start) && Run(text, TokenChar, s.start + |v.prefix|, s.end)
    ensures Run(text, TokenChar, s.start, s.end)
  {
    forall k | s.start <= k < s.end ensures TokenChar(text[k]) {
      if k < s.start + |v.prefix| {
        assert text[s.start + (k - s.start)] == v.prefix[k - s.start];
      }
    }
  }

  /** Overlapping vendor secrets end together. */
  lemma VendorSecretsEndTogether(text: string, a: Span, b: Span)
    requires Run(text, TokenChar, a.start, a.end) && Run(text, TokenChar, b.start, b.end)
    requires Overlap(a, b)
    ensures a.end == b.end
  {
    if a.start <= b.start {
      RunUnique(text, TokenChar, a.start, a.end, b.start, b.end);
    } else {
      RunUnique(text, TokenChar, b.start, b.end, a.start, a.end);
    }
  }

  /** What holds of the chosen spans once the occurrences of `v` before index `i` are done. */
  ghost predicate VendorDone(text: string, v: Vendor, before: seq<Span>, spans: seq<Span>, i: nat) {
    && Apart(spans) && before <= spans
    && (forall s <- spans :: AnyVendorSecret(text, s) && Run(text, TokenChar, s.start, s.end))
    && (forall s <- spans :: s in before || (s.start < i && Leftmost(text, v, s)))
    && (forall c: Span :: VendorSecret(text, v, c) && c.start < i ==>
          exists s <- spans :: s.end == c.end && (s in before || s.start <= c.start))
  }

  lemma PushedIsLeftmost(text: string, v: Vendor, before: seq<Span>, spans: seq<Span>, i: nat, s: Span)
    requires v in Vendors() && VendorDone(text, v, before, spans, i) && VendorSecret(text, v, s) && !Meets(s, spans)
    requires forall j :: i <= j < s.start ==> !MatchesAt(text, v.prefix, j)
    ensures Leftmost(text, v, s)
  {
    hide MatchesAt, Run, Leftmost;
    assert forall t <- spans :: !Overlap(t, s);
    forall c: Span | VendorSecret(text, v, c) && c.end == s.end ensures s.start <= c.start {
      if c.start < i {
        var t :| t in spans && t.end == c.end;
        VendorSecretNonEmpty(text, t);
      }
    }
    LeftmostIs(text, v, s);
  }

  lemma LeftmostIs(text: string, v: Vendor, s: Span)
    requires VendorSecret(text, v, s)
    requires forall c: Span :: VendorSecret(text, v, c) && c.end == s.end ==> s.start <= c.start
    ensures Leftmost(text, v, s)
  {
  }

  lemma VendorSecretNonEmpty(text: string, s: Span)
    requires AnyVendorSecret(text, s)
    ensures s.start < s.end
  {
    hide Run, MatchesAt;
  }

  /** One iteration: the occurrence at `start`, and the overlapping ones the search skips. */
  lemma VendorStep(text: string, v: Vendor, before: seq<Span>, spans: seq<Span>, i: nat, s: Span, out: seq<Span>)
    requires v in Vendors() && VendorDone(text, v, before, spans, i) && i <= s.start
    requires MatchesAt(text, v.prefix, s.start) && Run(text, TokenChar, s.start + |v.prefix|, s.end)
    requires forall j :: i <= j < s.start ==> !MatchesAt(text, v.prefix, j)
    requires Apart(out)
    requires out == if s.end - s.start >= v.minLen && !Meets(s, spans) then spans + [s] else spans
    ensures VendorDone(text, v, before, out, s.start + |v.prefix|)
  {
    VendorRun(text, v, s);
    if s.end - s.start >= v.minLen && !Meets(s, spans) {
      PushedIsLeftmost(text, v, before, spans, i, s);
    }
    forall c: Span | VendorSecret(text, v, c) && c.start < s.start + |v.prefix|
      ensures exists t <- out :: t.end == c.end && (t in before || t.start <= c.start)
    {
      if c.start < i {
        var t :| t in spans && t.end == c.end && (t in before || t.start <= c.start);
        assert t in out;
      } else {
        assert s.start <= c.start;
        VendorRun(text, v, c);
        VendorSecretsEndTogether(text, s, c);
        assert s.end - s.start >= v.minLen;
        if Meets(s, spans) {
          var t :| t in spans && Overlap(t, s);
          VendorSecretsEndTogether(text, t, s);
          assert t in out;
        } else {
          assert out[|spans|] == s && s in out;
        }
      }
    }
    assert VendorSecret(text, v, s) ==> AnyVendorSecret(text, s);
  }

  method AddVendorSpans(text: string, v: Vendor, before: seq<Span>) returns (spans: seq<Span>)
    requires v in Vendors() && VendorDone(text, v, before, before, 0)
    ensures VendorDone(text, v, before, spans, |text|)
  {
    spans := before;
    var i := 0;
    while true
      invariant i <= |text| && VendorDone(text, v, before, spans, i)
      decreases |text| - i
    {
      var found := FindFrom(text, v.prefix, i);
      if found.None? { break; }
      var start := found.value;
      var end := RunEnd(text, TokenChar, start + |v.prefix|);
      ghost var was := spans;
      if end - start >= v.minLen {
        spans := PushIfFree(spans, Span(start, end));
      }
      VendorStep(text, v, before, was, i, Span(start, end), spans);
      i := start + |v.prefix|;
    }
  }

  // ---- JWT shapes ------------------------------------------------------------------

  /** Three dot-separated runs of at least ten base64url characters. */
  ghost predicate JwtShape(text: string, start: nat, a: nat, b: nat, end: nat) {
    && Run(text, TokenChar, start, a) && a - start >= 10 && a < |text| && text[a] == '.'
    && Run(text, TokenChar, a + 1, b) && b - (a + 1) >= 10 && b < |text| && text[b] == '.'
    && Run(text, TokenChar, b + 1, end) && end - (b + 1) >= 10
  }

  ghost predicate Jwt(text: string, s: Span) {
    exists a, b :: JwtShape(text, s.start, a, b, s.end)
  }

  /** `out` is the leftmost choice: no shape starts before `i` outside a returned span. */
  ghost predicate JwtDone(text: string, out: seq<Span>, i: nat) {
    && (forall s <- out :: Jwt(text, s) && s.end <= i)
    && (forall k, m :: 0 <= k < m < |out| ==> out[k].end <= out[m].start)
    && (forall c: Span :: Jwt(text, c) && c.start < i ==> exists s <- out :: s.start <= c.start < s.end)
  }

  lemma JwtStep(text: string, out: seq<Span>, i: nat, shape: Option<nat>)
    requires JwtDone(text, out, i)
    requires shape.Some? ==> Jwt(text, Span(i, shape.value)) && i < shape.value
    requires shape.None? ==> forall end: nat :: !Jwt(text, Span(i, end))
    ensures shape.None? ==> JwtDone(text, out, i + 1)
    ensures shape.Some? ==> JwtDone(text, out + [Span(i, shape.value)], shape.value)
  {
    hide Jwt;
    if shape.Some? {
      var more := out + [Span(i, shape.value)];
      assert more[|out|] == Span(i, shape.value);
      forall c: Span | Jwt(text, c) && c.start < shape.value ensures exists s <- more :: s.start <= c.start < s.end {
        if c.start < i {
          var s :| s in out && s.start <= c.start < s.end;
          assert s in more;
        } else {
          assert more[|out|] in more;
        }
      }
    } else {
      assert forall c: Span :: c.start == i ==> c == Span(i, c.end);
    }
  }

  method FindJwtShapes(text: string) returns (out: seq<Span>)
    ensures JwtDone(text, out, |text|)
  {
    hide JwtDone, Jwt;
    out := [];
    var i := 0;
    NoJwtYet(text);
    while i < |text|
      invariant i <= |text| && JwtDone(text, out, i)
    {
      var shape := JwtAt(text, i);
      JwtStep(text, out, i, shape);
      if shape.Some? {
        out := out + [Span(i, shape.value)];
        i := shape.value;
      } else {
        i := i + 1;
      }
    }
  }

  lemma NoJwtYet(text: string)
    ensures JwtDone(text, [], 0)
  {
  }

  method JwtAt(text: string, i: nat) returns (r: Option<nat>)
    requires i < |text|
    ensures r.Some? ==> Jwt(text, Span(i, r.value)) && i < r.value <= |text|
    ensures r.None? ==> forall end: nat :: !Jwt(text, Span(i, end))
  {
    var a := RunEnd(text, TokenChar, i);
    FirstRunFixed(text, i, a);
    if a > i && a < |text| && text[a] == '.' {
      var b := RunEnd(text, TokenChar, a + 1);
      SecondRunFixed(text, i, a, b);
      if b > a + 1 && b < |text| && text[b] == '.' {
        var end := RunEnd(text, TokenChar, b + 1);
        ThirdRunFixed(text, i, a, b, end);
        if end > b + 1 && a - i >= 10 && b - (a + 1) >= 10 && end - (b + 1) >= 10 {
          assert JwtShape(text, i, a, b, end);
          return Some(end);
        }
      }
    }
    return None;
  }

  // The run ends of a shape are determined by its start.

  lemma FirstRunFixed(text: string, i: nat, a: nat)
    requires Run(text, TokenChar, i, a)
    ensures forall a', b', end' :: JwtShape(text, i, a', b', end') ==> a' == a
  {
    forall a', b', end' | JwtShape(text, i, a', b', end') ensures a' == a {
      RunUnique(text, TokenChar, i, a, i, a');
    }
  }

  lemma SecondRunFixed(text: string, i: nat, a: nat, b: nat)
    requires Run(text, TokenChar, i, a) && Run(text, TokenChar, a + 1, b)
    ensures forall a', b', end' :: JwtShape(text, i, a', b', end') ==> b' == b
  {
    FirstRunFixed(text, i, a);
    forall a', b', end' | JwtShape(text, i, a', b', end') ensures b' == b {
      RunUnique(text, TokenChar, a + 1, b, a + 1, b');
    }
  }

  lemma ThirdRunFixed(text: string, i: nat, a: nat, b: nat, end: nat)
    requires Run(text, TokenChar, i, a) && Run(text, TokenChar, a + 1, b) && Run(text, TokenChar, b + 1, end)
    ensures forall a', b', end' :: JwtShape(text, i, a', b', end') ==> end' == end
  {
    SecondRunFixed(text, i, a, b);
    forall a', b', end' | JwtShape(text, i, a', b', end') ensures end' == end {
      RunUnique(text, TokenChar, b + 1, end, b + 1, end');
    }
  }

  // ---- 2. assignments --------------------------------------------------------------

  function Labels(): seq<string> {
    ["api_key", "apikey", "api-key", "key", "token", "secret", "password", "pwd"]
  }

  /** A word whose first letter does not come again cannot overlap itself. */
  lemma FirstLetterOnce(name: string)
    requires name != "" && forall k :: 0 < k < |name| ==> name[k] != name[0]
    ensures Borderless(name)
  {
    forall k | 0 < k < |name| ensures name[k..] != name[..|name| - k] {
      assert name[k..][0] == name[k] && name[..|name| - k][0] == name[0];
    }
  }

  lemma LabelsAreBorderless(name: string)
    requires name in Labels()
    ensures Borderless(name) && 0 < |name|
  {
    hide Borderless;
    FirstLetterOnce(name);
  }

  /** Index of the first non-space from `from` on: `rest.len() - rest.trim_start().len()` added. */
  function SkipSpaces(text: string, from: nat): (r: nat)
    requires from <= |text|
    ensures from <= r <= |text|
  {
    |text| - |TrimStart(text[from..])|
  }

  /** Where the value of an assignment starts whose name ends at `from`: separator, spaces
      and one opening quote skipped. */
  function ValueStart(text: string, from: nat): (r: Option<nat>)
    requires from <= |text|
    ensures r.Some? ==> r.value <= |text|
  {
    var sep := SkipSpaces(text, from);
    if sep < |text| && (text[sep] == ':' || text[sep] == '=') then
      var value := SkipSpaces(text, sep + 1);
      Some(if value < |text| && (text[value] == '\'' || text[value] == '"') then value + 1 else value)
    else
      None
  }

  /** The value half of a `name = value` anywhere in the text, at least eight characters long. */
  ghost predicate Assignment(text: string, name: string, at: nat, s: Span) {
    && MatchesAt(Lower(text), name, at)
    && ValueStart(text, at + |name|) == Some(s.start)
    && Run(text, ValueChar, s.start, s.end) && s.end - s.start >= 8
  }

  ghost predicate AssignedSecret(text: string, s: Span) {
    exists name, at: nat | name in Labels() :: Assignment(text, name, at, s)
  }

  /** All assignments of `name` labelled before index `i` are in `out`. */
  ghost predicate AssignedDone(text: string, name: string, out: seq<Span>, i: nat) {
    forall at: nat, s: Span :: Assignment(text, name, at, s) && at < i ==> s in out
  }

  method FindAssignmentValues(text: string) returns (out: seq<Span>)
    ensures forall s: Span :: s in out <==> AssignedSecret(text, s)
  {
    hide Labels, AssignedDone, Assignment;
    out := [];
    var labels := Labels();
    for k := 0 to |labels|
      invariant forall s <- out :: AssignedSecret(text, s)
      invariant forall m :: 0 <= m < k ==> AssignedDone(text, labels[m], out, |text|)
    {
      ghost var before := out;
      var found := AssignmentsOf(text, labels[k]);
      out := out + found;
      AssignedDoneGrows(text, before, found);
    }
    AllAssigned(text, out);
  }

  lemma AssignedDoneGrows(text: string, before: seq<Span>, found: seq<Span>)
    ensures forall name, i ::
      (AssignedDone(text, name, before, i) || AssignedDone(text, name, found, i) ==>
          AssignedDone(text, name, before + found, i))
  {
  }

  lemma AllAssigned(text: string, out: seq<Span>)
    requires forall m :: 0 <= m < |Labels()| ==> AssignedDone(text, Labels()[m], out, |text|)
    ensures forall s: Span :: AssignedSecret(text, s) ==> s in out
  {
    hide Labels;
    forall s: Span | AssignedSecret(text, s) ensures s in out {
      var name, at: nat :| name in Labels() && Assignment(text, name, at, s);
      assert AssignedDone(text, name, out, |text|);
      LabelsAreBorderless(name);
    }
  }

  method AssignmentsOf(text: string, name: string) returns (out: seq<Span>)
    requires name in Labels()
    ensures forall s <- out :: AssignedSecret(text, s)
    ensures AssignedDone(text, name, out, |text|)
  {
    hide Labels, AssignedDone, AssignedSecret, Borderless, MatchesAt, Run, ValueStart;
    LabelsAreBorderless(name);
    out := [];
    var lower := Lower(text);
    var i := 0;
    NothingAssignedYet(text, name);
    while true
      invariant i <= |text|
      invariant forall s <- out :: AssignedSecret(text, s)
      invariant AssignedDone(text, name, out, i)
      decreases |text| - i
    {
      var found := FindFrom(lower, name, i);
      if found.None? {
        NoMoreAssignments(text, name, out, i);
        break;
      }
      var start := found.value;
      MatchBounds(lower, name, start);
      ghost var before := out;
      var value := ValueStart(text, start + |name|);
      ghost var s: Option<Span> := None;
      if value.Some? {
        var end := RunEnd(text, ValueChar, value.value);
        s := Some(Span(value.value, end));
        if end - value.value >= 8 {
          out := out + [Span(value.value, end)];
        }
      }
      AssignmentStep(text, name, before, i, start, s, out);
      i := start + |name|;
    }
  }

  lemma NothingAssignedYet(text: string, name: string)
    ensures AssignedDone(text, name, [], 0)
  {
  }

  lemma NoMoreAssignments(text: string, name: string, out: seq<Span>, i: nat)
    requires AssignedDone(text, name, out, i) && forall j :: i <= j ==> !MatchesAt(Lower(text), name, j)
    ensures AssignedDone(text, name, out, |text|)
  {
  }

  /** One iteration: the label at `start` with its value `v`, if it has one. Labels have no
      border, so the search skips no occurrence. */
  lemma AssignmentStep(text: string, name: string, before: seq<Span>, i: nat, start: nat, v: Option<Span>,
                       out: seq<Span>)
    requires name in Labels() && Borderless(name) && AssignedDone(text, name, before, i)
    requires MatchesAt(Lower(text), name, start)
    requires forall j :: i <= j < start ==> !MatchesAt(Lower(text), name, j)
    requires v.None? ==> ValueStart(text, start + |name|).None?
    requires v.Some? ==>
      ValueStart(text, start + |name|) == Some(v.value.start) && Run(text, ValueChar, v.value.start, v.value.end)
    requires out == if v.Some? && v.value.end - v.value.start >= 8 then before + [v.value] else before
    ensures AssignedDone(text, name, out, start + |name|)
    ensures forall s <- out :: s in before || AssignedSecret(text, s)
  {
    hide ValueStart, Borderless, Labels, Lower;
    forall at: nat, s: Span | Assignment(text, name, at, s) && at < start + |name| ensures s in out {
      if at < i {
        assert s in before;
      } else if at == start {
        AssignmentFixed(text, name, start, v.value);
      } else {
        LaterMatchClears(Lower(text), name, start, at);
      }
    }
    if out != before {
      assert Assignment(text, name, start, v.value);
    }
  }

  lemma LaterMatchClears(text: string, pat: string, i: nat, j: nat)
    requires Borderless(pat) && MatchesAt(text, pat, i) && MatchesAt(text, pat, j) && i < j
    ensures i + |pat| <= j
  {
    if j < i + |pat| {
      OverlapGivesBorder(text, pat, i, j);
    }
  }

  lemma AssignmentFixed(text: string, name: string, at: nat, v: Span)
    requires at + |name| <= |text| && ValueStart(text, at + |name|) == Some(v.start)
    requires Run(text, ValueChar, v.start, v.end)
    ensures forall s: Span :: Assignment(text, name, at, s) ==> s == v
  {
    forall s: Span | Assignment(text, name, at, s) ensures s == v {
      RunUnique(text, ValueChar, v.start, v.end, s.start, s.end);
    }
  }

  // ---- 3. high-entropy words -------------------------------------------------------

  /** A maximal run of non-space characters. */
  predicate Word(text: string, s: Span) {
    && InText(text, s)
    && (forall k :: s.start <= k < s.end ==> !IsSpace(text[k]))
    && (s.start > 0 ==> IsSpace(text[s.start - 1]))
    && (s.end < |text| ==> IsSpace(text[s.end]))
  }

  method WhitespaceTokens(text: string) returns (out: seq<Span>)
    ensures forall s <- out :: Word(text, s)
    ensures forall s: Span :: Word(text, s) ==> s in out
  {
    out := [];
    var start: Option<nat> := None;
    for i := 0 to |text|
      invariant forall s <- out :: Word(text, s)
      invariant forall s: Span :: Word(text, s) && s.end < i ==> s in out
      invariant match start
        case None => i > 0 ==> IsSpace(text[i - 1])
        case Some(b) => b < i && (forall k :: b <= k < i ==> !IsSpace(text[k])) && (b > 0 ==> IsSpace(text[b - 1]))
      invariant start.None? ==> forall s: Span :: Word(text, s) && s.end == i ==> s in out
    {
      if IsSpace(text[i]) {
        if start.Some? {
          out := out + [Span(start.value, i)];
          WordFixed(text, Span(start.value, i));
          start := None;
        }
      } else if start.None? {
        start := Some(i);
      }
    }
    if start.Some? {
      out := out + [Span(start.value, |text|)];
      WordFixed(text, Span(start.value, |text|));
    }
  }

  lemma WordFixed(text: string, w: Span)
    requires Word(text, w)
    ensures forall s: Span :: Word(text, s) && s.end == w.end ==> s == w
  {
    forall s: Span | Word(text, s) && s.end == w.end ensures s == w {
      assert w.start > 0 ==> IsSpace(text[w.start - 1]);
      assert s.start > 0 ==> IsSpace(text[s.start - 1]);
    }
  }

  predicate IsHexDigit(c: char) {
    IsDigit(c) || 'a' <= c <= 'f' || 'A' <= c <= 'F'
  }

  predicate IsUuid(s: string) {
    var parts := Split(s, '-');
    |parts| == 5
    && forall k :: 0 <= k < 5 ==> |parts[k]| == [8, 4, 4, 4, 12][k] && forall c <- parts[k] :: IsHexDigit(c)
  }

  predicate IsPureLowercaseHex(s: string) {
    s != "" && forall c <- s :: IsDigit(c) || 'a' <= c <= 'f'
  }

  predicate LooksLikeAFilename(word: string) {
    match SplitLast(word, '.')
    case None => false
    case Some((stem, ext)) => stem != "" && 1 <= |ext| <= 5 && forall c <- ext :: IsLower(c)
  }

  predicate SuspiciousWord(word: string, highEntropy: string -> bool) {
    && |word| >= 20
    && !IsUuid(word) && !IsPureLowercaseHex(word)
    && '/' !in word && !LooksLikeAFilename(word)
    && (forall c <- word :: c !in "{}[]\"")
    && (exists c <- word :: IsDigit(c)) && (exists c <- word :: IsAlpha(c))
    && highEntropy(word)
  }

  ghost predicate EntropicSecret(text: string, highEntropy: string -> bool, s: Span) {
    Word(text, s) && SuspiciousWord(text[s.start..s.end], highEntropy)
  }

  method FindHighEntropyTokens(text: string, highEntropy: string -> bool) returns (out: seq<Span>)
    ensures forall s: Span :: s in out <==> EntropicSecret(text, highEntropy, s)
  {
    hide SuspiciousWord, Word;
    var words := WhitespaceTokens(text);
    out := [];
    for k := 0 to |words|
      invariant forall s <- out :: EntropicSecret(text, highEntropy, s)
      invariant forall m :: 0 <= m < k && EntropicSecret(text, highEntropy, words[m]) ==> words[m] in out
    {
      WordInText(text, words[k]);
      if SuspiciousWord(text[words[k].start..words[k].end], highEntropy) {
        out := out + [words[k]];
      }
    }
  }

  lemma WordInText(text: string, s: Span)
    requires Word(text, s)
    ensures InText(text, s)
  {
  }

  // ---- all detectors together ------------------------------------------------------

  /** Detectors in the order in which they claim text: vendor prefixes, JWT shapes,
      assignments, high-entropy words. */
  ghost predicate Detected(text: string, highEntropy: string -> bool, rank: nat, s: Span) {
    match rank
    case 0 => AnyVendorSecret(text, s)
    case 1 => Jwt(text, s)
    case 2 => AssignedSecret(text, s)
    case _ => rank == 3 && EntropicSecret(text, highEntropy, s)
  }

  ghost predicate DetectedBelow(text: string, highEntropy: string -> bool, ranks: nat, s: Span) {
    exists rank: nat | rank < ranks :: Detected(text, highEntropy, rank, s)
  }

  /** The spans chosen once the detectors of rank below `ranks` have made their offers: every
      candidate met a span of its own rank or an earlier one. JWT candidates are the leftmost
      shapes `jwts`. */
  ghost predicate Chosen(text: string, highEntropy: string -> bool, ranks: nat, jwts: seq<Span>, spans: seq<Span>) {
    && Apart(spans)
    && (forall s <- spans :: InText(text, s) && DetectedBelow(text, highEntropy, ranks, s))
    && (ranks > 1 ==> forall c <- jwts :: MetBelow(text, highEntropy, 2, c, spans))
    && (ranks > 2 ==> forall c: Span :: AssignedSecret(text, c) ==> MetBelow(text, highEntropy, 3, c, spans))
    && (ranks > 3 ==> forall c: Span :: EntropicSecret(text, highEntropy, c) ==> Meets(c, spans))
  }

  ghost predicate MetBelow(text: string, highEntropy: string -> bool, ranks: nat, c: Span, spans: seq<Span>) {
    exists s <- spans :: Overlap(s, c) && DetectedBelow(text, highEntropy, ranks, s)
  }

  /** Every vendor secret ends where a chosen span ends that leads its run, and every `sk-` one
      lies inside one. */
  ghost predicate VendorsMet(text: string, spans: seq<Span>) {
    && (forall v, c: Span :: v in Vendors() && VendorSecret(text, v, c) ==> LeadEnds(text, c.end, spans))
    && (forall c: Span :: VendorSecret(text, Vendors()[0], c) ==>
         exists s <- spans :: s.start <= c.start && s.end == c.end)
  }

  ghost predicate LeadEnds(text: string, end: nat, spans: seq<Span>) {
    exists s <- spans :: s.end == end && Lead(text, s)
  }

  /** What `find_secret_spans` promises of its result. */
  ghost predicate SecretSpansOf(text: string, highEntropy: string -> bool, spans: seq<Span>) {
    && (forall k, m :: 0 <= k < m < |spans| ==> spans[k].end <= spans[m].start)
    && VendorsMet(text, spans)
    && exists jwts :: JwtDone(text, jwts, |text|) && Chosen(text, highEntropy, 4, jwts, spans)
  }

  method VendorSpans(text: string) returns (spans: seq<Span>)
    ensures Apart(spans) && VendorsMet(text, spans)
    ensures forall s <- spans :: InText(text, s) && AnyVendorSecret(text, s)
  {
    hide VendorDone, Vendors;
    spans := [];
    var vendors := Vendors();
    NoVendorYet(text, vendors[0]);
    spans := AddVendorSpans(text, vendors[0], []);
    FirstVendorCovered(text, spans);
    for k := 1 to |vendors|
      invariant VendorsDone(text, k, spans)
    {
      VendorRestart(text, vendors[k], k, spans);
      ghost var before := spans;
      spans := AddVendorSpans(text, vendors[k], spans);
      NextVendorDone(text, k, before, spans);
    }
    AllVendorsDone(text, spans);
  }

  /** The first `k` vendors are done. */
  ghost predicate VendorsDone(text: string, k: nat, spans: seq<Span>)
    requires k <= 8
  {
    && Apart(spans)
    && (forall s <- spans :: AnyVendorSecret(text, s) && Run(text, TokenChar, s.start, s.end))
    && (forall m, c: Span :: 0 <= m < k && VendorSecret(text, Vendors()[m], c) ==> EndsOneOf(c.end, spans))
    && (k > 0 ==> forall c: Span :: VendorSecret(text, Vendors()[0], c) ==>
         exists s <- spans :: s.start <= c.start && s.end == c.end)
    && (forall s <- spans :: Lead(text, s))
  }

  lemma NoVendorYet(text: string, v: Vendor)
    ensures VendorDone(text, v, [], [], 0)
  {
  }

  lemma FirstVendorCovered(text: string, spans: seq<Span>)
    requires VendorDone(text, Vendors()[0], [], spans, |text|)
    ensures VendorsDone(text, 1, spans)
  {
    hide Vendors, Run;
    assert forall c: Span :: VendorSecret(text, Vendors()[0], c) ==> c.start < |text|;
    forall s | s in spans ensures Lead(text, s) {
      assert Leads(text, 0, s);
    }
  }

  lemma VendorRestart(text: string, v: Vendor, k: nat, spans: seq<Span>)
    requires k <= 8 && VendorsDone(text, k, spans)
    ensures VendorDone(text, v, spans, spans, 0)
  {
  }

  lemma NextVendorDone(text: string, k: nat, before: seq<Span>, spans: seq<Span>)
    requires 0 < k < 8 && VendorsDone(text, k, before) && VendorDone(text, Vendors()[k], before, spans, |text|)
    ensures VendorsDone(text, k + 1, spans)
  {
    hide Vendors, Run, Leftmost, VendorSecret, Lead, AnyVendorSecret;
    assert forall s <- before :: s in spans;
    forall s | s in spans ensures Lead(text, s) {
      if s !in before {
        NewSpanLeads(text, k, before, spans, s);
      }
    }
    NextVendorEnds(text, k, before, spans);
  }

  lemma NextVendorEnds(text: string, k: nat, before: seq<Span>, spans: seq<Span>)
    requires 0 < k < 8 && VendorDone(text, Vendors()[k], before, spans, |text|)
    requires forall m, c: Span :: 0 <= m < k && VendorSecret(text, Vendors()[m], c) ==> EndsOneOf(c.end, before)
    ensures forall m, c: Span :: 0 <= m <= k && VendorSecret(text, Vendors()[m], c) ==> EndsOneOf(c.end, spans)
  {
    hide Vendors, Run, Leftmost, Lead, AnyVendorSecret;
    assert forall s <- before :: s in spans;
    forall m, c: Span | 0 <= m <= k && VendorSecret(text, Vendors()[m], c) ensures EndsOneOf(c.end, spans) {
      assert c.start < |text|;
    }
  }

  lemma NewSpanLeads(text: string, k: nat, before: seq<Span>, spans: seq<Span>, s: Span)
    requires 0 < k < 8 && VendorsDone(text, k, before) && Apart(spans) && before <= spans
    requires s in spans && s !in before && Leftmost(text, Vendors()[k], s) && AnyVendorSecret(text, s)
    ensures Lead(text, s)
  {
    hide Vendors, Run, Leftmost, VendorSecret;
    forall l, c: Span | 0 <= l < k && VendorSecret(text, Vendors()[l], c) ensures c.end != s.end {
      assert EndsOneOf(c.end, before);
      var t :| t in before && t.end == c.end;
      VendorSecretNonEmpty(text, t);
      VendorSecretNonEmpty(text, s);
      if t.end == s.end {
        SameEndSame(spans, t, s);
      }
    }
    assert Leads(text, k, s);
  }

  lemma SameEndSame(spans: seq<Span>, a: Span, b: Span)
    requires Apart(spans) && a in spans && b in spans && a.end == b.end && a.start < a.end && b.start < b.end
    ensures a == b
  {
    var i, j :| 0 <= i < |spans| && 0 <= j < |spans| && spans[i] == a && spans[j] == b;
    assert Overlap(a, b) && Overlap(b, a);
  }

  lemma AllVendorsDone(text: string, spans: seq<Span>)
    requires VendorsDone(text, 8, spans)
    ensures VendorsMet(text, spans)
    ensures forall s <- spans :: InText(text, s)
  {
    hide Vendors, Lead;
    forall s | s in spans ensures InText(text, s) {
      var v :| v in Vendors() && VendorSecret(text, v, s);
    }
    forall v, c: Span | v in Vendors() && VendorSecret(text, v, c) ensures LeadEnds(text, c.end, spans) {
      var m :| 0 <= m < 8 && Vendors()[m] == v;
      assert EndsOneOf(c.end, spans);
    }
  }

  // ---- sorting ---------------------------------------------------------------------

  function InsertByStart(s: Span, sorted: seq<Span>): (r: seq<Span>)
    ensures multiset(r) == multiset(sorted) + multiset{s}
  {
    if sorted == [] || s.start < sorted[0].start then [s] + sorted
    else
      assert sorted == [sorted[0]] + sorted[1..];
      [sorted[0]] + InsertByStart(s, sorted[1..])
  }

  /** `spans.sort_by_key(|&(s, _)| s)` */
  function SortByStart(spans: seq<Span>): (r: seq<Span>)
    ensures multiset(r) == multiset(spans)
  {
    if spans == [] then []
    else
      assert spans == spans[..|spans| - 1] + [spans[|spans| - 1]];
      InsertByStart(spans[|spans| - 1], SortByStart(spans[..|spans| - 1]))
  }

  ghost predicate SortedStarts(spans: seq<Span>) {
    forall k, m :: 0 <= k < m < |spans| ==> spans[k].start <= spans[m].start
  }

  lemma {:induction false} InsertKeepsSorted(s: Span, sorted: seq<Span>)
    requires SortedStarts(sorted)
    ensures SortedStarts(InsertByStart(s, sorted))
  {
    if sorted != [] && sorted[0].start <= s.start {
      InsertKeepsSorted(s, sorted[1..]);
      var rest := InsertByStart(s, sorted[1..]);
      forall t | t in rest ensures sorted[0].start <= t.start {
        assert t in multiset(rest);
      }
    }
  }

  lemma {:induction false} SortSorts(spans: seq<Span>)
    ensures SortedStarts(SortByStart(spans))
  {
    if spans != [] {
      SortSorts(spans[..|spans| - 1]);
      InsertKeepsSorted(spans[|spans| - 1], SortByStart(spans[..|spans| - 1]));
    }
  }

  lemma SameElements(a: seq<Span>, b: seq<Span>)
    requires multiset(a) == multiset(b)
    ensures forall s :: s in a <==> s in b
  {
    assert forall s :: s in a <==> s in multiset(a);
  }

  /** Disjointness does not depend on the order. */
  lemma {:induction false} ApartPermutes(a: seq<Span>, b: seq<Span>)
    requires multiset(a) == multiset(b) && Apart(a) && forall s <- a :: s.start < s.end
    ensures Apart(b)
  {
    SameElements(a, b);
    forall k, m | 0 <= k < m < |b| ensures !Overlap(b[k], b[m]) {
      if b[k] == b[m] {
        assert b == b[..k] + [b[k]] + b[k + 1..m] + [b[m]] + b[m + 1..];
        assert multiset(b)[b[k]] >= 2;
        AtMostOnce(a, b[k]);
      } else {
        var i, j :| 0 <= i < |a| && 0 <= j < |a| && a[i] == b[k] && a[j] == b[m];
        assert i < j || j < i;
      }
    }
  }

  lemma {:induction false} AtMostOnce(a: seq<Span>, s: Span)
    requires Apart(a) && s.start < s.end
    ensures multiset(a)[s] <= 1
  {
    if a != [] {
      assert a == [a[0]] + a[1..];
      AtMostOnce(a[1..], s);
      assert forall m :: 0 < m < |a| ==> !Overlap(a[0], a[m]);
      assert Overlap(s, s);
    }
  }

  // ---- find_secret_spans -----------------------------------------------------------

  method FindSecretSpans(text: string, highEntropy: string -> bool) returns (spans: seq<Span>)
    ensures SecretSpansOf(text, highEntropy, spans)
  {
    hide JwtDone, Jwt, AssignedSecret, EntropicSecret, Apart, VendorsMet, AnyVendorSecret, Chosen, Meets, SecretSpansOf;
    var vendors := VendorSpans(text);
    var jwts := FindJwtShapes(text);
    var values := FindAssignmentValues(text);
    var words := FindHighEntropyTokens(text, highEntropy);
    CandidatesInText(text, highEntropy, jwts);
    VendorsChosen(text, highEntropy, jwts, vendors);
    var two := PushAll(vendors, jwts);
    ChosenStep(text, highEntropy, 1, jwts, vendors, jwts, two);
    var three := PushAll(two, values);
    ChosenStep(text, highEntropy, 2, jwts, two, values, three);
    var four := PushAll(three, words);
    ChosenStep(text, highEntropy, 3, jwts, three, words, four);
    VendorsStayMet(text, vendors, four);
    spans := SortByStart(four);
    SortedChoice(text, highEntropy, jwts, four);
  }

  lemma CandidatesInText(text: string, highEntropy: string -> bool, jwts: seq<Span>)
    requires JwtDone(text, jwts, |text|)
    ensures forall c <- jwts :: InText(text, c) && Jwt(text, c)
    ensures forall c: Span :: AssignedSecret(text, c) || EntropicSecret(text, highEntropy, c) ==> InText(text, c)
  {
    hide SuspiciousWord, ValueStart, Labels;
  }

  lemma VendorsChosen(text: string, highEntropy: string -> bool, jwts: seq<Span>, spans: seq<Span>)
    requires Apart(spans) && forall s <- spans :: InText(text, s) && AnyVendorSecret(text, s)
    ensures Chosen(text, highEntropy, 1, jwts, spans)
  {
    hide AnyVendorSecret;
    assert forall s <- spans :: Detected(text, highEntropy, 0, s);
  }

  /** The offers of the detector of rank `rank`. */
  lemma ChosenStep(text: string, highEntropy: string -> bool, rank: nat, jwts: seq<Span>,
                   before: seq<Span>, candidates: seq<Span>, out: seq<Span>)
    requires 1 <= rank <= 3 && Chosen(text, highEntropy, rank, jwts, before)
    requires forall c <- candidates :: InText(text, c) && Detected(text, highEntropy, rank, c)
    requires rank == 1 ==> candidates == jwts
    requires rank == 2 ==> forall c: Span :: AssignedSecret(text, c) ==> c in candidates
    requires rank == 3 ==> forall c: Span :: EntropicSecret(text, highEntropy, c) ==> c in candidates
    requires Apart(out) && before <= out && forall s <- out :: s in before || s in candidates
    requires forall c <- candidates :: Meets(c, out)
    ensures Chosen(text, highEntropy, rank + 1, jwts, out)
  {
    hide Detected, AssignedSecret, EntropicSecret, Apart, InText, Overlap;
    assert forall s <- before :: s in out;
    forall s | s in out ensures InText(text, s) && DetectedBelow(text, highEntropy, rank + 1, s) {
    }
    MeetsGrows(before, out);
  }

  lemma VendorsStayMet(text: string, spans: seq<Span>, more: seq<Span>)
    requires VendorsMet(text, spans) && forall s <- spans :: s in more
    ensures VendorsMet(text, more)
  {
    hide VendorSecret, Vendors;
  }

  lemma SortedChoice(text: string, highEntropy: string -> bool, jwts: seq<Span>, spans: seq<Span>)
    requires JwtDone(text, jwts, |text|) && Chosen(text, highEntropy, 4, jwts, spans) && VendorsMet(text, spans)
    ensures SecretSpansOf(text, highEntropy, SortByStart(spans))
  {
    hide Detected, AssignedSecret, EntropicSecret, JwtDone, VendorsMet, DetectedBelow;
    var sorted := SortByStart(spans);
    SortSorts(spans);
    SameElements(spans, sorted);
    ApartPermutes(spans, sorted);
    VendorsStayMet(text, spans, sorted);
    assert Chosen(text, highEntropy, 4, jwts, sorted);
  }

  // ---- the chosen spans as a partition of the text ---------------------------------

  /** Non-empty, in bounds, in order and disjoint, from index `last` on. */
  predicate SpansFrom(text: string, spans: seq<Span>, last: nat) {
    if spans == [] then last <= |text|
    else last <= spans[0].start && InText(text, spans[0]) && SpansFrom(text, spans[1..], spans[0].end)
  }

  lemma {:induction false} OrderedSpansFrom(text: string, spans: seq<Span>, last: nat)
    requires last <= |text| && (spans != [] ==> last <= spans[0].start)
    requires forall s <- spans :: InText(text, s)
    requires forall k, m :: 0 <= k < m < |spans| ==> spans[k].end <= spans[m].start
    ensures SpansFrom(text, spans, last)
  {
    if spans != [] {
      assert InText(text, spans[0]);
      OrderedSpansFrom(text, spans[1..], spans[0].end);
    }
  }

  lemma SecretSpansPartition(text: string, highEntropy: string -> bool, spans: seq<Span>)
    requires SecretSpansOf(text, highEntropy, spans)
    ensures SpansFrom(text, spans, 0) && forall s <- spans :: InText(text, s)
  {
    hide Detected, VendorsMet, JwtDone, AssignedSecret, EntropicSecret, Apart, DetectedBelow, MetBelow, Meets;
    var jwts :| JwtDone(text, jwts, |text|) && Chosen(text, highEntropy, 4, jwts, spans);
    OrderedSpansFrom(text, spans, 0);
  }

  // ---- which vendor secrets are covered whole --------------------------------------

  ghost predicate Covered(p: nat, spans: seq<Span>) {
    exists s <- spans :: s.start <= p < s.end
  }

  ghost predicate WhollyInside(c: Span, spans: seq<Span>) {
    forall p: nat :: c.start <= p < c.end ==> Covered(p, spans)
  }

  lemma LeadUnique(text: string, a: Span, b: Span)
    requires Lead(text, a) && Lead(text, b) && a.end == b.end
    ensures a == b
  {
    hide Vendors, VendorSecret;
    var l, m :| Leads(text, l, a) && Leads(text, m, b);
  }

  /** No detector's candidate ends inside a run of token characters. */
  lemma EndsAtRunEnd(text: string, highEntropy: string -> bool, rank: nat, d: Span)
    requires Detected(text, highEntropy, rank, d)
    ensures InText(text, d) && (d.end < |text| ==> !TokenChar(text[d.end]))
  {
    hide MatchesAt, SuspiciousWord, Labels, ValueStart;
    match rank
    case 0 =>
    case 1 =>
      var a, b :| JwtShape(text, d.start, a, b, d.end);
    case _ =>
  }

  /** In order, and none ends inside a run of token characters. */
  predicate Rounded(text: string, spans: seq<Span>) {
    && (forall k, m :: 0 <= k < m < |spans| ==> spans[k].end <= spans[m].start)
    && (forall d <- spans :: InText(text, d) && (d.end < |text| ==> !TokenChar(text[d.end])))
  }

  /** What is in front of the chosen secret of a run of token characters is in no other span. */
  lemma HeadIsBare(text: string, spans: seq<Span>, start: nat, lead: Span, p: nat)
    requires Rounded(text, spans) && lead in spans && start <= p < lead.start
    requires forall q :: start <= q < lead.end ==> TokenChar(text[q])
    ensures !Covered(p, spans)
  {
    forall d | d in spans ensures !(d.start <= p < d.end) {
      var i, j :| 0 <= i < |spans| && 0 <= j < |spans| && spans[i] == d && spans[j] == lead;
    }
  }

  lemma ChosenAreRounded(text: string, highEntropy: string -> bool, spans: seq<Span>)
    requires SecretSpansOf(text, highEntropy, spans)
    ensures Rounded(text, spans) && VendorsMet(text, spans)
  {
    hide VendorsMet, JwtDone, Detected, AssignedSecret, EntropicSecret, MetBelow, Meets, Apart;
    forall d | d in spans ensures InText(text, d) && (d.end < |text| ==> !TokenChar(text[d.end])) {
      var rank: nat :| rank < 4 && Detected(text, highEntropy, rank, d);
      EndsAtRunEnd(text, highEntropy, rank, d);
    }
  }

  /** A vendor secret lies wholly inside the chosen spans exactly if the leading secret of its
      run begins at or before it; otherwise exactly the part in front of the leading secret is
      left in the clear. */
  lemma WhollyInsideExactly(text: string, highEntropy: string -> bool, spans: seq<Span>, m: nat, c: Span, lead: Span)
    requires SecretSpansOf(text, highEntropy, spans) && m < 8 && VendorSecret(text, Vendors()[m], c)
    requires Lead(text, lead) && lead.end == c.end
    ensures WhollyInside(c, spans) <==> lead.start <= c.start
    ensures forall p: nat :: c.start <= p < c.end ==> (Covered(p, spans) <==> lead.start <= p)
  {
    hide Vendors, SecretSpansOf, VendorSecret, Covered, Lead, VendorsMet;
    ChosenAreRounded(text, highEntropy, spans);
    LeadIsChosen(text, spans, m, c, lead);
    assert WhollyInside(c, spans) ==> Covered(c.start, spans);
    forall p: nat | c.start <= p < c.end ensures Covered(p, spans) <==> lead.start <= p {
      if p < lead.start {
        HeadIsBare(text, spans, c.start, lead, p);
      } else {
        CoveredBy(p, spans, lead);
      }
    }
  }

  lemma CoveredBy(p: nat, spans: seq<Span>, s: Span)
    requires s in spans && s.start <= p < s.end
    ensures Covered(p, spans)
  {
  }

  lemma LeadIsChosen(text: string, spans: seq<Span>, m: nat, c: Span, lead: Span)
    requires VendorsMet(text, spans) && m < 8 && VendorSecret(text, Vendors()[m], c)
    requires Lead(text, lead) && lead.end == c.end
    ensures lead in spans && lead.start < lead.end && c.start < c.end <= |text|
    ensures forall q :: c.start <= q < c.end ==> TokenChar(text[q])
  {
    hide Lead, MatchesAt;
    assert Vendors()[m] in Vendors();
    assert LeadEnds(text, c.end, spans);
    var s :| s in spans && s.end == c.end && Lead(text, s);
    LeadUnique(text, s, lead);
    LeadNonEmpty(text, lead);
    VendorRun(text, Vendors()[m], c);
  }

  lemma LeadNonEmpty(text: string, s: Span)
    requires Lead(text, s)
    ensures s.start < s.end
  {
    hide Run, MatchesAt;
    var m :| Leads(text, m, s);
    assert Vendors()[m] in Vendors();
  }

  /** Any detector's candidate that some vendor secret overlaps is chosen as it is exactly if it
      is the leading secret of a run: that one is chosen, and overlaps it too. */
  lemma UnderVendorExactly(text: string, highEntropy: string -> bool, spans: seq<Span>, rank: nat, c: Span, m: nat,
                           v: Span)
    requires SecretSpansOf(text, highEntropy, spans) && Detected(text, highEntropy, rank, c)
    requires m < 8 && VendorSecret(text, Vendors()[m], v) && Overlap(v, c)
    ensures c in spans <==> Lead(text, c)
  {
    hide Vendors, SecretSpansOf, VendorSecret, Lead, VendorsMet, Detected;
    ChosenAreRounded(text, highEntropy, spans);
    EndsAtRunEnd(text, highEntropy, rank, c);
    var lead := LeadOver(text, spans, m, v, c);
    if c in spans {
      SameIfOverlap(text, spans, c, lead);
    }
    if Lead(text, c) {
      LeadSecret(text, c);
      var l: nat :| l < 8 && VendorSecret(text, Vendors()[l], c);
      LeadIsChosen(text, spans, l, c, c);
    }
  }

  lemma LeadSecret(text: string, c: Span)
    requires Lead(text, c)
    ensures exists l: nat :: l < 8 && VendorSecret(text, Vendors()[l], c)
  {
    hide Vendors, VendorSecret;
    var l :| Leads(text, l, c);
    assert VendorSecret(text, Vendors()[l], c);
  }

  /** The leading secret of the run of `v` overlaps whatever `v` overlaps, if that does not end
      inside the run. */
  lemma LeadOver(text: string, spans: seq<Span>, m: nat, v: Span, c: Span) returns (lead: Span)
    requires VendorsMet(text, spans) && m < 8 && VendorSecret(text, Vendors()[m], v) && Overlap(v, c)
    requires InText(text, c) && (c.end < |text| ==> !TokenChar(text[c.end]))
    ensures lead in spans && Lead(text, lead) && Overlap(lead, c) && lead.start < lead.end
  {
    hide Lead, MatchesAt;
    assert Vendors()[m] in Vendors();
    assert LeadEnds(text, v.end, spans);
    lead :| lead in spans && lead.end == v.end && Lead(text, lead);
    LeadNonEmpty(text, lead);
    VendorRun(text, Vendors()[m], v);
  }

  lemma SameIfOverlap(text: string, spans: seq<Span>, a: Span, b: Span)
    requires Rounded(text, spans) && a in spans && b in spans && Overlap(a, b)
    ensures a == b
  {
    var i, j :| 0 <= i < |spans| && 0 <= j < |spans| && spans[i] == a && spans[j] == b;
  }

  /** An assignment value or a high-entropy word that no other candidate of any detector overlaps
      is chosen as it is. */
  lemma AloneIsChosen(text: string, highEntropy: string -> bool, spans: seq<Span>, c: Span)
    requires SecretSpansOf(text, highEntropy, spans)
    requires AssignedSecret(text, c) || EntropicSecret(text, highEntropy, c)
    requires forall rank: nat, d: Span :: Detected(text, highEntropy, rank, d) && Overlap(d, c) ==> d == c
    ensures c in spans
  {
    hide VendorsMet, JwtDone, AssignedSecret, EntropicSecret, Apart, Detected;
    var jwts :| JwtDone(text, jwts, |text|) && Chosen(text, highEntropy, 4, jwts, spans);
    var s :| s in spans && Overlap(s, c);
    assert DetectedBelow(text, highEntropy, 4, s);
  }

  // ---- a secret whose head stays in the clear --------------------------------------

  function TokenHead(): (r: string)
    ensures |r| == 15 && r[..4] == "gho_"
    ensures forall k :: 0 <= k < 15 ==> TokenChar(r[k]) && r[k] != 's'
  {
    "gho_AAAAAAAAAA-"
  }

  function KeyTail(): (r: string)
    ensures |r| == 27 && r[..3] == "sk-" && forall k :: 0 <= k < 27 ==> TokenChar(r[k])
  {
    "sk-BBBBBBBBBBBBBBBBBBBBBBBB"
  }

  /** A GitHub token whose run also holds a long enough `sk-` key. */
  function TwoInOneRun(): (r: string)
    ensures |r| == 42 && forall k :: 0 <= k < 42 ==> TokenChar(r[k])
    ensures r[0..4] == "gho_" && r[15..18] == "sk-" && forall k :: 0 <= k < 15 ==> r[k] != 's'
  {
    var r := TokenHead() + KeyTail();
    assert r[0..4] == TokenHead()[..4] && r[15..18] == KeyTail()[..3];
    r
  }

  lemma SkHere(t: string, i: nat)
    requires MatchesAt(t, "sk-", i)
    ensures t[i] == 's'
  {
    MatchIsSlice(t, "sk-", i);
    assert t[i] == t[i..i + 3][0];
  }

  lemma GhoAndSk()
    ensures VendorSecret(TwoInOneRun(), Vendors()[2], Span(0, 42))
    ensures Leads(TwoInOneRun(), 0, Span(15, 42))
  {
    hide TwoInOneRun, TokenChar;
    var t := TwoInOneRun();
    MatchIsSlice(t, "gho_", 0);
    MatchIsSlice(t, "sk-", 15);
    forall c: Span | VendorSecret(t, Vendors()[0], c) && c.end == 42 ensures 15 <= c.start {
      SkHere(t, c.start);
    }
  }

  /** Whatever is chosen for that text, the token's first fifteen characters stay in the clear. */
  lemma HeadLeftInTheClear(highEntropy: string -> bool, spans: seq<Span>)
    requires SecretSpansOf(TwoInOneRun(), highEntropy, spans)
    ensures VendorSecret(TwoInOneRun(), Vendors()[2], Span(0, 42)) && !WhollyInside(Span(0, 42), spans)
    ensures forall p: nat :: p < 42 ==> (Covered(p, spans) <==> 15 <= p)
  {
    hide TwoInOneRun, SecretSpansOf, VendorSecret, Covered, WhollyInside, Vendors, Leftmost;
    GhoAndSk();
    assert Lead(TwoInOneRun(), Span(15, 42));
    WhollyInsideExactly(TwoInOneRun(), highEntropy, spans, 2, Span(0, 42), Span(15, 42));
  }
}
