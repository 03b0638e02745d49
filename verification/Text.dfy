/** Strings as the Rust sources use them: byte-indexed substring search, ASCII character
    classes, trimming and decimal printing. One `char` stands for one byte, so indices agree
    with the sources on ASCII text. */
module Text {

  datatype Option<+T> = None | Some(value: T)

  datatype Result<+T, +E> = Ok(value: T) | Err(error: E)

  type Bytes = seq<bv8>

  /** `AtomicU64` counters wrap here. */
  const COUNTER_RANGE: nat := 0x1_0000_0000_0000_0000

  lemma Sandwich<T>(x: seq<T>, y: seq<T>, z: seq<T>)
    ensures var s := x + y + z;
      s[..|x|] == x && s[|x|..|s| - |z|] == y && s[|s| - |z|..] == z
  {
  }

  // ---- substring search ------------------------------------------------------------

  predicate MatchesAt(text: string, pat: string, i: int) {
    0 <= i && i + |pat| <= |text| && forall k :: 0 <= k < |pat| ==> text[i + k] == pat[k]
  }

  lemma MatchBounds(text: string, pat: string, i: int)
    requires MatchesAt(text, pat, i)
    ensures 0 <= i && i + |pat| <= |text|
  {
  }

  ghost predicate Contains(text: string, pat: string) {
    exists i :: MatchesAt(text, pat, i)
  }

  /** `text[from..].find(pat)`, as an absolute index. */
  function FindFrom(text: string, pat: string, from: nat): (r: Option<nat>)
    requires from <= |text|
    ensures r.Some? ==> from <= r.value && MatchesAt(text, pat, r.value)
    ensures r.Some? ==> forall j :: from <= j < r.value ==> !MatchesAt(text, pat, j)
    ensures r.None? ==> forall j :: from <= j ==> !MatchesAt(text, pat, j)
    decreases |text| - from
  {
    if MatchesAt(text, pat, from) then Some(from)
    else if from == |text| then None
    else FindFrom(text, pat, from + 1)
  }

  lemma FoundFirst(text: string, pat: string, from: nat, at: nat)
    requires from <= at && MatchesAt(text, pat, at)
    requires forall j :: from <= j < at ==> !MatchesAt(text, pat, j)
    ensures from <= |text| && FindFrom(text, pat, from) == Some(at)
  {
  }

  lemma MatchIsSlice(text: string, pat: string, i: int)
    ensures MatchesAt(text, pat, i) <==> 0 <= i && i + |pat| <= |text| && text[i..i + |pat|] == pat
  {
    if 0 <= i && i + |pat| <= |text| {
      var slice := text[i..i + |pat|];
      assert forall k :: 0 <= k < |pat| ==> slice[k] == text[i + k];
    }
  }

  /** A pattern without a border: no proper suffix of it is also a prefix. */
  ghost predicate Borderless(pat: string) {
    forall k :: 0 < k < |pat| ==> pat[k..] != pat[..|pat| - k]
  }

  lemma OverlapGivesBorder(text: string, pat: string, i: nat, j: nat)
    requires MatchesAt(text, pat, i) && MatchesAt(text, pat, j) && i < j < i + |pat|
    ensures pat[j - i..] == pat[..|pat| - (j - i)]
  {
    var tail, head := pat[j - i..], pat[..|pat| - (j - i)];
    forall k | 0 <= k < |tail| ensures tail[k] == head[k] {
      assert pat[j - i + k] == text[i + (j - i + k)] == text[j + k] == pat[k];
    }
  }

  /** A match in a slice is a match of the whole. */
  lemma MatchInSlice(text: string, lo: nat, hi: nat, pat: string, i: int)
    requires lo <= hi <= |text| && lo <= i && i + |pat| <= hi
    ensures MatchesAt(text, pat, i) <==> MatchesAt(text[lo..hi], pat, i - lo)
  {
    var slice := text[lo..hi];
    assert forall j :: 0 <= j < |slice| ==> slice[j] == text[lo + j];
    if MatchesAt(slice, pat, i - lo) {
      forall k | 0 <= k < |pat| ensures text[i + k] == pat[k] {
        assert slice[i - lo + k] == pat[k];
      }
    }
  }

  /** A borderless pattern right after a gap that does not contain it is found there: no
      occurrence can begin in the gap and end inside the occurrence that follows. */
  lemma FoundAfterGap(text: string, pat: string, i: nat, at: nat)
    requires i <= at && MatchesAt(text, pat, at)
    requires Borderless(pat) && !Contains(text[i..at], pat)
    ensures FindFrom(text, pat, i) == Some(at)
  {
    assert at + |pat| <= |text|;
    hide MatchesAt;
    forall j | i <= j < at ensures !MatchesAt(text, pat, j) {
      if j + |pat| <= at {
        MatchInSlice(text, i, at, pat, j);
      } else if MatchesAt(text, pat, j) {
        OverlapGivesBorder(text, pat, j, at);
      }
    }
    FoundFirst(text, pat, i, at);
  }

  // ---- character classes -----------------------------------------------------------

  /** `char::is_whitespace` on ASCII. */
  predicate IsSpace(c: char) {
    c == ' ' || '\t' <= c <= '\r'
  }

  predicate IsDigit(c: char) {
    '0' <= c <= '9'
  }

  predicate IsLower(c: char) {
    'a' <= c <= 'z'
  }

  predicate IsUpper(c: char) {
    'A' <= c <= 'Z'
  }

  predicate IsAlpha(c: char) {
    IsLower(c) || IsUpper(c)
  }

  predicate IsAlnum(c: char) {
    IsAlpha(c) || IsDigit(c)
  }

  predicate AllDigits(s: string) {
    forall k :: 0 <= k < |s| ==> IsDigit(s[k])
  }

  // ---- lower case ------------------------------------------------------------------

  function LowerChar(c: char): char {
    if IsUpper(c) then (c as int + 32) as char else c
  }

  /** `to_lowercase` on ASCII. */
  function Lower(s: string): (r: string)
    ensures |r| == |s|
  {
    seq(|s|, k requires 0 <= k < |s| => LowerChar(s[k]))
  }

  // ---- trimming --------------------------------------------------------------------

  function TrimStart(s: string): (r: string)
    ensures |r| <= |s|
  {
    if s != "" && IsSpace(s[0]) then TrimStart(s[1..]) else s
  }

  function TrimEnd(s: string): (r: string)
    ensures |r| <= |s|
  {
    if s != "" && IsSpace(s[|s| - 1]) then TrimEnd(s[..|s| - 1]) else s
  }

  /** What is cut off in front is space, what stays begins with something else. */
  lemma {:induction false} TrimStartExactly(s: string)
    ensures var r := TrimStart(s);
      && r == s[|s| - |r|..] && (forall k :: 0 <= k < |s| - |r| ==> IsSpace(s[k])) && (r != "" ==> !IsSpace(r[0]))
  {
    if s != "" && IsSpace(s[0]) {
      TrimStartExactly(s[1..]);
    }
  }

  lemma {:induction false} TrimEndExactly(s: string)
    ensures var r := TrimEnd(s);
      && r == s[..|r|] && (forall k :: |r| <= k < |s| ==> IsSpace(s[k])) && (r != "" ==> !IsSpace(r[|r| - 1]))
  {
    if s != "" && IsSpace(s[|s| - 1]) {
      TrimEndExactly(s[..|s| - 1]);
    }
  }

  function Trim(s: string): string {
    TrimEnd(TrimStart(s))
  }

  predicate Trimmed(s: string) {
    s == "" || (!IsSpace(s[0]) && !IsSpace(s[|s| - 1]))
  }

  lemma TrimFixesTrimmed(s: string)
    ensures Trimmed(s) <==> Trim(s) == s
  {
    var t := TrimStart(s);
    TrimStartExactly(s);
    TrimEndExactly(t);
    if Trim(s) == s {
      assert |t| == |s|;
    }
  }

  function StripPrefix(s: string, p: string): Option<string> {
    if p <= s then Some(s[|p|..]) else None
  }

  function StripSuffix(s: string, p: string): Option<string> {
    if |p| <= |s| && s[|s| - |p|..] == p then Some(s[..|s| - |p|]) else None
  }

  // ---- splitting -------------------------------------------------------------------

  /** `s.rsplit_once(c)` */
  function SplitLast(s: string, c: char): (r: Option<(string, string)>)
    ensures r.Some? ==> s == r.value.0 + [c] + r.value.1 && c !in r.value.1
    ensures r.None? ==> c !in s
  {
    if s == "" then None
    else if s[|s| - 1] == c then Some((s[..|s| - 1], ""))
    else
      match SplitLast(s[..|s| - 1], c)
      case None => None
      case Some((left, right)) => Some((left, right + [s[|s| - 1]]))
  }

  lemma {:induction false} SplitLastOfJoined(left: string, c: char, right: string)
    requires c !in right
    ensures SplitLast(left + [c] + right, c) == Some((left, right))
    decreases |right|
  {
    var s := left + [c] + right;
    if right == "" {
      assert s[..|s| - 1] == left;
    } else {
      var shorter := right[..|right| - 1];
      assert s[..|s| - 1] == left + [c] + shorter;
      SplitLastOfJoined(left, c, shorter);
      assert right == shorter + [s[|s| - 1]];
    }
  }

  /** `s.split_once(c)` */
  function SplitFirst(s: string, c: char): Option<(string, string)> {
    if s == "" then None
    else if s[0] == c then Some(("", s[1..]))
    else
      match SplitFirst(s[1..], c)
      case None => None
      case Some((left, right)) => Some(([s[0]] + left, right))
  }

  /** Exactly the texts with a `c` are split, and at the first one. */
  lemma {:induction false} SplitFirstExactly(s: string, c: char)
    ensures SplitFirst(s, c).Some? <==> c in s
    ensures SplitFirst(s, c).Some? ==>
        var (left, right) := SplitFirst(s, c).value; s == left + [c] + right && c !in left
  {
    if s != "" && s[0] != c {
      SplitFirstExactly(s[1..], c);
      assert s == [s[0]] + s[1..];
    }
  }

  lemma {:induction false} SplitFirstOfJoined(left: string, c: char, right: string)
    requires c !in left
    ensures SplitFirst(left + [c] + right, c) == Some((left, right))
    decreases |left|
  {
    var s := left + [c] + right;
    if left == "" {
      assert s[0] == c && s[1..] == right;
    } else {
      assert left == [left[0]] + left[1..];
      assert s[1..] == left[1..] + [c] + right && s[0] != c;
      SplitFirstOfJoined(left[1..], c, right);
    }
  }

  /** `s.split(c)` */
  function Split(s: string, c: char): (r: seq<string>)
    ensures r != [] && forall p <- r :: c !in p
  {
    if s == "" then [""]
    else
      var rest := Split(s[1..], c);
      if s[0] == c then [""] + rest else [[s[0]] + rest[0]] + rest[1..]
  }

  function Join(parts: seq<string>, c: char): string
    requires parts != []
  {
    if |parts| == 1 then parts[0] else parts[0] + [c] + Join(parts[1..], c)
  }

  lemma {:induction false} SplitOfJoined(parts: seq<string>, c: char)
    requires parts != [] && forall p <- parts :: c !in p
    ensures Split(Join(parts, c), c) == parts
    decreases |parts|, |parts[0]|
  {
    var s, first := Join(parts, c), parts[0];
    if first != "" {
      var shorter := [first[1..]] + parts[1..];
      assert first in parts && shorter[1..] == parts[1..];
      assert first == [first[0]] + first[1..];
      assert s[0] == first[0] && s[1..] == Join(shorter, c);
      SplitOfJoined(shorter, c);
      assert parts == [first] + parts[1..];
    } else if |parts| > 1 {
      SplitOfJoined(parts[1..], c);
      assert s[1..] == Join(parts[1..], c);
      assert parts == [""] + parts[1..];
    }
  }

  // ---- decimal numbers -------------------------------------------------------------

  /** `format!("{n}")` */
  function Decimal(n: nat): (r: string)
    ensures r != "" && AllDigits(r)
  {
    if n < 10 then [('0' as int + n) as char] else Decimal(n / 10) + [('0' as int + n % 10) as char]
  }

  function NumberOf(s: string): nat
    requires AllDigits(s)
  {
    if s == "" then 0 else 10 * NumberOf(s[..|s| - 1]) + (s[|s| - 1] as int - '0' as int)
  }

  lemma {:induction false} DecimalReadsBack(n: nat)
    ensures NumberOf(Decimal(n)) == n
  {
    var s := Decimal(n);
    if n < 10 {
      assert s[..0] == "";
    } else {
      DecimalReadsBack(n / 10);
      assert s[..|s| - 1] == Decimal(n / 10);
    }
  }

  /** Printing is injective, so distinct counters print distinct names. */
  lemma DecimalInjective(m: nat, n: nat)
    requires Decimal(m) == Decimal(n)
    ensures m == n
  {
    DecimalReadsBack(m);
    DecimalReadsBack(n);
  }
}
