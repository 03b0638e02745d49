/** What the ACP bridge writes to its log, and when doing so panics. The log keeps the first
    60 or 300 bytes of a text, and slicing a text inside a character is a panic. Characters are
    Unicode scalar values here, and indices are bytes of their UTF-8 form. */
module AcpLog {
  import opened Text

  // ---- slices of UTF-8 text --------------------------------------------------------

  function CharSize(c: char): (n: nat)
    ensures 1 <= n <= 4
  {
    if c as int < 0x80 then 1 else if c as int < 0x800 then 2 else if c as int < 0x1_0000 then 3 else 4
  }

  /** The bytes of a character, by section 3 of RFC 3629. */
  function Utf8(c: char): seq<int> {
    var n := c as int;
    if n <= 0x7F then [n]
    else if n <= 0x7FF then [0xC0 + n / 0x40, 0x80 + n % 0x40]
    else if n <= 0xFFFF then [0xE0 + n / 0x1000, 0x80 + n / 0x40 % 0x40, 0x80 + n % 0x40]
    else [0xF0 + n / 0x4_0000, 0x80 + n / 0x1000 % 0x40, 0x80 + n / 0x40 % 0x40, 0x80 + n % 0x40]
  }

  /** The number that a leading byte and its continuation bytes stand for. */
  function Decoded(bytes: seq<int>): int
    requires bytes != []
  {
    if |bytes| == 1 then bytes[0]
    else if |bytes| == 2 then (bytes[0] - 0xC0) * 0x40 + (bytes[1] - 0x80)
    else if |bytes| == 3 then ((bytes[0] - 0xE0) * 0x40 + (bytes[1] - 0x80)) * 0x40 + (bytes[2] - 0x80)
    else if |bytes| == 4 then
      (((bytes[0] - 0xF0) * 0x40 + (bytes[1] - 0x80)) * 0x40 + (bytes[2] - 0x80)) * 0x40 + (bytes[3] - 0x80)
    else 0
  }

  /** The size of a character is the number of bytes that stand for it: its bytes read back as the
      character, and only the first of them looks like a first one. */
  lemma SizeIsUtf8(c: char)
    ensures |Utf8(c)| == CharSize(c) && Decoded(Utf8(c)) == c as int
    ensures forall k :: 0 < k < |Utf8(c)| ==> 0x80 <= Utf8(c)[k] < 0xC0
    ensures Utf8(c)[0] < 0x80 || 0xC0 <= Utf8(c)[0] < 0x100
  {
    var n := c as int;
    assert n / 0x1000 == n / 0x40 / 0x40 && n / 0x4_0000 == n / 0x1000 / 0x40;
  }

  function Size(s: string): nat {
    if s == "" then 0 else Size(s[..|s| - 1]) + CharSize(s[|s| - 1])
  }

  predicate IsCharBoundary(s: string, at: nat) {
    exists k :: 0 <= k <= |s| && Size(s[..k]) == at
  }

  /** A text to be logged, and how many bytes of it. */
  datatype Slice = Slice(text: string, limit: nat)

  /** `&text[..text.len().min(limit)]` panics. */
  predicate Cut(s: Slice) {
    !IsCharBoundary(s.text, if s.limit <= Size(s.text) then s.limit else Size(s.text))
  }

  predicate AnyCut(slices: seq<Slice>) {
    exists k :: 0 <= k < |slices| && Cut(slices[k])
  }

  lemma SizeOfPrefix(s: string, k: nat)
    requires k < |s|
    ensures Size(s[..k + 1]) == Size(s[..k]) + CharSize(s[k])
  {
    assert s[..k + 1][..k] == s[..k];
  }

  lemma {:induction false} SizesGrow(s: string, j: nat, k: nat)
    requires j <= k <= |s|
    ensures Size(s[..j]) + (k - j) <= Size(s[..k])
  {
    if j < k {
      SizesGrow(s, j, k - 1);
      SizeOfPrefix(s, k - 1);
    }
  }

  /** The character that a byte offset falls in or in front of. */
  lemma {:induction false} CharAround(s: string, at: nat, n: nat) returns (k: nat)
    requires n <= |s| && at < Size(s[..n])
    ensures k < n && Size(s[..k]) <= at < Size(s[..k + 1])
  {
    SizeOfPrefix(s, n - 1);
    if Size(s[..n - 1]) <= at {
      k := n - 1;
    } else {
      k := CharAround(s, at, n - 1);
    }
  }

  lemma InsideIsNoBoundary(s: string, at: nat, k: nat)
    requires k < |s| && Size(s[..k]) < at < Size(s[..k + 1])
    ensures !IsCharBoundary(s, at) && at < Size(s)
  {
    hide Size, CharSize;
    assert s[..|s|] == s;
    SizesGrow(s, k + 1, |s|);
    forall j | 0 <= j <= |s| ensures Size(s[..j]) != at {
      if j <= k {
        SizesGrow(s, j, k);
      } else {
        SizesGrow(s, k + 1, j);
      }
    }
  }

  /** A slice panics exactly when some character begins before the limit and ends after it. */
  lemma CutExactly(s: Slice)
    ensures Cut(s) <==> exists k :: 0 <= k < |s.text| && Size(s.text[..k]) < s.limit < Size(s.text[..k + 1])
  {
    hide Size, CharSize;
    var t := s.text;
    assert t[..|t|] == t;
    if k :| 0 <= k < |t| && Size(t[..k]) < s.limit < Size(t[..k + 1]) {
      InsideIsNoBoundary(t, s.limit, k);
    } else if s.limit < Size(t) {
      var k := CharAround(t, s.limit, |t|);
      assert Size(t[..k]) == s.limit;
    }
  }

  predicate IsAscii(s: string) {
    forall i :: 0 <= i < |s| ==> s[i] as int < 0x80
  }

  lemma {:induction false} AsciiSize(s: string)
    requires IsAscii(s)
    ensures Size(s) == |s|
  {
    if s != "" {
      AsciiSize(s[..|s| - 1]);
    }
  }

  lemma AsciiChar(c: char)
    requires c as int < 0x80
    ensures CharSize(c) == 1
  {
  }

  lemma AsciiNeverCut(s: Slice)
    requires IsAscii(s.text)
    ensures !Cut(s)
  {
    CutExactly(s);
    forall k | 0 <= k < |s.text| ensures Size(s.text[..k + 1]) == Size(s.text[..k]) + 1 {
      SizeOfPrefix(s.text, k);
    }
  }

  /** Around a single wide character of an otherwise ASCII text. */
  lemma OneWideChar(a: string, c: char, b: string, limit: nat)
    requires IsAscii(a) && IsAscii(b)
    ensures Cut(Slice(a + [c] + b, limit)) <==> |a| < limit < |a| + CharSize(c)
  {
    hide Cut, CharSize;
    var t := a + [c] + b;
    CutExactly(Slice(t, limit));
    assert t[..|a|] == a && t[..|a| + 1][..|a|] == a;
    AsciiSize(a);
    SizeOfPrefix(t, |a|);
    forall k | 0 <= k < |t| && k != |a| ensures Size(t[..k + 1]) == Size(t[..k]) + 1 {
      SizeOfPrefix(t, k);
      AsciiChar(t[k]);
    }
  }

  /** No slice of a text panics in an ASCII part at its end. */
  lemma AsciiTail(a: string, b: string, limit: nat)
    requires IsAscii(b) && Size(a) <= limit
    ensures !Cut(Slice(a + b, limit))
  {
    hide Cut, CharSize;
    var t := a + b;
    CutExactly(Slice(t, limit));
    forall k | 0 <= k < |t| ensures !(Size(t[..k]) < limit < Size(t[..k + 1])) {
      if k < |a| {
        assert t[..|a|] == a && t[..k + 1] == a[..k + 1] && a[..|a|] == a;
        SizesGrow(a, k + 1, |a|);
      } else {
        SizeOfPrefix(t, k);
        AsciiChar(t[k]);
      }
    }
  }

  // ---- messages on the wire --------------------------------------------------------

  function HexDigit(n: nat): char
    requires n < 16
  {
    "0123456789abcdef"[n]
  }

  function EscapedChar(c: char): string {
    if c == '"' then "\\\""
    else if c == '\\' then "\\\\"
    else if c as int == 8 then "\\b"
    else if c == '\t' then "\\t"
    else if c == '\n' then "\\n"
    else if c as int == 12 then "\\f"
    else if c == '\r' then "\\r"
    else if c as int < 0x20 then "\\u00" + [HexDigit(c as int / 16), HexDigit(c as int % 16)]
    else [c]
  }

  function Escaped(s: string): string {
    if s == "" then "" else Escaped(s[..|s| - 1]) + EscapedChar(s[|s| - 1])
  }

  /** A string as JSON text. */
  function JsonString(s: string): string {
    "\"" + Escaped(s) + "\""
  }

  predicate NeedsNoEscape(s: string) {
    forall i :: 0 <= i < |s| ==> 0x20 <= s[i] as int && s[i] != '"' && s[i] != '\\'
  }

  lemma {:induction false} NothingEscaped(s: string)
    requires NeedsNoEscape(s)
    ensures Escaped(s) == s
  {
    if s != "" {
      NothingEscaped(s[..|s| - 1]);
      assert s == s[..|s| - 1] + [s[|s| - 1]];
    }
  }

  /** The fixed parts of an update. Functions, so that proofs can hide their letters. */
  function UpdateHead(): (r: string)
    ensures |r| == 65 && IsAscii(r)
  {
    MethodHead() + "\"session/update\",\"params\":{\"sessionId\":"
  }

  function MethodHead(): (r: string)
    ensures |r| == 26 && IsAscii(r)
  {
    "{\"jsonrpc\":\"2.0\",\"method\":"
  }

  function ContentHead(): (r: string)
    ensures |r| == 29 && IsAscii(r)
  {
    ",\"update\":{\"content\":{\"text\":"
  }

  function ContentTail(): (r: string)
    ensures IsAscii(r)
  {
    ",\"type\":\"text\"},\"sessionUpdate\":"
  }

  /** `chunk`, with object keys in alphabetical order. */
  function ChunkText(session: string, text: string, kind: string): string {
    UpdateHead() + JsonString(session) + ContentHead() + JsonString(text) + ContentTail() + JsonString(kind) + "}}}"
  }

  /** The notice a turn sends before it submits its goal. */
  function NoticeText(session: string): string {
    ChunkText(session, "planning\U{2026}\n", "agent_thought_chunk")
  }

  /** `respond` and `rpc_error`: `payload` is the result, or the error object, as JSON text. */
  function AnswerText(id: string, error: bool, payload: string): string {
    if error then "{\"error\":" + payload + ",\"id\":" + id + ",\"jsonrpc\":\"2.0\"}"
    else "{\"id\":" + id + ",\"jsonrpc\":\"2.0\",\"result\":" + payload + "}"
  }

  function NoticeHead(session: string): string {
    UpdateHead() + "\"" + session + "\"" + ContentHead() + "\"planning"
  }

  function NoticeTail(): (r: string)
    ensures IsAscii(r)
  {
    "\\n\"" + ContentTail() + "\"agent_thought_chunk\"}}}"
  }

  lemma {:induction false} EscapedAdds(a: string, b: string)
    ensures Escaped(a + b) == Escaped(a) + Escaped(b)
  {
    hide EscapedChar;
    if b == "" {
      assert a + b == a;
    } else {
      EscapedAdds(a, b[..|b| - 1]);
      assert (a + b)[..|a + b| - 1] == a + b[..|b| - 1];
    }
  }

  lemma NewlineEscaped()
    ensures Escaped("\n") == "\\n"
  {
    assert "\n"[..0] == "";
  }

  lemma NoticeWords()
    ensures JsonString("planning\U{2026}\n") == "\"planning" + ['\U{2026}'] + "\\n\""
    ensures JsonString("agent_thought_chunk") == "\"agent_thought_chunk\""
  {
    hide Escaped;
    NothingEscaped("planning\U{2026}");
    NothingEscaped("agent_thought_chunk");
    NewlineEscaped();
    EscapedAdds("planning\U{2026}", "\n");
    assert "planning\U{2026}" + "\n" == "planning\U{2026}\n";
  }

  lemma NoticeParts(session: string)
    requires NeedsNoEscape(session)
    ensures NoticeText(session) == NoticeHead(session) + ['\U{2026}'] + NoticeTail()
  {
    hide UpdateHead, ContentHead, ContentTail, Escaped;
    NothingEscaped(session);
    NoticeWords();
  }

  lemma NoticeHeadSize(session: string)
    requires IsAscii(session)
    ensures IsAscii(NoticeHead(session)) && |NoticeHead(session)| == |session| + 105
  {
    hide UpdateHead, ContentHead;
  }

  /** Under an ASCII session id that needs no escaping, the notice is cut inside its ellipsis
      exactly when the id is 193 or 194 characters long. */
  lemma NoticeCutExactly(session: string)
    requires IsAscii(session) && NeedsNoEscape(session)
    ensures Cut(Slice(NoticeText(session), 300)) <==> 193 <= |session| <= 194
  {
    hide NoticeText, Cut, NoticeHead, NoticeTail, CharSize;
    NoticeParts(session);
    NoticeHeadSize(session);
    EllipsisSize();
    OneWideChar(NoticeHead(session), '\U{2026}', NoticeTail(), 300);
  }

  lemma EllipsisSize()
    ensures CharSize('\U{2026}') == 3
  {
  }

  /** Under a session id of at most 190 bytes the notice is not cut, whatever its characters. */
  lemma ShortNoticeNotCut(session: string)
    requires NeedsNoEscape(session) && Size(session) <= 190
    ensures !Cut(Slice(NoticeText(session), 300))
  {
    hide NoticeText, Cut, NoticeTail, CharSize, UpdateHead, ContentHead;
    NoticeParts(session);
    EllipsisSize();
    var head := NoticeHead(session) + ['\U{2026}'];
    assert head[..|head| - 1] == NoticeHead(session);
    NoticeHeadBytes(session);
    AsciiTail(head, NoticeTail(), 300);
  }

  lemma NoticeHeadBytes(session: string)
    ensures Size(NoticeHead(session)) == Size(session) + 105
  {
    hide UpdateHead, ContentHead, CharSize;
    var quote := "\"";
    var rest := quote + ContentHead() + "\"planning";
    assert NoticeHead(session) == UpdateHead() + quote + session + rest;
    SizeAdds(UpdateHead() + quote, session);
    SizeAdds(UpdateHead() + quote + session, rest);
    AsciiSize(UpdateHead() + quote);
    AsciiSize(rest);
  }

  lemma {:induction false} SizeAdds(a: string, b: string)
    ensures Size(a + b) == Size(a) + Size(b)
  {
    if b == "" {
      assert a + b == a;
    } else {
      SizeAdds(a, b[..|b| - 1]);
      assert (a + b)[..|a + b| - 1] == a + b[..|b| - 1];
    }
  }

  // ---- the permission request ------------------------------------------------------

  function IdHead(): (r: string)
    ensures |r| == 6 && IsAscii(r)
  {
    "{\"id\":"
  }

  function RequestMethod(): (r: string)
    ensures |r| == 55 && IsAscii(r)
  {
    ",\"jsonrpc\":\"2.0\"," + "\"method\":\"session/request_permission\","
  }

  function RaiseOption(): (r: string)
    ensures |r| == 97 && IsAscii(r)
  {
    "\"params\":{\"options\":[{\"kind\":" + "\"allow_once\",\"name\":" + "\"Raise budget and continue\","
        + "\"optionId\":\"raise\"},"
  }

  function CancelOption(): (r: string)
    ensures |r| == 81 && IsAscii(r)
  {
    "{\"kind\":\"reject_once\"," + "\"name\":\"Cancel the goal\"," + "\"optionId\":\"cancel\"}],\"sessionId\":"
  }

  function ToolCall(): (r: string)
    ensures IsAscii(r)
  {
    ",\"toolCall\":{\"title\":"
  }

  /** `session/request_permission` */
  function PermissionText(session: string, id: string, reason: string): string {
    IdHead() + JsonString(id) + RequestMethod() + RaiseOption() + CancelOption() + JsonString(session)
    + ToolCall() + JsonString("Goal blocked: " + reason) + ",\"toolCallId\":" + JsonString(id) + "}}}"
  }

  function PermissionHead(a: string): string {
    IdHead() + "\"srv-0\"" + RequestMethod() + RaiseOption() + CancelOption() + "\"" + a
  }

  function PermissionTail(b: string, reason: string): string {
    b + "\"" + ToolCall() + "\"Goal blocked: " + reason + "\"" + ",\"toolCallId\":" + "\"srv-0\"" + "}}}"
  }

  lemma FirstIdNotEscaped()
    ensures JsonString("srv-0") == "\"srv-0\""
  {
    NothingEscaped("srv-0");
  }

  lemma PermissionParts(a: string, c: char, b: string, reason: string)
    requires NeedsNoEscape(a + [c] + b) && NeedsNoEscape(reason)
    ensures PermissionText(a + [c] + b, "srv-0", reason) == PermissionHead(a) + [c] + PermissionTail(b, reason)
  {
    hide IdHead, RequestMethod, RaiseOption, CancelOption, ToolCall, Escaped;
    NothingEscaped(a + [c] + b);
    FirstIdNotEscaped();
    NothingEscaped("Goal blocked: " + reason);
    assert JsonString(a + [c] + b) == "\"" + a + [c] + (b + "\"");
    assert JsonString("Goal blocked: " + reason) == "\"Goal blocked: " + reason + "\"";
  }

  lemma PermissionPartsAscii(a: string, b: string, reason: string)
    requires IsAscii(a) && IsAscii(b) && IsAscii(reason)
    ensures IsAscii(PermissionHead(a)) && |PermissionHead(a)| == |a| + 247 && IsAscii(PermissionTail(b, reason))
  {
    hide IdHead, RequestMethod, RaiseOption, CancelOption, ToolCall;
  }

  /** The first permission request, under a session id with a single wide character, is cut
      exactly when that character straddles byte 53 of the id. */
  lemma PermissionCutExactly(a: string, c: char, b: string, reason: string)
    requires IsAscii(a) && IsAscii(b) && NeedsNoEscape(a + [c] + b) && IsAscii(reason) && NeedsNoEscape(reason)
    ensures Cut(Slice(PermissionText(a + [c] + b, "srv-0", reason), 300)) <==> |a| < 53 < |a| + CharSize(c)
  {
    hide Cut, PermissionText, PermissionHead, PermissionTail, CharSize;
    PermissionParts(a, c, b, reason);
    PermissionPartsAscii(a, b, reason);
    OneWideChar(PermissionHead(a), c, PermissionTail(b, reason), 300);
  }
}
