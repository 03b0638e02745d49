/** JSON strings, read as section 7 of RFC 8259 has them: what the bridge writes for a string is read
    back as that string. */
module JsonText {
  import opened Text
  import opened AcpLog

  function HexValue(c: char): Option<nat> {
    if '0' <= c <= '9' then Some(c as int - '0' as int)
    else if 'a' <= c <= 'f' then Some(c as int - 'a' as int + 10)
    else if 'A' <= c <= 'F' then Some(c as int - 'A' as int + 10)
    else None
  }

  function HexNumber(s: string): Option<nat> {
    if s == "" then Some(0)
    else
      match (HexNumber(s[..|s| - 1]), HexValue(s[|s| - 1]))
      case (Some(n), Some(d)) => Some(16 * n + d)
      case _ => None
  }

  /** The character that a letter after a backslash stands for. */
  function AfterBackslash(c: char): Option<char> {
    match c
    case '"' => Some('"')
    case '\\' => Some('\\')
    case '/' => Some('/')
    case 'b' => Some('\U{0008}')
    case 'f' => Some('\U{000C}')
    case 'n' => Some('\n')
    case 'r' => Some('\r')
    case 't' => Some('\t')
    case _ => None
  }

  /** The first character of the inside of a string, and the length of its spelling. Pairs of `\u`
      are not read. */
  function FirstChar(t: string): (r: Option<(char, nat)>)
    ensures r.Some? ==> 1 <= r.value.1 <= |t|
  {
    if t == "" || t[0] == '"' || t[0] as int < 0x20 then None
    else if t[0] != '\\' then Some((t[0], 1))
    else if |t| < 2 then None
    else if t[1] == 'u' then
      if |t| < 6 then None
      else
        match HexNumber(t[2..6])
        case None => None
        case Some(n) => if n < 0xD800 || 0xE000 <= n < 0x1_0000 then Some((n as char, 6)) else None
    else
      match AfterBackslash(t[1])
      case None => None
      case Some(c) => Some((c, 2))
  }

  /** The inside of a string, up to its closing quote, and what follows that. */
  function ReadInside(t: string): Option<(string, string)>
    decreases |t|
  {
    if t != "" && t[0] == '"' then Some(("", t[1..]))
    else
      match FirstChar(t)
      case None => None
      case Some((c, n)) =>
        match ReadInside(t[n..])
        case None => None
        case Some((s, rest)) => Some(([c] + s, rest))
  }

  /** A JSON string at the front of a text, and what follows it. */
  function ReadString(t: string): Option<(string, string)> {
    if t != "" && t[0] == '"' then ReadInside(t[1..]) else None
  }

  lemma HexReadsBack(n: nat)
    requires n < 16
    ensures HexValue(HexDigit(n)) == Some(n)
  {
  }

  lemma ControlReadsBack(c: char)
    requires c as int < 0x20
    ensures HexNumber("00" + [HexDigit(c as int / 16), HexDigit(c as int % 16)]) == Some(c as int)
  {
    var a, b := HexDigit(c as int / 16), HexDigit(c as int % 16);
    HexReadsBack(c as int / 16);
    HexReadsBack(c as int % 16);
    var s := "00" + [a, b];
    assert s[..3] == "00" + [a] && s[..3][..2] == "00" && s[..3][..2][..1] == "0" && "0"[..0] == "";
    assert HexNumber("0") == Some(0) && HexNumber("00") == Some(0);
    assert HexNumber(s[..3]) == Some(c as int / 16);
  }

  lemma CharReadsBack(c: char, t: string)
    ensures FirstChar(EscapedChar(c) + t) == Some((c, |EscapedChar(c)|))
  {
    hide HexDigit, HexNumber, HexValue;
    var w := EscapedChar(c) + t;
    if c as int < 0x20 && |EscapedChar(c)| == 6 {
      ControlReadsBack(c);
      assert w[2..6] == "00" + [HexDigit(c as int / 16), HexDigit(c as int % 16)];
    }
  }

  lemma {:induction false} InsideReadsBack(s: string, rest: string)
    ensures ReadInside(Escaped(s) + ("\"" + rest)) == Some((s, rest))
  {
    hide EscapedChar, FirstChar;
    if s == "" {
      assert Escaped(s) + ("\"" + rest) == "\"" + rest;
    } else {
      var tail := Escaped(s[1..]) + ("\"" + rest);
      EscapedFront(s);
      assert Escaped(s) + ("\"" + rest) == EscapedChar(s[0]) + tail;
      CharReadsBack(s[0], tail);
      NoQuoteFirst(s[0], tail);
      InsideReadsBack(s[1..], rest);
      assert (EscapedChar(s[0]) + tail)[|EscapedChar(s[0])|..] == tail;
      assert s == [s[0]] + s[1..];
    }
  }

  lemma NoQuoteFirst(c: char, t: string)
    ensures (EscapedChar(c) + t) != "" && (EscapedChar(c) + t)[0] != '"'
  {
  }

  lemma {:induction false} EscapedFront(s: string)
    requires s != ""
    ensures Escaped(s) == EscapedChar(s[0]) + Escaped(s[1..])
  {
    hide EscapedChar;
    if |s| > 1 {
      var front := s[..|s| - 1];
      EscapedFront(front);
      assert front[1..] == s[1..][..|s| - 2];
    }
  }

  /** Whatever string is written, quotes, backslashes and control characters included, reading it
      gives that string and leaves what was written after it. */
  lemma StringReadsBack(s: string, rest: string)
    ensures ReadString(JsonString(s) + rest) == Some((s, rest))
  {
    hide Escaped, ReadInside;
    InsideReadsBack(s, rest);
    assert JsonString(s) + rest == "\"" + (Escaped(s) + ("\"" + rest));
  }
}
