/** JSON string literals as `json.dumps(..., ensure_ascii=False)` writes them
    (section 7 of RFC 8259, with Python's choices), and an independent reader
    for the same grammar. */
module JsonText {
  import opened Wrappers

  const HexDigits: string := "0123456789abcdef"

  /** Lower-case hexadecimal digit for 0..15. */
  function HexDigit(d: nat): (c: char)
    requires d < 16
    ensures '0' <= c <= '9' || 'a' <= c <= 'f'
    ensures HexValue(c) == Some(d)
  {
    HexDigits[d]
  }

  /** Value of a hexadecimal digit in either case. */
  function HexValue(c: char): (v: Option<nat>)
    ensures v.Some? ==> v.value < 16
  {
    if '0' <= c <= '9' then Some(c as int - '0' as int)
    else if 'a' <= c <= 'f' then Some(c as int - 'a' as int + 10)
    else if 'A' <= c <= 'F' then Some(c as int - 'A' as int + 10)
    else None
  }

  /** Value of four hexadecimal digits, most significant first. */
  function HexQuad(h: string): (v: Option<nat>)
    requires |h| == 4
    ensures v.Some? ==> v.value < 0x1_0000
  {
    match (HexValue(h[0]), HexValue(h[1]), HexValue(h[2]), HexValue(h[3]))
    case (Some(a), Some(b), Some(c), Some(d)) => Some(((a * 16 + b) * 16 + c) * 16 + d)
    case _ => None
  }

  /** A character written as itself inside a JSON string. */
  predicate IsPlain(c: char)
  {
    ' ' <= c && c != '"' && c != '\\'
  }

  /** The escape Python's encoder writes for one character: the two-character
      escapes for quote, backslash and the five named control characters,
      `\u00xx` with lower-case hex for the other control characters, and the
      character itself otherwise (no `\u` escape for non-ASCII). */
  function EscapeChar(c: char): (e: string)
    ensures e != [] && forall i :: 0 <= i < |e| ==> ' ' <= e[i]
    ensures IsPlain(c) <==> e == [c]
  {
    if c == '"' then "\\\""
    else if c == '\\' then "\\\\"
    else if c == '\U{8}' then "\\b"
    else if c == '\U{C}' then "\\f"
    else if c == '\n' then "\\n"
    else if c == '\r' then "\\r"
    else if c == '\t' then "\\t"
    else if c < ' ' then "\\u00" + [HexDigit(c as int / 16), HexDigit(c as int % 16)]
    else [c]
  }

  /** The body of the JSON string literal for `s` (without the quotes). */
  function EscapeJsonString(s: string): (r: string)
    ensures |s| <= |r|
  {
    if s == [] then [] else EscapeChar(s[0]) + EscapeJsonString(s[1..])
  }

  /** The escaped text holds no raw control character (so no line break and
      no tab). */
  lemma {:induction false} EscapeHasNoControl(s: string)
    ensures forall i :: 0 <= i < |EscapeJsonString(s)| ==> ' ' <= EscapeJsonString(s)[i]
  {
    if s != [] {
      EscapeHasNoControl(s[1..]);
      var h, t := EscapeChar(s[0]), EscapeJsonString(s[1..]);
      assert forall i :: 0 <= i < |h + t| ==> (h + t)[i] == if i < |h| then h[i] else t[i - |h|];
    }
  }

  /** A string needing no escapes, including any non-ASCII text, is written
      exactly as it is. */
  lemma {:induction false} EscapePlain(s: string)
    requires forall i :: 0 <= i < |s| ==> IsPlain(s[i])
    ensures EscapeJsonString(s) == s
  {
    if s != [] {
      EscapePlain(s[1..]);
      assert [s[0]] + s[1..] == s;
    }
  }

  function Prepend(c: char, rest: Option<string>): Option<string>
  {
    match rest
    case None => None
    case Some(t) => Some([c] + t)
  }

  /** The character an escape sequence at the start of `e` stands for, and
      the length of that sequence; None for an invalid escape, or a `\u`
      escape naming a UTF-16 surrogate. */
  function EscapeSequence(e: string): (r: Option<(char, nat)>)
    requires e != [] && e[0] == '\\'
    ensures r.Some? ==> 2 <= r.value.1 <= |e|
  {
    if |e| < 2 then None
    else if e[1] == '"' then Some(('"', 2))
    else if e[1] == '\\' then Some(('\\', 2))
    else if e[1] == '/' then Some(('/', 2))
    else if e[1] == 'b' then Some(('\U{8}', 2))
    else if e[1] == 'f' then Some(('\U{C}', 2))
    else if e[1] == 'n' then Some(('\n', 2))
    else if e[1] == 'r' then Some(('\r', 2))
    else if e[1] == 't' then Some(('\t', 2))
    else if e[1] == 'u' && |e| >= 6 then
      match HexQuad(e[2..6])
      case Some(v) => if v < 0xD800 || 0xE000 <= v then Some((v as char, 6)) else None
      case None => None
    else None
  }

  /** Reads the body of a JSON string literal back into the string it
      denotes; None when the body is not valid JSON (a raw quote, a raw
      control character, or a bad escape). */
  function UnescapeJsonString(e: string): Option<string>
    decreases |e|
  {
    if e == [] then Some([])
    else if e[0] == '\\' then
      match EscapeSequence(e)
      case None => None
      case Some((c, n)) => Prepend(c, UnescapeJsonString(e[n..]))
    else if e[0] == '"' || e[0] < ' ' then None
    else Prepend(e[0], UnescapeJsonString(e[1..]))
  }

  /** A control character without a two-character escape. */
  predicate IsUnnamedControl(c: char)
  {
    c < ' ' && c != '\U{8}' && c != '\U{C}' && c != '\n' && c != '\r' && c != '\t'
  }

  lemma UnescapeShortEscape(c: char, rest: string)
    requires !IsPlain(c) && !IsUnnamedControl(c)
    ensures UnescapeJsonString(EscapeChar(c) + rest) == Prepend(c, UnescapeJsonString(rest))
  {
    var e := EscapeChar(c) + rest;
    assert |EscapeChar(c)| == 2 && e[0] == '\\';
    assert EscapeSequence(e) == Some((c, 2));
    assert e[2..] == rest;
  }

  lemma UnescapeUnicodeEscape(c: char, rest: string)
    requires IsUnnamedControl(c)
    ensures UnescapeJsonString(EscapeChar(c) + rest) == Prepend(c, UnescapeJsonString(rest))
  {
    var e := EscapeChar(c) + rest;
    var hi, lo := c as int / 16, c as int % 16;
    assert EscapeChar(c) == "\\u00" + [HexDigit(hi), HexDigit(lo)];
    assert e[2..6] == ['0', '0', HexDigit(hi), HexDigit(lo)];
    assert HexQuad(e[2..6]) == Some(c as int);
    assert EscapeSequence(e) == Some((c, 6));
    assert e[6..] == rest;
  }

  lemma UnescapeEscapeChar(c: char, rest: string)
    ensures UnescapeJsonString(EscapeChar(c) + rest) == Prepend(c, UnescapeJsonString(rest))
  {
    if IsPlain(c) {
      var e := EscapeChar(c) + rest;
      assert e[1..] == rest;
    } else if IsUnnamedControl(c) {
      UnescapeUnicodeEscape(c, rest);
    } else {
      UnescapeShortEscape(c, rest);
    }
  }

  /** Reading back what the encoder wrote gives the original string. */
  lemma {:induction false} UnescapeEscape(s: string)
    ensures UnescapeJsonString(EscapeJsonString(s)) == Some(s)
  {
    if s != [] {
      UnescapeEscape(s[1..]);
      UnescapeEscapeChar(s[0], EscapeJsonString(s[1..]));
      assert [s[0]] + s[1..] == s;
    }
  }
}
