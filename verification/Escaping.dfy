/** The two string escapers (thrift/compiler/generate/common.h and
    thrift/common/detail/string.cc) and readers that undo them. */
module Escaping {
  import opened Wrappers
  import opened Bytes

  function OctalDigit(d: nat): char
    requires d < 8
  {
    "01234567"[d]
  }

  /** Three octal digits. */
  function Octal(b: nat): string
    requires b < 0x100
  {
    [OctalDigit(b / 64), OctalDigit(b / 8 % 8), OctalDigit(b % 8)]
  }

  /** How `get_escaped_string` writes one byte. */
  function EscapeByte(c: char, octalEscape: bool): string
    requires c as int < 0x100
  {
    match c
    case '\\' => "\\\\"
    case '"' => "\\\""
    case '\r' => "\\r"
    case '\n' => "\\n"
    case '?' => "\\077"
    case _ =>
      if c < ' ' || c == '\U{7F}' || (octalEscape && c > '\U{7F}') then "\\" + Octal(c as int) else [c]
  }

  ghost function EscapedBytes(s: string, octalEscape: bool): string
    requires IsBytes(s)
  {
    if s == "" then "" else EscapeByte(s[0], octalEscape) + EscapedBytes(s[1..], octalEscape)
  }

  method GetEscapedString(s: string, octalEscape: bool) returns (escaped: string)
    requires IsBytes(s)
    ensures escaped == EscapedBytes(s, octalEscape)
  {
    escaped := "";
    var i := 0;
    while i < |s|
      invariant 0 <= i <= |s|
      invariant escaped + EscapedBytes(s[i..], octalEscape) == EscapedBytes(s, octalEscape)
    {
      escaped := escaped + EscapeByte(s[i], octalEscape);
      assert s[i..][1..] == s[i + 1..];
      i := i + 1;
    }
    assert s[i..] == "";
  }

  predicate IsOctal(c: char) { '0' <= c <= '7' }

  /** The characters from the front that belong to one octal escape: at most three. */
  function OctalLength(s: string): nat {
    if s == "" || !IsOctal(s[0]) then 0
    else if |s| == 1 || !IsOctal(s[1]) then 1
    else if |s| == 2 || !IsOctal(s[2]) then 2 else 3
  }

  function OctalValue(s: string): nat
    requires forall i :: 0 <= i < |s| ==> IsOctal(s[i])
  {
    if s == "" then 0 else
      assert IsOctal(s[|s| - 1]);
      8 * OctalValue(s[..|s| - 1]) + (s[|s| - 1] as int - '0' as int)
  }

  /** A C string literal's content read back, by section 6.4.4.4 of ISO/IEC
      9899:2011 restricted to the escapes in use. */
  function ReadC(s: string): Option<string> {
    if s == "" then Some("")
    else if s[0] != '\\' then Prepend(s[0], ReadC(s[1..]))
    else if |s| == 1 then None
    else match s[1]
      case '\\' => Prepend('\\', ReadC(s[2..]))
      case '"' => Prepend('"', ReadC(s[2..]))
      case 'r' => Prepend('\r', ReadC(s[2..]))
      case 'n' => Prepend('\n', ReadC(s[2..]))
      case _ =>
        var n := OctalLength(s[1..]);
        if n == 0 || OctalValue(s[1..n + 1]) >= 0x100 then None
        else Prepend(OctalValue(s[1..n + 1]) as char, ReadC(s[n + 1..]))
  }

  function Prepend(c: char, r: Option<string>): Option<string> {
    if r.None? then None else Some([c] + r.value)
  }

  lemma OctalRoundTrip(b: nat, rest: string)
    requires b < 0x100
    ensures OctalLength(Octal(b) + rest) == 3 && OctalValue(Octal(b)) == b
  {
    var x, y, z := b / 64, b / 8 % 8, b % 8;
    assert b == 64 * x + 8 * y + z;
    OctalDigitValue(x);
    OctalDigitValue(y);
    OctalDigitValue(z);
    ThreeDigits(OctalDigit(x), OctalDigit(y), OctalDigit(z), rest);
  }

  lemma OctalDigitValue(d: nat)
    requires d < 8
    ensures IsOctal(OctalDigit(d)) && OctalDigit(d) as int - '0' as int == d
  {}

  lemma ThreeDigits(x: char, y: char, z: char, rest: string)
    requires IsOctal(x) && IsOctal(y) && IsOctal(z)
    ensures OctalLength([x, y, z] + rest) == 3
    ensures OctalValue([x, y, z]) == 64 * (x as int - 48) + 8 * (y as int - 48) + (z as int - 48)
  {
    assert [x, y, z][..2] == [x, y] && [x, y][..1] == [x] && [x][..0] == "";
    assert OctalValue([x]) == x as int - 48;
    assert OctalValue([x, y]) == 8 * (x as int - 48) + (y as int - 48);
  }

  lemma ReadOctal(b: nat, rest: string)
    requires b < 0x100
    ensures ReadC("\\" + Octal(b) + rest) == Prepend(b as char, ReadC(rest))
  {
    OctalRoundTrip(b, rest);
    var s := "\\" + Octal(b) + rest;
    assert s[1..] == Octal(b) + rest && s[1..4] == Octal(b) && s[4..] == rest;
    assert IsOctal(s[1]);
  }

  lemma ReadEscapedByte(c: char, octalEscape: bool, rest: string)
    requires c as int < 0x100
    ensures ReadC(EscapeByte(c, octalEscape) + rest) == Prepend(c, ReadC(rest))
  {
    var e := EscapeByte(c, octalEscape);
    var s := e + rest;
    if e == [c] {
      assert s[1..] == rest;
    } else if c in ['\\', '"', '\r', '\n'] {
      assert |e| == 2 && s[2..] == rest;
    } else {
      assert c == '?' ==> Octal(0x3F) == "077" && '?' as int == 0x3F;
      assert e == "\\" + Octal(c as int);
      ReadOctal(c as int, rest);
    }
  }

  /** Reading by the rules of C undoes the escaping of every byte string, in both modes. */
  lemma {:induction false} ReadEscaped(s: string, octalEscape: bool)
    requires IsBytes(s)
    ensures ReadC(EscapedBytes(s, octalEscape)) == Some(s)
  {
    if s != "" {
      ReadEscaped(s[1..], octalEscape);
      ReadEscapedByte(s[0], octalEscape, EscapedBytes(s[1..], octalEscape));
      assert s == [s[0]] + s[1..];
    }
  }

  /** Printable ASCII without a question mark. */
  predicate IsSafe(c: char) { ' ' <= c <= '~' && c != '?' }

  /** The same, or a byte that is not ASCII. */
  predicate IsClean(c: char) { IsSafe(c) || c > '\U{7F}' }

  /** Every quote stands behind a backslash that escapes it. */
  ghost predicate NoBareQuote(s: string) {
    s == "" ||
    if s[0] == '\\' then |s| >= 2 && NoBareQuote(s[2..]) else s[0] != '"' && NoBareQuote(s[1..])
  }

  lemma EscapedByteIsSafe(c: char, octalEscape: bool, rest: string)
    requires c as int < 0x100 && NoBareQuote(rest)
    ensures var e := EscapeByte(c, octalEscape);
      forall i :: 0 <= i < |e| ==> if octalEscape then IsSafe(e[i]) else IsClean(e[i])
    ensures NoBareQuote(EscapeByte(c, octalEscape) + rest)
  {
    var e := EscapeByte(c, octalEscape);
    if |e| == 1 {
      assert (e + rest)[1..] == rest;
    } else if |e| == 2 {
      assert (e + rest)[2..] == rest;
    } else {
      assert |e| == 4 && e[0] == '\\' && forall i :: 0 <= i < 4 ==> IsSafe(e[i]);
      assert e[2] != '\\' && e[2] != '"' && e[3] != '\\' && e[3] != '"';
      hide EscapeByte;
      FourCharacters(e, rest);
    }
  }

  lemma FourCharacters(e: string, rest: string)
    requires |e| == 4 && e[0] == '\\' && NoBareQuote(rest)
    requires e[2] != '\\' && e[2] != '"' && e[3] != '\\' && e[3] != '"'
    ensures NoBareQuote(e + rest)
  {
    var s := e + rest;
    assert s[2..] == [e[2], e[3]] + rest;
    assert s[2..][1..] == [e[3]] + rest && ([e[3]] + rest)[1..] == rest;
    assert NoBareQuote([e[3]] + rest);
    assert NoBareQuote(s[2..]);
  }

  /** The output can stand between quotes: no control character, no question mark and
      no bare quote in it, and in octal mode nothing but ASCII. */
  lemma {:induction false} EscapedIsSafe(s: string, octalEscape: bool)
    requires IsBytes(s)
    ensures var e := EscapedBytes(s, octalEscape);
      NoBareQuote(e) && forall i :: 0 <= i < |e| ==> if octalEscape then IsSafe(e[i]) else IsClean(e[i])
  {
    if s != "" {
      EscapedIsSafe(s[1..], octalEscape);
      EscapedByteIsSafe(s[0], octalEscape, EscapedBytes(s[1..], octalEscape));
    }
  }

  /** A byte is escaped only if it has to be, by a letter or itself in four cases and
      by three octal digits in all others. */
  lemma EscapedByteLength(c: char, octalEscape: bool)
    requires c as int < 0x100
    ensures |EscapeByte(c, octalEscape)| ==
      if c in "\\\"\r\n" then 2 else if IsSafe(c) || (!octalEscape && c > '\U{7F}') then 1 else 4
  {}

  // The escaper of thrift/common.

  function EscapeChar(c: char): string {
    match c
    case '\\' => "\\\\"
    case '\n' => "\\n"
    case '\r' => "\\r"
    case '\t' => "\\t"
    case '\U{B}' => "\\v"
    case '\U{C}' => "\\f"
    case '\'' => "\\'"
    case _ => [c]
  }

  ghost function Escaped(s: string): string {
    if s == "" then "" else EscapeChar(s[0]) + Escaped(s[1..])
  }

  method Escape(s: string) returns (result: string)
    ensures result == Escaped(s)
  {
    result := "";
    var i := 0;
    while i < |s|
      invariant 0 <= i <= |s|
      invariant result + Escaped(s[i..]) == Escaped(s)
    {
      result := result + EscapeChar(s[i]);
      assert s[i..][1..] == s[i + 1..];
      i := i + 1;
    }
    assert s[i..] == "";
  }

  function Unescape(s: string): Option<string> {
    if s == "" then Some("")
    else if s[0] != '\\' then Prepend(s[0], Unescape(s[1..]))
    else if |s| == 1 then None
    else match s[1]
      case '\\' => Prepend('\\', Unescape(s[2..]))
      case 'n' => Prepend('\n', Unescape(s[2..]))
      case 'r' => Prepend('\r', Unescape(s[2..]))
      case 't' => Prepend('\t', Unescape(s[2..]))
      case 'v' => Prepend('\U{B}', Unescape(s[2..]))
      case 'f' => Prepend('\U{C}', Unescape(s[2..]))
      case '\'' => Prepend('\'', Unescape(s[2..]))
      case _ => None
  }

  /** Nothing is lost by this escaper either. */
  lemma {:induction false} UnescapeEscaped(s: string)
    ensures Unescape(Escaped(s)) == Some(s)
  {
    if s != "" {
      UnescapeEscaped(s[1..]);
      var e, rest := EscapeChar(s[0]), Escaped(s[1..]);
      assert (e + rest)[|e|..] == rest;
      assert s == [s[0]] + s[1..];
    }
  }

  /** What may not stand in the output as it is. */
  predicate IsSpecial(c: char) { 9 <= c as int <= 13 }

  /** Every apostrophe stands behind a backslash that escapes it. */
  ghost predicate NoBareApostrophe(s: string) {
    s == "" ||
    if s[0] == '\\' then |s| >= 2 && NoBareApostrophe(s[2..]) else s[0] != '\'' && NoBareApostrophe(s[1..])
  }

  /** The output holds no line break, tab or feed and no bare apostrophe. */
  lemma {:induction false} EscapedHoldsNone(s: string)
    ensures var e := Escaped(s); NoBareApostrophe(e) && forall i :: 0 <= i < |e| ==> !IsSpecial(e[i])
  {
    if s != "" {
      EscapedHoldsNone(s[1..]);
      var e, rest := EscapeChar(s[0]), Escaped(s[1..]);
      assert (e + rest)[|e|..] == rest;
    }
  }
}
