/** Reading JSON text back into values, and the proof that printing loses nothing.
    Strings follow section 7 of RFC 8259, with `\u00XX` read as the byte XX;
    numbers are integers. */
module JsonReader {
  import opened Wrappers
  import opened Bytes
  import opened DecimalText
  import opened JsonPrinter

  /** A value read from the front of a text, and the text left over. */
  type Read<T> = Option<(T, string)>

  predicate IsSpace(c: char) {
    c == ' ' || c == '\t' || c == '\n' || c == '\r'
  }

  function SkipSpace(s: string): (r: string)
    ensures |r| <= |s| && (r != "" ==> !IsSpace(r[0]))
  {
    if s != "" && IsSpace(s[0]) then SkipSpace(s[1..]) else s
  }

  function HexValue(c: char): Option<nat> {
    if IsDigit(c) then Some(c as int - '0' as int)
    else if 'a' <= c <= 'f' then Some(10 + (c as int - 'a' as int))
    else if 'A' <= c <= 'F' then Some(10 + (c as int - 'A' as int))
    else None
  }

  /** The character meant by the text after a backslash. */
  function ReadEscape(s: string): (r: Read<char>)
    ensures r.Some? ==> |r.value.1| < |s|
  {
    if s == "" then None
    else match s[0]
      case '"' => Some(('"', s[1..]))
      case '\\' => Some(('\\', s[1..]))
      case '/' => Some(('/', s[1..]))
      case 'b' => Some(('\U{8}', s[1..]))
      case 'f' => Some(('\U{C}', s[1..]))
      case 'n' => Some(('\n', s[1..]))
      case 'r' => Some(('\r', s[1..]))
      case 't' => Some(('\t', s[1..]))
      case 'u' =>
        if |s| < 5 || s[1] != '0' || s[2] != '0' || HexValue(s[3]).None? || HexValue(s[4]).None? then None
        else Some(((16 * HexValue(s[3]).value + HexValue(s[4]).value) as char, s[5..]))
      case _ => None
  }

  /** The rest of a string whose opening quote has been read. */
  function ReadChars(s: string): (r: Read<string>)
    ensures r.Some? ==> |r.value.1| < |s|
    decreases |s|
  {
    if s == "" then None
    else if s[0] == '"' then Some(("", s[1..]))
    else if s[0] < ' ' then None
    else
      var first := if s[0] == '\\' then ReadEscape(s[1..]) else Some((s[0], s[1..]));
      if first.None? then None else
        var rest := ReadChars(first.value.1);
        if rest.None? then None else Some(([first.value.0] + rest.value.0, rest.value.1))
  }

  function ReadValue(s: string): (r: Read<Value>)
    ensures r.Some? ==> |r.value.1| < |s|
    decreases |s|, 0
  {
    var t := SkipSpace(s);
    if t == "" then None
    else if t[0] == '"' then
      var r := ReadChars(t[1..]);
      if r.None? then None else Some((Str(r.value.0), r.value.1))
    else if t[0] == '[' then
      var u := SkipSpace(t[1..]);
      if u != "" && u[0] == ']' then Some((List([]), u[1..])) else
        var r := ReadItems(t[1..]);
        if r.None? then None else Some((List(r.value.0), r.value.1))
    else if t[0] == '{' then
      var u := SkipSpace(t[1..]);
      if u != "" && u[0] == '}' then Some((Map([]), u[1..])) else
        var r := ReadEntries(t[1..]);
        if r.None? then None else Some((Map(r.value.0), r.value.1))
    else if "true" <= t then Some((Bool(true), t[4..]))
    else if "false" <= t then Some((Bool(false), t[5..]))
    else if IsDigit(t[0]) then
      var (n, rest) := ReadDigits(t[1..], t[0] as int - '0' as int);
      Some((Integer(n), rest))
    else if t[0] == '-' && |t| > 1 && IsDigit(t[1]) then
      var (n, rest) := ReadDigits(t[2..], t[1] as int - '0' as int);
      Some((Integer(0 - n), rest))
    else None
  }

  /** One or more values separated by commas, up to the closing bracket. */
  function ReadItems(s: string): (r: Read<seq<Value>>)
    ensures r.Some? ==> |r.value.1| < |s|
    decreases |s|, 1
  {
    var first := ReadValue(s);
    if first.None? then None else
      var t := SkipSpace(first.value.1);
      if t == "" then None
      else if t[0] == ']' then Some(([first.value.0], t[1..]))
      else if t[0] != ',' then None
      else
        var rest := ReadItems(t[1..]);
        if rest.None? then None else Some(([first.value.0] + rest.value.0, rest.value.1))
  }

  function ReadEntry(s: string): (r: Read<Entry>)
    ensures r.Some? ==> |r.value.1| < |s|
    decreases |s|, 1
  {
    var t := SkipSpace(s);
    if t == "" || t[0] != '"' then None else
      var key := ReadChars(t[1..]);
      if key.None? then None else
        var u := SkipSpace(key.value.1);
        if u == "" || u[0] != ':' then None else
          var value := ReadValue(u[1..]);
          if value.None? then None else Some((Entry(Str(key.value.0), value.value.0), value.value.1))
  }

  /** One or more entries separated by commas, up to the closing brace. */
  function ReadEntries(s: string): (r: Read<seq<Entry>>)
    ensures r.Some? ==> |r.value.1| < |s|
    decreases |s|, 2
  {
    var first := ReadEntry(s);
    if first.None? then None else
      var t := SkipSpace(first.value.1);
      if t == "" then None
      else if t[0] == '}' then Some(([first.value.0], t[1..]))
      else if t[0] != ',' then None
      else
        var rest := ReadEntries(t[1..]);
        if rest.None? then None else Some(([first.value.0] + rest.value.0, rest.value.1))
  }

  /** The value a whole text stands for. */
  function Parse(s: string): Option<Value> {
    var r := ReadValue(s);
    if r.Some? && SkipSpace(r.value.1) == "" then Some(r.value.0) else None
  }

  // What printing keeps.

  function KeyText(key: Value): string {
    if key.Str? then key.s else Json(key)
  }

  /** Strings are byte strings and no identifier or double stands where a value
      is expected. Keys may be anything: only their text is kept. */
  ghost predicate Plain(v: Value) {
    match v
    case Bool(_) => true
    case Integer(_) => true
    case Double(_) => false
    case Str(s) => IsBytes(s)
    case Identifier(_) => false
    case List(items) => forall i :: 0 <= i < |items| ==> Plain(items[i])
    case Map(entries) => forall i :: 0 <= i < |entries| ==> PlainEntry(entries[i])
  }

  ghost predicate PlainEntry(e: Entry) {
    match e
    case Entry(k, v) => IsBytes(KeyText(k)) && Plain(v)
  }

  /** The value with every key turned into the string it is printed as. */
  ghost function Normal(v: Value): Value
    decreases v, 1
  {
    match v
    case List(items) => List(NormalItems(items))
    case Map(entries) => Map(NormalEntries(entries))
    case _ => v
  }

  ghost function NormalItems(items: seq<Value>): seq<Value>
    decreases items, 0
  {
    if items == [] then [] else [Normal(items[0])] + NormalItems(items[1..])
  }

  ghost function NormalEntry(e: Entry): Entry
    decreases e, 2
  {
    match e
    case Entry(k, v) => Entry(Str(KeyText(k)), Normal(v))
  }

  ghost function NormalEntries(entries: seq<Entry>): seq<Entry>
    decreases entries, 0
  {
    if entries == [] then [] else [NormalEntry(entries[0])] + NormalEntries(entries[1..])
  }

  // Numbers.

  ghost predicate NoDigitAhead(rest: string) {
    rest == "" || !IsDigit(rest[0])
  }

  lemma ReadPrintedInteger(n: int, rest: string)
    requires NoDigitAhead(rest)
    ensures ReadValue(Decimal(n) + rest) == Some((Integer(n), rest))
  {
    var m := if n < 0 then -n else n;
    var t := Digits(m) + rest;
    PrintedDigits(m, rest);
    ReadNumber(t, n < 0);
    hide Digits, ReadDigits, ReadValue;
    if n >= 0 {
      assert Decimal(n) + rest == t;
      return;
    }
    assert Decimal(n) == "-" + Digits(m) && "-" + Digits(m) + rest == "-" + t;
  }

  lemma PrintedDigits(m: nat, rest: string)
    requires NoDigitAhead(rest)
    ensures var t := Digits(m) + rest; t != "" && IsDigit(t[0]) && ReadDigits(t, 0) == (m, rest)
  {
    DigitsAreDigits(m);
    ReadPrintedDigits(m, rest);
    hide Digits;
  }

  lemma ReadNumber(t: string, negative: bool)
    requires t != "" && IsDigit(t[0])
    ensures var (m, rest) := ReadDigits(t, 0);
      ReadValue(if negative then "-" + t else t) == Some((Integer(if negative then 0 - m else m), rest))
  {
    var s := if negative then "-" + t else t;
    if negative {
      assert s[1] == t[0] && s[2..] == t[1..];
    }
    assert SkipSpace(s) == s;
    assert !("true" <= s) && !("false" <= s);
  }

  // Strings.

  lemma ReadPrintedChar(c: char, rest: string)
    requires c as int < 0x100
    ensures ReadChars(Escape(c) + rest) ==
      var r := ReadChars(rest); if r.None? then None else Some(([c] + r.value.0, r.value.1))
  {
    EscapeForms(c);
    if Escape(c) == [c] {
      assert (Escape(c) + rest)[1..] == rest;
    } else {
      ReadPrintedEscape(c, rest);
      hide Escape, ReadEscape;
      assert (Escape(c) + rest)[1..] == Escape(c)[1..] + rest;
    }
  }

  /** A character stands for itself only if it needs no escape, and an escape starts with a backslash. */
  lemma EscapeForms(c: char)
    ensures Escape(c) != ""
    ensures if Escape(c) == [c] then c >= ' ' && c != '"' && c != '\\' else Escape(c)[0] == '\\'
  {}

  lemma ReadPrintedEscape(c: char, rest: string)
    requires c as int < 0x100 && Escape(c) != [c]
    ensures ReadEscape(Escape(c)[1..] + rest) == Some((c, rest))
  {
    if c in SHORT {
      ReadPrintedShort(c, rest);
    } else {
      LongEscape(c);
      ReadPrintedHex(c as int, rest);
      hide HexCode, ReadEscape, Escape;
      assert ("\\" + HexCode(c as int))[1..] == HexCode(c as int);
    }
  }

  /** The characters with an escape of one letter. */
  const SHORT := ['"', '\\', '\U{8}', '\U{C}', '\n', '\r']

  lemma LongEscape(c: char)
    requires c as int < 0x100 && (c < ' ' || c > '\U{7F}') && c !in SHORT
    ensures Escape(c) == "\\" + HexCode(c as int)
  {
    hide HexCode;
    assert c as int % 0x100 == c as int;
    assert c != '"' && c != '\\' && c != '\U{8}' && c != '\U{C}' && c != '\n' && c != '\r';
  }

  lemma ReadPrintedShort(c: char, rest: string)
    requires c in SHORT
    ensures ReadEscape(Escape(c)[1..] + rest) == Some((c, rest))
  {
    var e := Escape(c)[1..];
    assert |e| == 1 && (e + rest)[0] == e[0] && (e + rest)[1..] == rest;
  }

  lemma ReadPrintedHex(b: nat, rest: string)
    requires b < 0x100
    ensures ReadEscape(HexCode(b) + rest) == Some((b as char, rest))
  {
    var x, y := b / 16, b % 16;
    HexRoundTrip(x);
    HexRoundTrip(y);
    hide Hex, HexValue;
    var s := HexCode(b) + rest;
    assert s[0] == 'u' && s[1] == '0' && s[2] == '0' && s[3] == Hex(x) && s[4] == Hex(y);
    assert s[5..] == rest && 16 * x + y == b;
  }

  lemma HexRoundTrip(d: nat)
    requires d < 16
    ensures HexValue(Hex(d)) == Some(d)
  {}

  lemma {:induction false} ReadPrintedChars(s: string, rest: string)
    requires IsBytes(s)
    ensures ReadChars(Escaped(s) + "\"" + rest) == Some((s, rest))
  {
    hide Escape, Escaped, ReadChars;
    if s == "" {
      ReadNoChars(rest);
      return;
    }
    EscapedFromFront(s, rest);
    ReadPrintedChars(s[1..], rest);
    ReadPrintedChar(s[0], Escaped(s[1..]) + "\"" + rest);
    assert s == [s[0]] + s[1..];
  }

  lemma ReadNoChars(rest: string)
    ensures ReadChars(Escaped("") + "\"" + rest) == Some(("", rest))
  {
    assert Escaped("") + "\"" + rest == "\"" + rest;
    assert ("\"" + rest)[1..] == rest;
  }

  lemma EscapedFromFront(s: string, rest: string)
    requires s != ""
    ensures Escaped(s) + "\"" + rest == Escape(s[0]) + (Escaped(s[1..]) + "\"" + rest)
  {
    hide Escape;
  }

  lemma ReadPrintedString(s: string, rest: string)
    requires IsBytes(s)
    ensures ReadValue(Quote(s) + rest) == Some((Str(s), rest))
  {
    ReadPrintedChars(s, rest);
    hide Escaped, ReadChars;
    QuotedText(Escaped(s), rest);
  }

  lemma QuotedText(inner: string, rest: string)
    requires ReadChars(inner + "\"" + rest).Some?
    ensures var r := ReadChars(inner + "\"" + rest).value;
      ReadValue("\"" + inner + "\"" + rest) == Some((Str(r.0), r.1))
  {
    hide ReadChars;
    var t := "\"" + inner + "\"" + rest;
    assert t[1..] == inner + "\"" + rest && SkipSpace(t) == t;
  }

  // Separators.

  /** The first character is visible and opens no closing bracket, the last is no separator. */
  ghost predicate Solid(s: string) {
    && s != ""
    && !IsSpace(s[0]) && s[0] != ']' && s[0] != '}'
    && s[|s| - 1] != ' ' && s[|s| - 1] != ','
  }

  lemma PrintedIsSolid(v: Value)
    requires Plain(v)
    ensures Solid(Json(v))
  {
    if v.Integer? {
      match v case Integer(n) => DigitsAreDigits(if n < 0 then -n else n);
    }
  }

  lemma TrimSeparator(s: string)
    requires Solid(s)
    ensures RTrim(s + ", ") == s
  {
    assert (s + ", ")[..|s| + 1] == s + ",";
    assert (s + ",")[..|s|] == s;
    assert RTrim(s + ",") == RTrim(s) == s;
  }

  /** The texts with a separator between any two neighbours and none at the end. */
  ghost function Separated(texts: seq<string>): string
    requires texts != []
  {
    if |texts| == 1 then texts[0] else texts[0] + ", " + Separated(texts[1..])
  }

  lemma {:induction false} SeparatedIsSolid(texts: seq<string>)
    requires texts != [] && forall i :: 0 <= i < |texts| ==> Solid(texts[i])
    ensures Solid(Separated(texts)) && texts[0] <= Separated(texts)
  {
    if |texts| > 1 { SeparatedIsSolid(texts[1..]); }
  }

  ghost function Texts(items: seq<Value>): seq<string> {
    seq(|items|, i requires 0 <= i < |items| => Json(items[i]))
  }

  ghost function EntryTexts(entries: seq<Entry>): seq<string> {
    seq(|entries|, i requires 0 <= i < |entries| => EntryText(entries[i]))
  }

  lemma {:induction false} AppendedIsSeparated(items: seq<Value>)
    requires items != []
    ensures Appended(items) == Separated(Texts(items)) + ", "
  {
    if |items| == 1 {
      assert Appended(items[1..]) == "";
    } else {
      assert Texts(items)[1..] == Texts(items[1..]);
      AppendedIsSeparated(items[1..]);
    }
  }

  lemma {:induction false} AppendedEntriesAreSeparated(entries: seq<Entry>)
    requires entries != []
    ensures AppendedEntries(entries) == Separated(EntryTexts(entries)) + ", "
  {
    if |entries| == 1 {
      assert AppendedEntries(entries[1..]) == "";
    } else {
      assert EntryTexts(entries)[1..] == EntryTexts(entries[1..]);
      AppendedEntriesAreSeparated(entries[1..]);
    }
  }

  /** At every level the trimming removes exactly the one trailing separator. */
  lemma TrimmedList(items: seq<Value>)
    requires items != [] && Plain(List(items))
    ensures Json(List(items)) == "[" + Separated(Texts(items)) + "]"
    ensures Solid(Separated(Texts(items)))
  {
    forall i | 0 <= i < |items| ensures Solid(Texts(items)[i]) { PrintedIsSolid(items[i]); }
    SeparatedIsSolid(Texts(items));
    AppendedIsSeparated(items);
    TrimSeparator(Separated(Texts(items)));
  }

  lemma TrimmedMap(entries: seq<Entry>)
    requires entries != [] && Plain(Map(entries))
    ensures Json(Map(entries)) == "{" + Separated(EntryTexts(entries)) + "}"
    ensures Solid(Separated(EntryTexts(entries)))
  {
    forall i | 0 <= i < |entries| ensures Solid(EntryTexts(entries)[i]) {
      assert PlainEntry(entries[i]);
      PrintedIsSolid(entries[i].value);
    }
    SeparatedIsSolid(EntryTexts(entries));
    AppendedEntriesAreSeparated(entries);
    TrimSeparator(Separated(EntryTexts(entries)));
  }

  // Whole values.

  lemma SkipOneSpace(s: string)
    ensures ReadValue(" " + s) == ReadValue(s)
    ensures ReadEntry(" " + s) == ReadEntry(s)
    ensures ReadItems(" " + s) == ReadItems(s) && ReadEntries(" " + s) == ReadEntries(s)
  {
    SpaceSkipped(s);
    hide SkipSpace, ReadChars, ReadDigits;
    assert ReadValue(" " + s) == ReadValue(s);
    assert ReadEntry(" " + s) == ReadEntry(s);
    hide ReadValue, ReadEntry;
  }

  lemma SpaceSkipped(s: string)
    ensures SkipSpace(" " + s) == SkipSpace(s)
  {
    assert (" " + s)[1..] == s;
  }

  lemma {:induction false} ReadPrinted(v: Value, rest: string)
    requires Plain(v) && NoDigitAhead(rest)
    ensures ReadValue(Json(v) + rest) == Some((Normal(v), rest))
    decreases v, 1
  {
    match v
    case Bool(b) =>
      var s := Json(v) + rest;
      assert s[if b then 4 else 5..] == rest;
    case Integer(n) => ReadPrintedInteger(n, rest);
    case Str(s) => ReadPrintedString(s, rest);
    case List(items) =>
      if items == [] {
        ReadEmpty(rest);
      } else {
        ReadPrintedItems(items, rest);
        TrimmedList(items);
        ReadBracketed(Separated(Texts(items)), rest);
      }
    case Map(entries) =>
      if entries == [] {
        ReadEmpty(rest);
      } else {
        ReadPrintedEntries(entries, rest);
        TrimmedMap(entries);
        ReadBraced(Separated(EntryTexts(entries)), rest);
      }
  }

  lemma ReadEmpty(rest: string)
    ensures ReadValue(Json(List([])) + rest) == Some((List([]), rest))
    ensures ReadValue(Json(Map([])) + rest) == Some((Map([]), rest))
  {
    assert RTrim(Appended([])) == "" && RTrim(AppendedEntries([])) == "";
    assert Json(List([])) == "[]" && Json(Map([])) == "{}";
    assert ("[]" + rest)[1..] == "]" + rest && ("]" + rest)[1..] == rest;
    assert ("{}" + rest)[1..] == "}" + rest && ("}" + rest)[1..] == rest;
  }

  lemma ReadBracketed(inner: string, rest: string)
    requires Solid(inner)
    ensures ReadValue("[" + inner + "]" + rest) ==
      var r := ReadItems(inner + ("]" + rest)); if r.None? then None else Some((List(r.value.0), r.value.1))
  {
    var s := "[" + inner + "]" + rest;
    assert s[1..] == inner + ("]" + rest);
    hide ReadItems;
    assert SkipSpace(s) == s && SkipSpace(s[1..]) == s[1..];
  }

  lemma ReadBraced(inner: string, rest: string)
    requires Solid(inner)
    ensures ReadValue("{" + inner + "}" + rest) ==
      var r := ReadEntries(inner + ("}" + rest)); if r.None? then None else Some((Map(r.value.0), r.value.1))
  {
    var s := "{" + inner + "}" + rest;
    assert s[1..] == inner + ("}" + rest);
    hide ReadEntries;
    assert SkipSpace(s) == s && SkipSpace(s[1..]) == s[1..];
  }

  lemma ReadLastItem(first: string, v: Value, rest: string)
    requires ReadValue(first + ("]" + rest)) == Some((v, "]" + rest))
    ensures ReadItems(first + ("]" + rest)) == Some(([v], rest))
  {
    hide ReadValue;
    assert SkipSpace("]" + rest) == "]" + rest && ("]" + rest)[1..] == rest;
  }

  lemma ReadNextItem(first: string, v: Value, later: string, vs: seq<Value>, rest: string)
    requires ReadValue(first + (", " + later)) == Some((v, ", " + later))
    requires ReadItems(later) == Some((vs, rest))
    ensures ReadItems(first + (", " + later)) == Some(([v] + vs, rest))
  {
    SkipOneSpace(later);
    hide ReadValue;
    assert SkipSpace(", " + later) == ", " + later && (", " + later)[1..] == " " + later;
  }

  lemma SeparatedFromFront(texts: seq<string>, end: string)
    requires texts != []
    ensures Separated(texts) + end ==
      if |texts| == 1 then texts[0] + end else texts[0] + (", " + (Separated(texts[1..]) + end))
  {
    if |texts| > 1 {
      var first, later := texts[0], Separated(texts[1..]);
      assert Separated(texts) == first + ", " + later;
      hide Separated;
      Reassociated(first, ", ", later, end);
    }
  }

  lemma Reassociated(a: string, b: string, c: string, d: string)
    ensures a + b + c + d == a + (b + (c + d))
  {}

  lemma {:induction false} ReadPrintedItems(items: seq<Value>, rest: string)
    requires items != [] && forall i :: 0 <= i < |items| ==> Plain(items[i])
    ensures ReadItems(Separated(Texts(items)) + ("]" + rest)) == Some((NormalItems(items), rest))
    decreases items, 0
  {
    var first, end := Json(items[0]), "]" + rest;
    assert Texts(items)[1..] == Texts(items[1..]) && Texts(items)[0] == first;
    SeparatedFromFront(Texts(items), end);
    assert NormalItems(items) == [Normal(items[0])] + NormalItems(items[1..]);
    if |items| == 1 {
      assert NormalItems(items[1..]) == [] && [Normal(items[0])] + [] == [Normal(items[0])];
      ReadPrinted(items[0], end);
      ReadLastItem(first, Normal(items[0]), rest);
      return;
    }
    var later := Separated(Texts(items[1..])) + end;
    ReadPrinted(items[0], ", " + later);
    ReadPrintedItems(items[1..], rest);
    hide ReadValue, ReadItems, Separated, Json, Normal, NormalItems;
    ReadNextItem(first, Normal(items[0]), later, NormalItems(items[1..]), rest);
  }

  lemma ReadPrintedEntry(e: Entry, rest: string)
    requires PlainEntry(e) && NoDigitAhead(rest)
    ensures ReadEntry(EntryText(e) + rest) == Some((NormalEntry(e), rest))
    decreases e, 2
  {
    ReadPrinted(e.value, rest);
    EntryTextParts(e, rest);
    assert NormalEntry(e) == Entry(Str(KeyText(e.key)), Normal(e.value));
    hide ReadValue, ReadEntry, Json, Quote, EntryText, Normal, NormalEntry, KeyText;
    ReadKeyAndValue(KeyText(e.key), Json(e.value) + rest, Normal(e.value), rest);
  }

  lemma EntryTextParts(e: Entry, rest: string)
    ensures EntryText(e) + rest == Quote(KeyText(e.key)) + (": " + (Json(e.value) + rest))
  {
    var q, j := Quote(KeyText(e.key)), Json(e.value);
    assert EntryText(e) == q + ": " + j;
    hide Quote, Json, KeyText, EntryText;
    assert q + ": " + j + rest == q + (": " + (j + rest));
  }

  lemma ReadKeyAndValue(key: string, text: string, v: Value, rest: string)
    requires IsBytes(key) && ReadValue(text) == Some((v, rest))
    ensures ReadEntry(Quote(key) + (": " + text)) == Some((Entry(Str(key), v), rest))
  {
    var after := ": " + text;
    ReadPrintedChars(key, after);
    SkipOneSpace(text);
    QuotedParts(key, after);
    hide ReadValue, ReadChars, Escaped, Quote;
    assert SkipSpace(Quote(key) + after) == Quote(key) + after;
    assert SkipSpace(after) == after && after[1..] == " " + text;
  }

  lemma QuotedParts(key: string, after: string)
    ensures (Quote(key) + after)[0] == '"' && (Quote(key) + after)[1..] == Escaped(key) + "\"" + after
  {
    hide Escaped;
  }

  lemma ReadLastEntry(first: string, e: Entry, rest: string)
    requires ReadEntry(first + ("}" + rest)) == Some((e, "}" + rest))
    ensures ReadEntries(first + ("}" + rest)) == Some(([e], rest))
  {
    hide ReadEntry;
    assert SkipSpace("}" + rest) == "}" + rest && ("}" + rest)[1..] == rest;
  }

  lemma ReadNextEntry(first: string, e: Entry, later: string, es: seq<Entry>, rest: string)
    requires ReadEntry(first + (", " + later)) == Some((e, ", " + later))
    requires ReadEntries(later) == Some((es, rest))
    ensures ReadEntries(first + (", " + later)) == Some(([e] + es, rest))
  {
    SkipOneSpace(later);
    hide ReadEntry;
    assert SkipSpace(", " + later) == ", " + later && (", " + later)[1..] == " " + later;
  }

  lemma {:induction false} ReadPrintedEntries(entries: seq<Entry>, rest: string)
    requires entries != [] && forall i :: 0 <= i < |entries| ==> PlainEntry(entries[i])
    ensures ReadEntries(Separated(EntryTexts(entries)) + ("}" + rest)) == Some((NormalEntries(entries), rest))
    decreases entries, 0
  {
    var first, end := EntryText(entries[0]), "}" + rest;
    assert EntryTexts(entries)[1..] == EntryTexts(entries[1..]) && EntryTexts(entries)[0] == first;
    SeparatedFromFront(EntryTexts(entries), end);
    assert NormalEntries(entries) == [NormalEntry(entries[0])] + NormalEntries(entries[1..]);
    if |entries| == 1 {
      assert NormalEntries(entries[1..]) == [] && [NormalEntry(entries[0])] + [] == [NormalEntry(entries[0])];
      ReadPrintedEntry(entries[0], end);
      ReadLastEntry(first, NormalEntry(entries[0]), rest);
      return;
    }
    var later := Separated(EntryTexts(entries[1..])) + end;
    ReadPrintedEntry(entries[0], ", " + later);
    ReadPrintedEntries(entries[1..], rest);
    hide ReadEntry, ReadEntries, Separated, EntryText, NormalEntry, NormalEntries;
    ReadNextEntry(first, NormalEntry(entries[0]), later, NormalEntries(entries[1..]), rest);
  }

  // The round trip, and where it ends.

  /** No identifier stands where a value is expected. */
  ghost predicate NoIdentifier(v: Value) {
    match v
    case Identifier(_) => false
    case List(items) => forall i :: 0 <= i < |items| ==> NoIdentifier(items[i])
    case Map(entries) => forall i :: 0 <= i < |entries| ==> NoIdentifierInEntry(entries[i])
    case _ => true
  }

  ghost predicate NoIdentifierInEntry(e: Entry) {
    match e
    case Entry(_, v) => NoIdentifier(v)
  }

  lemma {:induction false} ReadYieldsNoIdentifier(s: string)
    ensures ReadValue(s).Some? ==> NoIdentifier(ReadValue(s).value.0)
    decreases |s|, 0
  {
    var t := SkipSpace(s);
    if t != "" {
      if t[0] == '[' { ReadItemsYieldNone(t[1..]); }
      if t[0] == '{' { ReadEntriesYieldNone(t[1..]); }
    }
  }

  lemma {:induction false} ReadItemsYieldNone(s: string)
    ensures ReadItems(s).Some? ==> NoIdentifier(List(ReadItems(s).value.0))
    decreases |s|, 1
  {
    ReadYieldsNoIdentifier(s);
    if ReadValue(s).Some? {
      var t := SkipSpace(ReadValue(s).value.1);
      if t != "" { ReadItemsYieldNone(t[1..]); }
    }
  }

  lemma {:induction false} ReadEntryYieldsNone(s: string)
    ensures ReadEntry(s).Some? ==> NoIdentifierInEntry(ReadEntry(s).value.0)
    decreases |s|, 1
  {
    var t := SkipSpace(s);
    if t != "" && ReadChars(t[1..]).Some? {
      var u := SkipSpace(ReadChars(t[1..]).value.1);
      if u != "" { ReadYieldsNoIdentifier(u[1..]); }
    }
  }

  lemma {:induction false} ReadEntriesYieldNone(s: string)
    ensures ReadEntries(s).Some? ==> NoIdentifier(Map(ReadEntries(s).value.0))
    decreases |s|, 2
  {
    ReadEntryYieldsNone(s);
    if ReadEntry(s).Some? {
      var t := SkipSpace(ReadEntry(s).value.1);
      if t != "" { ReadEntriesYieldNone(t[1..]); }
    }
  }

  /** Turning keys into strings hides no identifier that stands as a value. */
  lemma {:induction false} NormalHidesNone(v: Value)
    requires NoIdentifier(Normal(v))
    ensures NoIdentifier(v)
    decreases v
  {
    match v
    case List(items) =>
      NormalItemsAt(items);
      forall i | 0 <= i < |items| ensures NoIdentifier(items[i]) {
        assert NoIdentifier(NormalItems(items)[i]);
        NormalHidesNone(items[i]);
      }
    case Map(entries) =>
      NormalEntriesAt(entries);
      forall i | 0 <= i < |entries| ensures NoIdentifierInEntry(entries[i]) {
        assert NoIdentifierInEntry(NormalEntries(entries)[i]);
        match entries[i] case Entry(_, w) => NormalHidesNone(w);
      }
    case _ =>
  }

  lemma {:induction false} NormalItemsAt(items: seq<Value>)
    ensures |NormalItems(items)| == |items|
    ensures forall i :: 0 <= i < |items| ==> NormalItems(items)[i] == Normal(items[i])
  {
    if items != [] { NormalItemsAt(items[1..]); }
  }

  lemma {:induction false} NormalEntriesAt(entries: seq<Entry>)
    ensures |NormalEntries(entries)| == |entries|
    ensures forall i :: 0 <= i < |entries| ==> NormalEntries(entries)[i] == NormalEntry(entries[i])
  {
    if entries != [] { NormalEntriesAt(entries[1..]); }
  }

  /** As `Plain`, but with identifiers allowed anywhere. */
  ghost predicate Printable(v: Value) {
    match v
    case Double(_) => false
    case Str(s) => IsBytes(s)
    case List(items) => forall i :: 0 <= i < |items| ==> Printable(items[i])
    case Map(entries) => forall i :: 0 <= i < |entries| ==> PrintableEntry(entries[i])
    case _ => true
  }

  ghost predicate PrintableEntry(e: Entry) {
    match e
    case Entry(k, v) => IsBytes(KeyText(k)) && Printable(v)
  }

  lemma {:induction false} PlainWithoutIdentifier(v: Value)
    requires Printable(v) && NoIdentifier(v)
    ensures Plain(v)
    decreases v
  {
    match v
    case List(items) =>
      forall i | 0 <= i < |items| ensures Plain(items[i]) { PlainWithoutIdentifier(items[i]); }
    case Map(entries) =>
      forall i | 0 <= i < |entries| ensures PlainEntry(entries[i]) {
        assert PrintableEntry(entries[i]) && NoIdentifierInEntry(entries[i]);
        match entries[i] case Entry(_, w) => PlainWithoutIdentifier(w);
      }
    case _ =>
  }

  /** A value free of doubles is recovered from its JSON, up to keys turned into
      strings, exactly when no identifier stands in it as a value. */
  lemma RoundTripIff(v: Value)
    requires Printable(v)
    ensures Parse(Json(v)) == Some(Normal(v)) <==> NoIdentifier(v)
  {
    ReadYieldsNoIdentifier(Json(v));
    if NoIdentifier(v) {
      PlainWithoutIdentifier(v);
      ReadPrinted(v, "");
      assert Json(v) + "" == Json(v);
    } else if Parse(Json(v)) == Some(Normal(v)) {
      NormalHidesNone(v);
    }
  }

  // What no reader can recover.

  /** The value with the name of every identifier changed, in keys as well. */
  ghost function Renamed(v: Value): Value
    decreases v, 1
  {
    match v
    case Identifier(name) => Identifier(name + "_")
    case List(items) => List(RenamedItems(items))
    case Map(entries) => Map(RenamedEntries(entries))
    case _ => v
  }

  ghost function RenamedItems(items: seq<Value>): (r: seq<Value>)
    ensures |r| == |items| && forall i :: 0 <= i < |items| ==> r[i] == Renamed(items[i])
    decreases items, 0
  {
    if items == [] then [] else [Renamed(items[0])] + RenamedItems(items[1..])
  }

  ghost function RenamedEntry(e: Entry): Entry
    decreases e, 2
  {
    match e
    case Entry(k, v) => Entry(Renamed(k), Renamed(v))
  }

  ghost function RenamedEntries(entries: seq<Entry>): (r: seq<Entry>)
    ensures |r| == |entries| && forall i :: 0 <= i < |entries| ==> r[i] == RenamedEntry(entries[i])
    decreases entries, 0
  {
    if entries == [] then [] else [RenamedEntry(entries[0])] + RenamedEntries(entries[1..])
  }

  lemma {:induction false} RenamedText(v: Value)
    ensures Json(Renamed(v)) == Json(v)
    decreases v, 1
  {
    match v
    case List(items) => RenamedItemsText(items);
    case Map(entries) => RenamedEntriesText(entries);
    case _ =>
  }

  lemma {:induction false} RenamedItemsText(items: seq<Value>)
    ensures Appended(RenamedItems(items)) == Appended(items)
    decreases items, 0
  {
    if items != [] {
      RenamedText(items[0]);
      RenamedItemsText(items[1..]);
      assert RenamedItems(items)[1..] == RenamedItems(items[1..]);
    }
  }

  lemma {:induction false} RenamedEntriesText(entries: seq<Entry>)
    ensures AppendedEntries(RenamedEntries(entries)) == AppendedEntries(entries)
    decreases entries, 0
  {
    if entries != [] {
      RenamedEntryText(entries[0]);
      RenamedEntriesText(entries[1..]);
      assert RenamedEntries(entries)[1..] == RenamedEntries(entries[1..]);
    }
  }

  lemma {:induction false} RenamedEntryText(e: Entry)
    ensures EntryText(RenamedEntry(e)) == EntryText(e)
    decreases e, 2
  {
    match e
    case Entry(k, v) =>
      RenamedText(k);
      RenamedText(v);
  }

  lemma {:induction false} RenamedDiffers(v: Value)
    requires !NoIdentifier(v)
    ensures Normal(Renamed(v)) != Normal(v)
    decreases v
  {
    match v
    case List(items) =>
      var i :| 0 <= i < |items| && !NoIdentifier(items[i]);
      RenamedDiffers(items[i]);
      ItemDiffers(items, i);
    case Map(entries) =>
      var i :| 0 <= i < |entries| && !NoIdentifierInEntry(entries[i]);
      RenamedDiffers(entries[i].value);
      EntryDiffers(entries, i);
    case _ =>
  }

  lemma ItemDiffers(items: seq<Value>, i: nat)
    requires i < |items| && Normal(Renamed(items[i])) != Normal(items[i])
    ensures NormalItems(RenamedItems(items)) != NormalItems(items)
  {
    hide Normal, Renamed;
    NormalItemsAt(items);
    NormalItemsAt(RenamedItems(items));
  }

  lemma EntryDiffers(entries: seq<Entry>, i: nat)
    requires i < |entries| && Normal(Renamed(entries[i].value)) != Normal(entries[i].value)
    ensures NormalEntries(RenamedEntries(entries)) != NormalEntries(entries)
  {
    hide Normal, Renamed;
    NormalEntriesAt(entries);
    NormalEntriesAt(RenamedEntries(entries));
    hide KeyText;
    assert NormalEntry(RenamedEntry(entries[i])) != NormalEntry(entries[i]);
  }

  /** Whatever the reader, a value with an identifier where a value is expected
      shares its text with one that differs even with keys taken as strings. */
  lemma NoReaderRecovers(read: string -> Option<Value>, v: Value)
    requires !NoIdentifier(v)
    ensures Json(Renamed(v)) == Json(v) && Normal(Renamed(v)) != Normal(v)
    ensures read(Json(v)) != Some(Normal(v)) || read(Json(Renamed(v))) != Some(Normal(Renamed(v)))
  {
    RenamedText(v);
    RenamedDiffers(v);
  }

  /** A byte is escaped only if it has to be, by a letter or itself in six cases and
      by its code in lower-case digits in all others. */
  lemma EscapeLength(c: char)
    requires c as int < 0x100
    ensures |Escape(c)| == if c in "\"\\\U{8}\U{C}\n\r" then 2 else if 0x20 <= c as int < 0x80 then 1 else 6
    ensures |Escape(c)| == 6 ==> forall d :: 'A' <= d <= 'Z' ==> d !in Escape(c)
  {}

  // Recovery to the letter.

  /** An identifier stands somewhere in the value, perhaps in a key. */
  ghost predicate HoldsIdentifier(v: Value) {
    match v
    case Identifier(_) => true
    case List(items) => exists i :: 0 <= i < |items| && HoldsIdentifier(items[i])
    case Map(entries) => exists i :: 0 <= i < |entries| && EntryHoldsIdentifier(entries[i])
    case _ => false
  }

  ghost predicate EntryHoldsIdentifier(e: Entry) {
    match e
    case Entry(k, v) => HoldsIdentifier(k) || HoldsIdentifier(v)
  }

  /** Every key that is not inside a key is a string. */
  ghost predicate StringKeys(v: Value) {
    match v
    case List(items) => forall i :: 0 <= i < |items| ==> StringKeys(items[i])
    case Map(entries) => forall i :: 0 <= i < |entries| ==> StringKeyIn(entries[i])
    case _ => true
  }

  ghost predicate StringKeyIn(e: Entry) {
    match e
    case Entry(k, v) => k.Str? && StringKeys(v)
  }

  lemma {:induction false} RenamedIsOther(v: Value)
    requires HoldsIdentifier(v)
    ensures Renamed(v) != v
    decreases v
  {
    match v
    case List(items) =>
      var i :| 0 <= i < |items| && HoldsIdentifier(items[i]);
      RenamedIsOther(items[i]);
      assert RenamedItems(items)[i] != items[i];
    case Map(entries) =>
      var i :| 0 <= i < |entries| && EntryHoldsIdentifier(entries[i]);
      var k, w := entries[i].key, entries[i].value;
      if HoldsIdentifier(k) { RenamedIsOther(k); } else { RenamedIsOther(w); }
      assert RenamedEntries(entries)[i] != entries[i];
    case _ =>
  }

  /** Taking keys as strings changes exactly the values that have other keys. */
  lemma {:induction false} NormalIsSameIff(v: Value)
    ensures Normal(v) == v <==> StringKeys(v)
    decreases v
  {
    match v
    case List(items) =>
      NormalItemsAt(items);
      forall i | 0 <= i < |items| ensures Normal(items[i]) == items[i] <==> StringKeys(items[i]) {
        NormalIsSameIff(items[i]);
      }
      assert NormalItems(items) == items <==> forall i :: 0 <= i < |items| ==> NormalItems(items)[i] == items[i];
    case Map(entries) =>
      NormalEntriesAt(entries);
      forall i | 0 <= i < |entries| ensures NormalEntry(entries[i]) == entries[i] <==> StringKeyIn(entries[i]) {
        var w := entries[i].value;
        NormalIsSameIff(w);
        NormalEntrySameIff(entries[i]);
      }
      assert NormalEntries(entries) == entries <==>
        forall i :: 0 <= i < |entries| ==> NormalEntries(entries)[i] == entries[i];
    case _ =>
  }

  lemma NormalEntrySameIff(e: Entry)
    requires Normal(e.value) == e.value <==> StringKeys(e.value)
    ensures NormalEntry(e) == e <==> StringKeyIn(e)
  {
    hide Normal, StringKeys;
  }

  /** And it does not change the text. */
  lemma {:induction false} NormalText(v: Value)
    ensures Json(Normal(v)) == Json(v)
    decreases v, 1
  {
    match v
    case List(items) => NormalItemsText(items);
    case Map(entries) => NormalEntriesText(entries);
    case _ =>
  }

  lemma {:induction false} NormalItemsText(items: seq<Value>)
    ensures Appended(NormalItems(items)) == Appended(items)
    decreases items, 0
  {
    if items != [] {
      NormalText(items[0]);
      NormalItemsText(items[1..]);
      assert NormalItems(items)[1..] == NormalItems(items[1..]);
    }
  }

  lemma {:induction false} NormalEntriesText(entries: seq<Entry>)
    ensures AppendedEntries(NormalEntries(entries)) == AppendedEntries(entries)
    decreases entries, 0
  {
    if entries != [] {
      NormalEntryText(entries[0]);
      NormalEntriesText(entries[1..]);
      assert NormalEntries(entries)[1..] == NormalEntries(entries[1..]);
    }
  }

  lemma {:induction false} NormalEntryText(e: Entry)
    ensures EntryText(NormalEntry(e)) == EntryText(e)
    decreases e, 2
  {
    match e
    case Entry(_, v) => NormalText(v);
  }

  /** A value free of doubles is recovered to the letter exactly when no identifier
      stands in it as a value and all its keys are strings. */
  lemma ExactRoundTripIff(v: Value)
    requires Printable(v)
    ensures Parse(Json(v)) == Some(v) <==> NoIdentifier(v) && StringKeys(v)
  {
    RoundTripIff(v);
    NormalIsSameIff(v);
    ReadYieldsNoIdentifier(Json(v));
    hide Json, Normal, StringKeys, Printable, NoIdentifier, ReadValue;
  }

  /** Whatever the reader, a value with an identifier anywhere, or with a key that
      is not a string, shares its text with a different value. */
  lemma TextIsShared(read: string -> Option<Value>, v: Value)
    requires HoldsIdentifier(v) || !StringKeys(v)
    ensures var other := if HoldsIdentifier(v) then Renamed(v) else Normal(v);
      && other != v && Json(other) == Json(v)
      && (read(Json(v)) != Some(v) || read(Json(other)) != Some(other))
  {
    if HoldsIdentifier(v) {
      RenamedIsOther(v);
      RenamedText(v);
    } else {
      NormalIsSameIff(v);
      NormalText(v);
    }
  }

  /** An identifier at the end of a list leaves no trace in the text. */
  lemma TrailingIdentifierVanishes(items: seq<Value>, name: string)
    ensures Json(List(items + [Identifier(name)])) == Json(List(items))
  {
    AppendedIdentifier(items, name);
    SeparatorTrimmed(Appended(items));
    hide RTrim, Appended;
  }

  lemma SeparatorTrimmed(s: string)
    ensures RTrim(s + ", ") == RTrim(s)
  {
    assert (s + ", ")[..|s| + 1] == s + ",";
    CommaTrimmed(s);
  }

  lemma CommaTrimmed(s: string)
    ensures RTrim(s + ",") == RTrim(s)
  {
    assert (s + ",")[..|s|] == s;
  }

  lemma {:induction false} AppendedIdentifier(items: seq<Value>, name: string)
    ensures Appended(items + [Identifier(name)]) == Appended(items) + ", "
  {
    var more := items + [Identifier(name)];
    if items == [] {
      assert more == [Identifier(name)] && Appended(more[1..]) == "";
    } else {
      assert more[1..] == items[1..] + [Identifier(name)] && more[0] == items[0];
      AppendedIdentifier(items[1..], name);
    }
  }
}
