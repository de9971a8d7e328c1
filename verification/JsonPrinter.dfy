/** Constant values printed as JSON (thrift/compiler/generate/json.cc). */
module JsonPrinter {
  import opened DecimalText

  /** A constant; `Double` carries the text the formatter produces for it. */
  datatype Value =
    | Bool(bool)
    | Integer(int)
    | Double(text: string)
    | Str(s: string)
    | Identifier(string)
    | List(items: seq<Value>)
    | Map(entries: seq<Entry>)
  datatype Entry = Entry(key: Value, value: Value)

  function Hex(d: nat): char
    requires d < 16
  {
    "0123456789abcdef"[d]
  }

  /** How one byte is written inside a string. */
  function Escape(c: char): string {
    match c
    case '"' => "\\\""
    case '\\' => "\\\\"
    case '\U{8}' => "\\b"
    case '\U{C}' => "\\f"
    case '\n' => "\\n"
    case '\r' => "\\r"
    case _ => if c < ' ' || c > '\U{7F}' then "\\" + HexCode(c as int % 0x100) else [c]
  }

  function HexCode(b: nat): string
    requires b < 0x100
  {
    "u00" + [Hex(b / 16), Hex(b % 16)]
  }

  function Escaped(s: string): string {
    if s == "" then "" else Escape(s[0]) + Escaped(s[1..])
  }

  function Quote(s: string): string {
    "\"" + Escaped(s) + "\""
  }

  /** Without its trailing spaces and commas. */
  function RTrim(s: string): string {
    if s != "" && (s[|s| - 1] == ' ' || s[|s| - 1] == ',') then RTrim(s[..|s| - 1]) else s
  }

  function Json(v: Value): string
    decreases v, 1
  {
    match v
    case Bool(b) => if b then "true" else "false"
    case Integer(n) => Decimal(n)
    case Double(text) => text
    case Str(s) => Quote(s)
    case List(items) => "[" + RTrim(Appended(items)) + "]"
    case Map(entries) => "{" + RTrim(AppendedEntries(entries)) + "}"
    case Identifier(_) => ""
  }

  /** Each item followed by a separator, as the loop appends them. */
  function Appended(items: seq<Value>): string
    decreases items, 0
  {
    if items == [] then "" else Json(items[0]) + ", " + Appended(items[1..])
  }

  function AppendedEntries(entries: seq<Entry>): string
    decreases entries, 0
  {
    if entries == [] then "" else
      EntryText(entries[0]) + ", " + AppendedEntries(entries[1..])
  }

  /** A key is quoted: a string as it is, any other key as the text of its JSON. */
  function EntryText(e: Entry): string
    decreases e, 2
  {
    match e
    case Entry(k, v) => Quote(if k.Str? then k.s else Json(k)) + ": " + Json(v)
  }

  method RTrimInPlace(s: string) returns (r: string)
    ensures r <= s && forall i :: |r| <= i < |s| ==> s[i] == ' ' || s[i] == ','
    ensures r != "" ==> r[|r| - 1] != ' ' && r[|r| - 1] != ','
    ensures r == RTrim(s)
  {
    r := s;
    while r != "" && (r[|r| - 1] == ' ' || r[|r| - 1] == ',')
      invariant RTrim(r) == RTrim(s)
      invariant r <= s && forall i :: |r| <= i < |s| ==> s[i] == ' ' || s[i] == ','
      decreases |r|
    {
      r := r[..|r| - 1];
    }
  }

  method JsonQuoteAscii(s: string) returns (o: string)
    ensures o == Quote(s)
  {
    hide Escaped, Escape;
    o := "\"";
    var i := 0;
    assert s[i..] == s;
    while i < |s|
      invariant 0 <= i <= |s|
      invariant o + Escaped(s[i..]) == "\"" + Escaped(s)
    {
      EscapedStep(o, s, i);
      o := o + Escape(s[i]);
      i := i + 1;
    }
    EscapedEnd(s);
    o := o + "\"";
  }

  lemma EscapedStep(o: string, s: string, i: nat)
    requires i < |s|
    ensures o + Escape(s[i]) + Escaped(s[i + 1..]) == o + Escaped(s[i..])
  {
    assert s[i..][0] == s[i] && s[i..][1..] == s[i + 1..];
  }

  lemma EscapedEnd(s: string)
    ensures Escaped(s[|s|..]) == ""
  {}

  method ToJson(v: Value) returns (r: string)
    ensures r == Json(v)
    decreases v, 1
  {
    match v
    case Bool(b) => r := if b then "true" else "false";
    case Integer(n) => r := Decimal(n);
    case Double(text) => r := text;
    case Str(s) => r := JsonQuoteAscii(s);
    case List(items) => r := StringifyList(items);
    case Map(entries) => r := StringifyMap(entries);
    case Identifier(_) => r := "";
  }

  method StringifyList(items: seq<Value>) returns (r: string)
    ensures r == "[" + RTrim(Appended(items)) + "]"
    decreases items, 0
  {
    var result := "";
    var i := 0;
    while i < |items|
      invariant 0 <= i <= |items|
      invariant result + Appended(items[i..]) == Appended(items)
    {
      var text := ToJson(items[i]);
      AppendedStep(result, items, i);
      result := result + text + ", ";
      i := i + 1;
    }
    assert result == Appended(items);
    result := RTrimInPlace(result);
    r := "[" + result + "]";
  }

  lemma AppendedStep(result: string, items: seq<Value>, i: nat)
    requires i < |items|
    ensures result + Json(items[i]) + ", " + Appended(items[i + 1..]) == result + Appended(items[i..])
  {
    assert items[i..][1..] == items[i + 1..];
  }

  method StringifyMap(entries: seq<Entry>) returns (r: string)
    ensures r == "{" + RTrim(AppendedEntries(entries)) + "}"
    decreases entries, 0
  {
    var result := "";
    var i := 0;
    while i < |entries|
      invariant 0 <= i <= |entries|
      invariant result + AppendedEntries(entries[i..]) == AppendedEntries(entries)
    {
      var text := StringifyEntry(entries[i]);
      AppendedEntriesStep(result, entries, i);
      result := result + text + ", ";
      i := i + 1;
    }
    assert result == AppendedEntries(entries);
    result := RTrimInPlace(result);
    r := "{" + result + "}";
  }

  method StringifyEntry(e: Entry) returns (r: string)
    ensures r == EntryText(e)
    decreases e, 2
  {
    match e
    case Entry(k, v) =>
      var key := ToJson(k);
      if !k.Str? {
        key := JsonQuoteAscii(key);
      }
      var text := ToJson(v);
      r := key + ": " + text;
  }

  lemma AppendedEntriesStep(result: string, entries: seq<Entry>, i: nat)
    requires i < |entries|
    ensures result + EntryText(entries[i]) + ", " + AppendedEntries(entries[i + 1..])
         == result + AppendedEntries(entries[i..])
  {
    assert entries[i..][1..] == entries[i + 1..];
  }
}
