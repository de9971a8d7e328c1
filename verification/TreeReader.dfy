/** Reading a printed tree view back, and the proof that nothing is lost. */
module TreeReader {
  import opened Wrappers
  import opened TreePrinter

  /** A line stripped of its indentation: how deep it stands and its text. */
  datatype Entry = Entry(depth: nat, data: string)

  /** The lines of a text, each ended by a newline; whatever follows the last newline is dropped. */
  function SplitLines(text: string, line: string): seq<string> {
    if text == "" then []
    else if text[0] == '\n' then [line] + SplitLines(text[1..], "")
    else SplitLines(text[1..], line + [text[0]])
  }

  /** Read the indentation of a line below the root. */
  function Decode(line: string, depth: nat): Option<Entry> {
    if |line| < INDENT then None
    else if line[..INDENT] == Connector(true) || line[..INDENT] == Connector(false) then
      Some(Entry(depth + 1, line[INDENT..]))
    else if line[..INDENT] == Cell(true) || line[..INDENT] == Cell(false) then
      Decode(line[INDENT..], depth + 1)
    else None
  }

  function DecodeAll(lines: seq<string>): Option<seq<Entry>> {
    if lines == [] then Some([]) else
      var es := DecodeAll(lines[..|lines| - 1]);
      var e := Decode(lines[|lines| - 1], 0);
      if es.Some? && e.Some? then Some(es.value + [e.value]) else None
  }

  /** The trees standing at depth `d` at the front of the entries, and the entries left over. */
  function ReadForest(es: seq<Entry>, d: nat): (r: (seq<Scope>, seq<Entry>))
    ensures |r.1| <= |es|
    decreases |es|
  {
    if es == [] || es[0].depth != d then ([], es) else
      var (children, rest) := ReadForest(es[1..], d + 1);
      var (siblings, rest') := ReadForest(rest, d);
      ([Scope(es[0].data, children)] + siblings, rest')
  }

  /** The tree a printed text stands for. */
  function Read(text: string): Option<Scope> {
    var lines := SplitLines(text, "");
    if lines == [] then None else
      match DecodeAll(lines[1..])
      case None => None
      case Some(es) =>
        var (children, rest) := ReadForest(es, 1);
        if rest == [] then Some(Scope(lines[0], children)) else None
  }

  ghost predicate NoNewline(t: Scope) {
    '\n' !in t.data && forall c :: c in t.children ==> NoNewline(c)
  }

  /** The entries of the first `k` trees, in printing order. */
  ghost function Preorder(cs: seq<Scope>, k: nat, d: nat): seq<Entry>
    requires k <= |cs|
    decreases cs, k
  {
    if k == 0 then [] else
      Preorder(cs, k - 1, d) + [Entry(d, cs[k - 1].data)] +
      Preorder(cs[k - 1].children, |cs[k - 1].children|, d + 1)
  }

  // Text to lines.

  lemma {:induction false} SplitOneLine(line: string, start: string, rest: string)
    requires '\n' !in line
    ensures SplitLines(line + "\n" + rest, start) == [start + line] + SplitLines(rest, "")
  {
    var text := line + "\n" + rest;
    if line == "" {
      assert text[1..] == rest && start + line == start;
    } else {
      assert text[1..] == line[1..] + "\n" + rest;
      SplitOneLine(line[1..], start + [line[0]], rest);
      assert start + [line[0]] + line[1..] == start + line;
    }
  }

  lemma {:induction false} SplitText(lines: seq<string>, rest: string)
    requires forall l :: l in lines ==> '\n' !in l
    ensures SplitLines(Text(lines) + rest, "") == lines + SplitLines(rest, "")
    decreases |lines|
  {
    if lines == [] {
      assert Text(lines) + rest == rest;
    } else {
      var init, line := lines[..|lines| - 1], lines[|lines| - 1];
      assert line in lines && forall l :: l in init ==> l in lines;
      assert Text(lines) == Text(init) + line + "\n";
      hide Text;
      assert Text(lines) + rest == Text(init) + (line + "\n" + rest);
      SplitText(init, line + "\n" + rest);
      SplitOneLine(line, "", rest);
      assert "" + line == line;
      assert lines == init + [line];
    }
  }

  // Lines to entries.

  lemma {:induction false} DecodeBelow(bars: seq<bool>, lastChild: bool, data: string, depth: nat)
    ensures Decode(Cells(bars) + Connector(lastChild) + data, depth) == Some(Entry(depth + |bars| + 1, data))
  {
    hide Decode, Connector;
    DecodeEnd(lastChild, data, depth);
    if bars == [] {
      assert Cells(bars) + Connector(lastChild) + data == Connector(lastChild) + data;
      return;
    }
    CellsFromFront(bars);
    hide Cells, Cell;
    var first, later := Cell(bars[0]), Cells(bars[1..]) + Connector(lastChild) + data;
    assert Cells(bars) + Connector(lastChild) + data == first + later;
    DecodeStep(bars[0], later, depth);
    DecodeBelow(bars[1..], lastChild, data, depth + 1);
  }

  lemma DecodeEnd(lastChild: bool, data: string, depth: nat)
    ensures Decode(Connector(lastChild) + data, depth) == Some(Entry(depth + 1, data))
  {
    var line := Connector(lastChild) + data;
    assert line[..INDENT] == Connector(lastChild) && line[INDENT..] == data;
  }

  lemma DecodeStep(bar: bool, later: string, depth: nat)
    ensures Decode(Cell(bar) + later, depth) == Decode(later, depth + 1)
  {
    var line := Cell(bar) + later;
    assert line[..INDENT] == Cell(bar) && line[INDENT..] == later;
    assert Cell(bar)[1] == ' ' && Connector(true)[1] == '─' && Connector(false)[1] == '─';
  }

  lemma {:induction false} CellsFromFront(bars: seq<bool>)
    requires bars != []
    ensures Cells(bars) == Cell(bars[0]) + Cells(bars[1..])
  {
    if |bars| > 1 {
      CellsFromFront(bars[..|bars| - 1]);
      assert bars[..|bars| - 1][1..] == bars[1..][..|bars| - 2];
    }
  }

  lemma {:induction false} DecodeConcat(a: seq<string>, b: seq<string>)
    requires DecodeAll(a).Some? && DecodeAll(b).Some?
    ensures DecodeAll(a + b) == Some(DecodeAll(a).value + DecodeAll(b).value)
  {
    if b == [] {
      assert a + b == a && DecodeAll(a).value + [] == DecodeAll(a).value;
    } else {
      var init := b[..|b| - 1];
      assert (a + b)[..|a + b| - 1] == a + init;
      DecodeConcat(a, init);
      var es, fs, e := DecodeAll(a).value, DecodeAll(init).value, Decode(b[|b| - 1], 0).value;
      assert es + fs + [e] == es + (fs + [e]);
    }
  }

  lemma DecodeSingle(line: string)
    requires Decode(line, 0).Some?
    ensures DecodeAll([line]) == Some([Decode(line, 0).value])
    ensures DecodeAll([]) == Some([])
  {
    assert [line][..0] == [];
    assert DecodeAll([]) == Some([]);
    assert [] + [Decode(line, 0).value] == [Decode(line, 0).value];
  }

  lemma {:induction false} DecodeChildLines(cs: seq<Scope>, k: nat, bars: seq<bool>)
    requires k <= |cs|
    ensures DecodeAll(ChildLines(cs, k, bars)) == Some(Preorder(cs, k, |bars| + 1))
    decreases cs, k
  {
    hide Decode, DecodeAll, Cells, Connector, Preorder, ChildLines, Lines;
    if k == 0 {
      DecodeNoLines(cs, bars);
      return;
    }
    var c, below := cs[k - 1], bars + [k < |cs|];
    DecodeChildLines(cs, k - 1, bars);
    DecodeChildLines(c.children, |c.children|, below);
    DecodeNode(c, bars, k == |cs|);
    DecodeConcat(ChildLines(cs, k - 1, bars), Lines(c, Cells(bars) + Connector(k == |cs|), below));
    LastChildLines(cs, k, bars);
    LastPreorder(cs, k, |bars| + 1);
  }

  lemma DecodeNoLines(cs: seq<Scope>, bars: seq<bool>)
    ensures DecodeAll(ChildLines(cs, 0, bars)) == Some(Preorder(cs, 0, |bars| + 1))
  {}

  lemma DecodeNode(c: Scope, bars: seq<bool>, last: bool)
    requires DecodeAll(ChildLines(c.children, |c.children|, bars + [!last])) ==
      Some(Preorder(c.children, |c.children|, |bars| + 2))
    ensures DecodeAll(Lines(c, Cells(bars) + Connector(last), bars + [!last])) ==
      Some([Entry(|bars| + 1, c.data)] + Preorder(c.children, |c.children|, |bars| + 2))
  {
    var head := Cells(bars) + Connector(last);
    DecodeBelow(bars, last, c.data, 0);
    DecodeSingle(head + c.data);
    DecodeConcat([head + c.data], ChildLines(c.children, |c.children|, bars + [!last]));
  }

  lemma LastChildLines(cs: seq<Scope>, k: nat, bars: seq<bool>)
    requires 0 < k <= |cs|
    ensures ChildLines(cs, k, bars) ==
      ChildLines(cs, k - 1, bars) + Lines(cs[k - 1], Cells(bars) + Connector(k == |cs|), bars + [k < |cs|])
  {}

  lemma LastPreorder(cs: seq<Scope>, k: nat, d: nat)
    requires 0 < k <= |cs|
    ensures Preorder(cs, k, d) == Preorder(cs, k - 1, d) +
      ([Entry(d, cs[k - 1].data)] + Preorder(cs[k - 1].children, |cs[k - 1].children|, d + 1))
  {}

  // Entries to trees.

  lemma {:induction false} PreorderFromFront(cs: seq<Scope>, k: nat, d: nat)
    requires 0 < k <= |cs|
    ensures Preorder(cs, k, d) ==
      [Entry(d, cs[0].data)] + Preorder(cs[0].children, |cs[0].children|, d + 1) + Preorder(cs[1..], k - 1, d)
    decreases k
  {
    if k > 1 {
      PreorderFromFront(cs, k - 1, d);
    }
  }

  lemma {:induction false} ReadPreorder(cs: seq<Scope>, d: nat, rest: seq<Entry>)
    requires rest == [] || rest[0].depth < d
    ensures ReadForest(Preorder(cs, |cs|, d) + rest, d) == (cs, rest)
    decreases cs
  {
    hide Preorder, ReadForest;
    if cs == [] {
      ReadNone(d, rest);
      return;
    }
    var kids := cs[0].children;
    var after := Preorder(cs[1..], |cs| - 1, d) + rest;
    AfterIsShallow(cs[1..], d, rest);
    ReadPreorder(kids, d + 1, after);
    ReadPreorder(cs[1..], d, rest);
    ReadFirst(Entry(d, cs[0].data), Preorder(kids, |kids|, d + 1), after);
    PreorderSplit(cs, d, rest);
    assert cs == [cs[0]] + cs[1..];
  }

  lemma ReadNone(d: nat, rest: seq<Entry>)
    requires rest == [] || rest[0].depth < d
    ensures ReadForest(Preorder([], 0, d) + rest, d) == ([], rest)
  {
    assert Preorder([], 0, d) + rest == rest;
  }

  lemma PreorderSplit(cs: seq<Scope>, d: nat, rest: seq<Entry>)
    requires cs != []
    ensures Preorder(cs, |cs|, d) + rest ==
      [Entry(d, cs[0].data)] +
      (Preorder(cs[0].children, |cs[0].children|, d + 1) + (Preorder(cs[1..], |cs| - 1, d) + rest))
  {
    PreorderFromFront(cs, |cs|, d);
    hide Preorder;
    var first, below := [Entry(d, cs[0].data)], Preorder(cs[0].children, |cs[0].children|, d + 1);
    var after := Preorder(cs[1..], |cs| - 1, d);
    assert first + below + after + rest == first + (below + (after + rest));
  }

  lemma AfterIsShallow(cs: seq<Scope>, d: nat, rest: seq<Entry>)
    requires rest == [] || rest[0].depth < d
    ensures var after := Preorder(cs, |cs|, d) + rest; after == [] || after[0].depth < d + 1
  {
    if cs != [] {
      PreorderFromFront(cs, |cs|, d);
    }
  }

  /** One step of the reader: a tree, then its siblings. */
  lemma ReadFirst(first: Entry, below: seq<Entry>, after: seq<Entry>)
    requires ReadForest(below + after, first.depth + 1).1 == after
    ensures ReadForest([first] + (below + after), first.depth) ==
      ([Scope(first.data, ReadForest(below + after, first.depth + 1).0)] + ReadForest(after, first.depth).0,
       ReadForest(after, first.depth).1)
  {
    assert ([first] + (below + after))[1..] == below + after;
  }

  // The lines of a printed tree hold no newline.

  lemma {:induction false} CellsHoldNoNewline(bars: seq<bool>)
    ensures '\n' !in Cells(bars)
  {
    if bars != [] { CellsHoldNoNewline(bars[..|bars| - 1]); }
  }

  ghost predicate HoldNone(lines: seq<string>) {
    forall l :: l in lines ==> '\n' !in l
  }

  lemma {:induction false} LinesHoldNoNewline(cs: seq<Scope>, k: nat, bars: seq<bool>)
    requires k <= |cs| && forall c :: c in cs ==> NoNewline(c)
    ensures HoldNone(ChildLines(cs, k, bars))
    decreases cs, k
  {
    if k == 0 {
      return;
    }
    hide NoNewline, HoldNone;
    var c, below := cs[k - 1], bars + [k < |cs|];
    assert c in cs;
    ChildrenHoldNone(c);
    LinesHoldNoNewline(cs, k - 1, bars);
    LinesHoldNoNewline(c.children, |c.children|, below);
    LastChildLines(cs, k, bars);
    hide ChildLines;
    NodeHoldsNone(c, bars, k == |cs|, below);
    ConcatHoldsNone(ChildLines(cs, k - 1, bars), Lines(c, Cells(bars) + Connector(k == |cs|), below));
  }

  lemma NodeHoldsNone(c: Scope, bars: seq<bool>, last: bool, below: seq<bool>)
    requires '\n' !in c.data && HoldNone(ChildLines(c.children, |c.children|, below))
    ensures HoldNone(Lines(c, Cells(bars) + Connector(last), below))
  {
    CellsHoldNoNewline(bars);
    hide Cells, ChildLines;
    var line := Cells(bars) + Connector(last) + c.data;
    assert '\n' !in line;
    ConcatHoldsNone([line], ChildLines(c.children, |c.children|, below));
  }

  lemma ConcatHoldsNone(a: seq<string>, b: seq<string>)
    requires HoldNone(a) && HoldNone(b)
    ensures HoldNone(a + b)
  {}

  lemma ChildrenHoldNone(t: Scope)
    requires NoNewline(t)
    ensures '\n' !in t.data && forall c :: c in t.children ==> NoNewline(c)
  {}

  /** Every tree whose texts hold no newline is recovered from its printed form. */
  lemma ReadPrinted(t: Scope)
    requires NoNewline(t)
    ensures Read(Text(Lines(t, "", []))) == Some(t)
  {
    var below := ChildLines(t.children, |t.children|, []);
    LinesHoldNoNewline(t.children, |t.children|, []);
    var lines := Lines(t, "", []);
    assert lines == [t.data] + below by { assert "" + t.data == t.data; }
    SplitText(lines, "");
    assert Text(lines) + "" == Text(lines) && lines + [] == lines;
    DecodeChildLines(t.children, |t.children|, []);
    ReadPreorder(t.children, 1, []);
    assert Preorder(t.children, |t.children|, 1) + [] == Preorder(t.children, |t.children|, 1);
  }

  // What is read back never holds a newline.

  lemma {:induction false} SplitLinesHoldNone(text: string, line: string)
    requires '\n' !in line
    ensures forall l :: l in SplitLines(text, line) ==> '\n' !in l
    decreases |text|
  {
    if text != "" {
      SplitLinesHoldNone(text[1..], if text[0] == '\n' then "" else line + [text[0]]);
    }
  }

  lemma {:induction false} DecodeHoldsNone(line: string, depth: nat)
    requires '\n' !in line
    ensures Decode(line, depth).Some? ==> '\n' !in Decode(line, depth).value.data
  {
    if |line| >= INDENT {
      DecodeHoldsNone(line[INDENT..], depth + 1);
    }
  }

  lemma {:induction false} DecodeAllHoldsNone(lines: seq<string>)
    requires forall l :: l in lines ==> '\n' !in l
    ensures DecodeAll(lines).Some? ==> forall e :: e in DecodeAll(lines).value ==> '\n' !in e.data
    decreases |lines|
  {
    if lines != [] {
      assert lines[|lines| - 1] in lines;
      DecodeAllHoldsNone(lines[..|lines| - 1]);
      DecodeHoldsNone(lines[|lines| - 1], 0);
    }
  }

  lemma {:induction false} ForestHoldsNone(es: seq<Entry>, d: nat)
    requires forall e :: e in es ==> '\n' !in e.data
    ensures forall t :: t in ReadForest(es, d).0 ==> NoNewline(t)
    ensures forall e :: e in ReadForest(es, d).1 ==> '\n' !in e.data
    decreases |es|
  {
    if es != [] && es[0].depth == d {
      assert es[0] in es;
      ForestHoldsNone(es[1..], d + 1);
      ForestHoldsNone(ReadForest(es[1..], d + 1).1, d);
    }
  }

  lemma ReadHoldsNone(text: string)
    ensures Read(text).Some? ==> NoNewline(Read(text).value)
  {
    var lines := SplitLines(text, "");
    SplitLinesHoldNone(text, "");
    if lines != [] {
      assert lines[0] in lines;
      DecodeAllHoldsNone(lines[1..]);
      if DecodeAll(lines[1..]).Some? {
        ForestHoldsNone(DecodeAll(lines[1..]).value, 1);
      }
    }
  }

  /** The text can be read back to the tree exactly when no text in the tree
      holds a newline. */
  lemma ReadBackIff(t: Scope)
    ensures Read(Text(Lines(t, "", []))) == Some(t) <==> NoNewline(t)
  {
    hide Read, NoNewline;
    if NoNewline(t) {
      ReadPrinted(t);
    }
    ReadHoldsNone(Text(Lines(t, "", [])));
  }

  /** The tree whose only text is what `t` prints. */
  ghost function Flattened(t: Scope): Scope {
    var text := Text(Lines(t, "", []));
    Scope(if text == "" then "" else text[..|text| - 1], [])
  }

  /** Whatever the reader, it cannot tell a tree with children from the one node
      that holds its lines, so some text with a newline in it is not recovered. */
  lemma NoReaderRecovers(read: string -> Option<Scope>, t: Scope)
    requires t.children != []
    ensures Flattened(t) != t && Text(Lines(Flattened(t), "", [])) == Text(Lines(t, "", []))
    ensures var text := Text(Lines(t, "", [])); read(text) != Some(t) || read(text) != Some(Flattened(t))
  {
    hide ChildLines;
    var text := Text(Lines(t, "", []));
    assert text != "" && text[|text| - 1] == '\n';
    LineText(Flattened(t), "", []);
    NoChildLines([]);
    assert Text(Lines(Flattened(t), "", [])) == text[..|text| - 1] + "\n" == text;
  }

  method ToString(t: Scope) returns (text: string)
    ensures text == Text(Lines(t, "", []))
  {
    var printer := new Printer();
    printer.PrintRecursively(t, 0, true, []);
    text := printer.out;
  }

  /** What a small tree looks like. */
  lemma SmallTreePrinted()
    ensures var t := Scope("a", [Scope("b", [Scope("c", [])]), Scope("d", [])]);
      Lines(t, "", []) == ["a", "├─ b", "│  ╰─ c", "╰─ d"]
  {
    var c, d := Scope("c", []), Scope("d", []);
    var b := Scope("b", [c]);
    var t := Scope("a", [b, d]);
    LeafPrinted("c", "│  ╰─ ", [true, false]);
    LeafPrinted("d", "╰─ ", [false]);
    assert Cells([]) == "" && [true][..0] == [];
    assert Cells([true]) == "│  ";
    hide Lines, Cells;
    SecondPrinted(b.children, [true]);
    assert "│  " + Connector(true) == "│  ╰─ " && "│  ╰─ " + "c" == "│  ╰─ c";
    assert [true] + [false] == [true, false];
    BranchPrinted(b, "├─ ", [true]);
    assert "├─ " + "b" == "├─ b";
    assert Lines(b, "├─ ", [true]) == ["├─ b", "│  ╰─ c"];
    TwoPrinted(b, d);
    assert "" + Connector(false) == "├─ " && "" + Connector(true) == "╰─ " && "╰─ " + "d" == "╰─ d";
    BranchPrinted(t, "", []);
    assert "" + "a" == "a";
  }

  lemma LeafPrinted(data: string, head: string, bars: seq<bool>)
    ensures Lines(Scope(data, []), head, bars) == [head + data]
  {
    assert ChildLines([], 0, bars) == [];
  }

  lemma BranchPrinted(t: Scope, head: string, bars: seq<bool>)
    ensures Lines(t, head, bars) == [head + t.data] + ChildLines(t.children, |t.children|, bars)
  {}

  lemma SecondPrinted(cs: seq<Scope>, bars: seq<bool>)
    requires |cs| == 1
    ensures ChildLines(cs, 1, bars) == Lines(cs[0], Cells(bars) + Connector(true), bars + [false])
  {
    assert ChildLines(cs, 0, bars) == [];
  }

  lemma TwoPrinted(first: Scope, second: Scope)
    ensures ChildLines([first, second], 2, []) ==
      Lines(first, Cells([]) + Connector(false), [true]) + Lines(second, Cells([]) + Connector(true), [false])
  {
    var cs := [first, second];
    LastChildLines(cs, 2, []);
    LastChildLines(cs, 1, []);
    assert ChildLines(cs, 0, []) == [];
    assert [] + [true] == [true] && [] + [false] == [false];
  }
}
