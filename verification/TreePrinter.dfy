/** The tree view printer (thrift/common/tree_printer.cc). Text is a sequence of
    code points, so each box character counts once. */
module TreePrinter {
  datatype Scope = Scope(data: string, children: seq<Scope>)

  const INDENT := 3

  /** What is drawn at one level to the left of a connector. */
  function Cell(bar: bool): string {
    if bar then "│  " else "   "
  }

  function Connector(lastChild: bool): (r: string)
    ensures |r| == INDENT
  {
    if lastChild then "╰─ " else "├─ "
  }

  function Cells(bars: seq<bool>): (r: string)
    ensures |r| == INDENT * |bars|
  {
    if bars == [] then "" else Cells(bars[..|bars| - 1]) + Cell(bars[|bars| - 1])
  }

  /** The lines of a node and of everything below it. `head` opens the node's own
      line; `bars[l]` says whether the branch at level `l` still has later
      siblings, and exactly then a bar is drawn there below the node. */
  ghost function Lines(t: Scope, head: string, bars: seq<bool>): seq<string>
    decreases t, 1, 0
  {
    [head + t.data] + ChildLines(t.children, |t.children|, bars)
  }

  /** The lines of the first `k` children. */
  ghost function ChildLines(cs: seq<Scope>, k: nat, bars: seq<bool>): seq<string>
    requires k <= |cs|
    decreases cs, 0, k
  {
    if k == 0 then [] else
      ChildLines(cs, k - 1, bars) + Lines(cs[k - 1], Cells(bars) + Connector(k == |cs|), bars + [k < |cs|])
  }

  function Text(lines: seq<string>): string {
    if lines == [] then "" else Text(lines[..|lines| - 1]) + lines[|lines| - 1] + "\n"
  }

  lemma {:induction false} TextConcat(a: seq<string>, b: seq<string>)
    ensures Text(a + b) == Text(a) + Text(b)
  {
    if b == [] {
      assert a + b == a;
    } else {
      assert (a + b)[..|a + b| - 1] == a + b[..|b| - 1];
      TextConcat(a, b[..|b| - 1]);
    }
  }

  /** The levels at which a bar is drawn, in increasing order. */
  ghost function Levels(bars: seq<bool>): (r: seq<nat>)
    ensures forall i, j :: 0 <= i < j < |r| ==> r[i] < r[j]
    ensures forall l :: l in r <==> 0 <= l < |bars| && bars[l]
  {
    if bars == [] then [] else
      var above := Levels(bars[..|bars| - 1]);
      assert forall i :: 0 <= i < |above| ==> above[i] in above;
      above + if bars[|bars| - 1] then [|bars| - 1] else []
  }

  /** `active` while a node other than the root is printed: the levels of the open
      branches above its own, then its own. */
  ghost predicate ActiveFor(active: seq<nat>, bars: seq<bool>) {
    active == Levels(bars) + [|bars|]
  }

  /** A character of the indentation before the box characters are put in, once
      the levels in `done` have been drawn. */
  ghost function Raw(done: seq<nat>, own: nat, lastChild: bool, level: nat, offset: nat): char {
    if level !in done then ' '
    else if level != own then (if offset == 0 then '|' else ' ')
    else if offset == 0 then (if lastChild then '\\' else '+')
    else if offset == 1 then '-'
    else ' '
  }

  function Boxed(c: char): char {
    match c
    case '+' => '├'
    case '-' => '─'
    case '\\' => '╰'
    case '|' => '│'
    case _ => c
  }

  /** The indentation drawn in place over a string of spaces. */
  method DrawBranches(out: array<char>, indent: nat, active: seq<nat>, lastChild: bool)
    requires out.Length == INDENT * indent && forall k :: 0 <= k < out.Length ==> out[k] == ' '
    requires forall i :: 0 <= i < |active| ==> active[i] < indent
    requires forall i, j :: 0 <= i < j < |active| ==> active[i] < active[j]
    modifies out
    ensures active == [] ==> out[..] == old(out[..])
    ensures active != [] ==> forall k :: 0 <= k < out.Length ==>
      out[k] == Raw(active, active[|active| - 1], lastChild, k / INDENT, k % INDENT)
  {
    if active == [] {
      return;
    }
    ghost var own := active[|active| - 1];
    var a := 0;
    while a < |active|
      invariant 0 <= a <= |active|
      invariant forall k :: 0 <= k < out.Length ==>
        out[k] == Raw(active[..a], own, lastChild, k / INDENT, k % INDENT)
    {
      var i := active[a];
      assert active[..a + 1] == active[..a] + [i];
      assert i !in active[..a];
      var offset := i * INDENT;
      if i == active[|active| - 1] {
        out[offset] := if lastChild then '\\' else '+';
        out[offset + 1] := '-';
      } else {
        out[offset] := '|';
      }
      a := a + 1;
    }
    assert active[..a] == active;
  }

  method GenerateIndentation(indent: nat, active: seq<nat>, lastChild: bool, ghost bars: seq<bool>)
    returns (out: string)
    requires (indent == 0 && active == []) || (indent == |bars| + 1 && ActiveFor(active, bars))
    ensures out == if indent == 0 then "" else Cells(bars) + Connector(lastChild)
  {
    hide Levels, Cells, Raw, Boxed;
    var buffer := new char[INDENT * indent](_ => ' ');
    if active != [] {
      assert forall i :: 0 <= i < |Levels(bars)| ==> Levels(bars)[i] in Levels(bars);
    }
    DrawBranches(buffer, indent, active, lastChild);
    out := buffer[..];
    out := ReplaceAll(out);
    if indent > 0 {
      forall k | 0 <= k < |out| ensures out[k] == (Cells(bars) + Connector(lastChild))[k] {
        assert k == INDENT * (k / INDENT) + k % INDENT;
        DrawnAt(bars, lastChild, k / INDENT, k % INDENT);
      }
    }
  }

  lemma DrawnAt(bars: seq<bool>, lastChild: bool, l: nat, j: nat)
    requires l <= |bars| && j < INDENT
    ensures Boxed(Raw(Levels(bars) + [|bars|], |bars|, lastChild, l, j))
         == (Cells(bars) + Connector(lastChild))[INDENT * l + j]
  {
    LevelDrawn(bars, l);
    hide Levels, Cells, Connector;
    RawAt(Levels(bars) + [|bars|], |bars|, lastChild, l, j);
    hide Raw, Boxed;
    Indexed(Cells(bars), Connector(lastChild), INDENT * l + j);
    if l < |bars| {
      CellsAt(bars, l, j);
      return;
    }
    ConnectorAt(lastChild, j);
  }

  lemma Indexed(a: string, b: string, k: nat)
    requires k < |a| + |b|
    ensures (a + b)[k] == if k < |a| then a[k] else b[k - |a|]
  {}

  lemma RawAt(done: seq<nat>, own: nat, lastChild: bool, l: nat, j: nat)
    requires j < INDENT
    ensures Boxed(Raw(done, own, lastChild, l, j)) ==
      if l !in done then ' '
      else if l != own then (if j == 0 then '│' else ' ')
      else if j == 0 then (if lastChild then '╰' else '├') else if j == 1 then '─' else ' '
  {}

  lemma LevelDrawn(bars: seq<bool>, l: nat)
    ensures l in Levels(bars) + [|bars|] <==> l == |bars| || (l < |bars| && bars[l])
  {}

  lemma ConnectorAt(lastChild: bool, j: nat)
    requires j < INDENT
    ensures Connector(lastChild)[j] ==
      if j == 0 then (if lastChild then '╰' else '├') else if j == 1 then '─' else ' '
  {}

  method ReplaceAll(s: string) returns (r: string)
    ensures |r| == |s| && forall k :: 0 <= k < |s| ==> r[k] == Boxed(s[k])
  {
    r := seq(|s|, k requires 0 <= k < |s| => Boxed(s[k]));
  }

  lemma {:induction false} CellsAt(bars: seq<bool>, l: nat, j: nat)
    requires l < |bars| && j < INDENT
    ensures Cells(bars)[INDENT * l + j] == if bars[l] && j == 0 then '│' else ' '
  {
    if l < |bars| - 1 {
      CellsAt(bars[..|bars| - 1], l, j);
    }
  }

  class Printer {
    var out: string
    var active: seq<nat>

    constructor ()
      ensures out == "" && active == []
    {
      out, active := "", [];
    }

    /** `bars` are the branches still open below this node; for any node but the
        root the last of them is its own. */
    method PrintRecursively(t: Scope, indent: nat, lastChild: bool, ghost bars: seq<bool>)
      requires if indent == 0 then bars == [] && active == [] && lastChild
        else |bars| == indent && lastChild == !bars[indent - 1] && ActiveFor(active, bars[..indent - 1])
      modifies this
      ensures active == Levels(bars)
      ensures out == old(out) + Text(Lines(t,
        if indent == 0 then "" else Cells(bars[..indent - 1]) + Connector(lastChild), bars))
      decreases t, 1
    {
      hide Levels, Cells, Lines, ChildLines, Text;
      var head := GenerateIndentation(indent, active, lastChild, if indent == 0 then [] else bars[..indent - 1]);
      out := out + head;
      out := out + t.data + "\n";
      assert out == old(out) + (head + t.data + "\n");
      if lastChild && active != [] {
        active := active[..|active| - 1];
      }
      OwnLevelClosed(indent, bars);
      LineText(t, head, bars);
      if t.children == [] {
        NoChildLines(bars);
        return;
      }
      active := active + [indent];
      PrintChildren(t.children, indent, bars);
    }

    method PrintChildren(cs: seq<Scope>, indent: nat, ghost bars: seq<bool>)
      requires cs != [] && indent == |bars| && ActiveFor(active, bars)
      modifies this
      ensures active == Levels(bars)
      ensures out == old(out) + Text(ChildLines(cs, |cs|, bars))
      decreases cs, 0
    {
      hide Levels, Cells, Lines, Text;
      NoText();
      var n := |cs|;
      var i := 0;
      while i < n
        invariant 0 <= i <= n
        invariant if i < n then ActiveFor(active, bars) else active == Levels(bars)
        invariant out == old(out) + Text(ChildLines(cs, i, bars))
      {
        ghost var below := bars + [i + 1 < n];
        assert below[..indent] == bars;
        PrintRecursively(cs[i], indent + 1, i == n - 1, below);
        TextConcat(ChildLines(cs, i, bars), Lines(cs[i], Cells(bars) + Connector(i + 1 == n), below));
        LevelsBelow(bars, i + 1 < n);
        i := i + 1;
      }
    }
  }

  lemma OwnLevelClosed(indent: nat, bars: seq<bool>)
    requires |bars| == indent
    ensures indent == 0 ==> Levels(bars) == []
    ensures indent > 0 ==> Levels(bars) == Levels(bars[..indent - 1]) + if bars[indent - 1] then [indent - 1] else []
  {}

  lemma NoText()
    ensures Text([]) == ""
  {}

  lemma NoChildLines(bars: seq<bool>)
    ensures Text(ChildLines([], 0, bars)) == ""
  {}

  lemma LevelsBelow(bars: seq<bool>, bar: bool)
    ensures Levels(bars + [bar]) == Levels(bars) + if bar then [|bars|] else []
  {
    assert (bars + [bar])[..|bars|] == bars;
  }

  lemma LineText(t: Scope, head: string, bars: seq<bool>)
    ensures Text(Lines(t, head, bars)) == head + t.data + "\n" + Text(ChildLines(t.children, |t.children|, bars))
  {
    TextConcat([head + t.data], ChildLines(t.children, |t.children|, bars));
    assert [head + t.data][..0] == [];
    assert Text([head + t.data]) == head + t.data + "\n";
  }
}
