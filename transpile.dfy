/**
 * `transpile` of the first prototype (Code_Prototype_1.js, lines 273-293):
 * the block program becomes JavaScript text, one entry per line, nested
 * bodies one level deeper.  The entries are joined with the two-character
 * text backslash-`n` as the source writes it, not with a line break.
 */
module Transpile {
  import opened Strings
  import opened Blocks
  import opened Edits

  /** The join separator of line 292: a backslash followed by `n`. */
  const Sep: string := "\\n"

  /** `'  '.repeat(depth)`. */
  function Indent(depth: nat): (r: string)
    ensures |r| == 2 * depth
    ensures forall i :: 0 <= i < |r| ==> r[i] == ' '
  {
    if depth == 0 then "" else "  " + Indent(depth - 1)
  }

  // The text of each emitted line, after its indentation.

  function LetLine(name: string, expr: string): string
  {
    "let " + name + " = (" + expr + ");"
  }

  function PrintLine(expr: string): string
  {
    "console.log(" + expr + ");"
  }

  function IfHeader(lhs: string, op: string, rhs: string): string
  {
    "if ((" + lhs + ") " + op + " (" + rhs + ")) {"
  }

  function ForHeader(v: string, start: string, end: string, step: string): string
  {
    "for (let " + v + " = (" + start + "); " + v + " < (" + end + "); " + v + " += (" + step + ")) {"
  }

  const ElseLine: string := "} else {"
  const CloseLine: string := "}"

  /** `transpile(body, depth)`: the entries of the body's nodes, joined. */
  function Transpile(body: seq<Node>, depth: nat): string
    decreases body, 2
  {
    Join(Entries(body, depth), Sep)
  }

  /** The `out` array the loop builds; a nested body is ONE entry, its own transpile. */
  function Entries(body: seq<Node>, depth: nat): seq<string>
    decreases body, 1
  {
    if body == [] then [] else NodeEntries(body[0], depth) + Entries(body[1..], depth)
  }

  /** What one node pushes: the IF emits its ELSE part whatever `_elseDisabled` says. */
  function NodeEntries(n: Node, depth: nat): seq<string>
    decreases n, 0
  {
    var ind := Indent(depth);
    match n
    case Let(_, name, expr) => [ind + LetLine(name, expr)]
    case Print(_, expr) => [ind + PrintLine(expr)]
    case If(_, lhs, op, rhs, t, e, _) =>
      [ind + IfHeader(lhs, op, rhs), Transpile(t, depth + 1), ind + ElseLine,
       Transpile(e, depth + 1), ind + CloseLine]
    case For(_, v, start, end, step, b) =>
      [ind + ForHeader(v, start, end, step), Transpile(b, depth + 1), ind + CloseLine]
  }

  // ---------------------------------------------------------------------
  // The flat view: one line per emitted statement, tagged with its depth
  // ---------------------------------------------------------------------

  /** An output line: the empty entry an empty nested body leaves, or code at a depth. */
  datatype Line = Blank | Code(depth: nat, text: string)

  function Render(l: Line): string
  {
    match l
    case Blank => ""
    case Code(d, t) => Indent(d) + t
  }

  function RenderAll(ls: seq<Line>): (r: seq<string>)
    ensures |r| == |ls|
  {
    if ls == [] then [] else [Render(ls[0])] + RenderAll(ls[1..])
  }

  /** Every line of the body's output, nested bodies inlined. */
  function Lines(body: seq<Node>, depth: nat): seq<Line>
    decreases body, 1
  {
    if body == [] then [] else NodeLines(body[0], depth) + Lines(body[1..], depth)
  }

  /** A nested body's lines; an empty one still leaves its one empty entry. */
  function Block(body: seq<Node>, depth: nat): (r: seq<Line>)
    ensures |r| > 0
    decreases body, 2
  {
    if body == [] then [Blank] else Lines(body, depth)
  }

  function NodeLines(n: Node, depth: nat): (r: seq<Line>)
    ensures |r| > 0
    decreases n, 0
  {
    match n
    case Let(_, name, expr) => [Code(depth, LetLine(name, expr))]
    case Print(_, expr) => [Code(depth, PrintLine(expr))]
    case If(_, lhs, op, rhs, t, e, _) =>
      [Code(depth, IfHeader(lhs, op, rhs))] + Block(t, depth + 1) + [Code(depth, ElseLine)]
        + Block(e, depth + 1) + [Code(depth, CloseLine)]
    case For(_, v, start, end, step, b) =>
      [Code(depth, ForHeader(v, start, end, step))] + Block(b, depth + 1) + [Code(depth, CloseLine)]
  }

  lemma {:induction false} RenderAllAppend(a: seq<Line>, b: seq<Line>)
    ensures RenderAll(a + b) == RenderAll(a) + RenderAll(b)
  {
    if a == [] {
      assert a + b == b;
    } else {
      assert (a + b)[0] == a[0] && (a + b)[1..] == a[1..] + b;
      RenderAllAppend(a[1..], b);
    }
  }

  /**
   * `transpile`'s output is the flat list of lines, each `Indent(depth)`
   * followed by its code, or empty where a nested body is empty, joined by
   * the separator.
   */
  lemma {:induction false} TranspileIsFlat(body: seq<Node>, depth: nat)
    ensures Transpile(body, depth) == Join(RenderAll(Lines(body, depth)), Sep)
    decreases body, 1
  {
    if body != [] {
      var n, rest := body[0], body[1..];
      var es, ls := NodeEntries(n, depth), NodeLines(n, depth);
      assert Entries(body, depth) == es + Entries(rest, depth);
      assert Lines(body, depth) == ls + Lines(rest, depth);
      NodeIsFlat(n, depth);
      RenderAllAppend(ls, Lines(rest, depth));
      if rest == [] {
        assert es + Entries(rest, depth) == es;
        assert RenderAll(ls) + RenderAll(Lines(rest, depth)) == RenderAll(ls);
      } else {
        TranspileIsFlat(rest, depth);
        JoinAppend(es, Entries(rest, depth), Sep);
        JoinAppend(RenderAll(ls), RenderAll(Lines(rest, depth)), Sep);
      }
    }
  }

  lemma {:induction false} BlockIsFlat(body: seq<Node>, depth: nat)
    ensures Transpile(body, depth) == Join(RenderAll(Block(body, depth)), Sep)
    decreases body, 2
  {
    if body == [] {
      assert RenderAll([Blank]) == [""];
    } else {
      TranspileIsFlat(body, depth);
    }
  }

  lemma {:induction false} NodeIsFlat(n: Node, depth: nat)
    ensures Join(NodeEntries(n, depth), Sep) == Join(RenderAll(NodeLines(n, depth)), Sep)
    decreases n, 0
  {
    var ind := Indent(depth);
    match n
    case Let(_, _, _) =>
    case Print(_, _) =>
    case If(_, lhs, op, rhs, t, e, _) =>
      var h, m, z := Code(depth, IfHeader(lhs, op, rhs)), Code(depth, ElseLine), Code(depth, CloseLine);
      var bt, be := Block(t, depth + 1), Block(e, depth + 1);
      BlockIsFlat(t, depth + 1);
      BlockIsFlat(e, depth + 1);
      // the entries side
      var tt, te := Transpile(t, depth + 1), Transpile(e, depth + 1);
      assert NodeEntries(n, depth) == [Render(h)] + ([tt] + [Render(m)] + [te]) + [Render(z)];
      JoinAround(Render(h), [tt] + [Render(m)] + [te], Render(z), Sep);
      JoinMiddle([tt], Render(m), [te], Sep);
      // the lines side
      assert NodeLines(n, depth) == [h] + (bt + [m] + be) + [z];
      Framed(h, bt + [m] + be, z);
      Framed2(bt, m, be);
      JoinAround(Render(h), RenderAll(bt + [m] + be), Render(z), Sep);
      JoinMiddle(RenderAll(bt), Render(m), RenderAll(be), Sep);
    case For(_, v, start, end, step, b) =>
      var h, z := Code(depth, ForHeader(v, start, end, step)), Code(depth, CloseLine);
      var bb := Block(b, depth + 1);
      BlockIsFlat(b, depth + 1);
      var tb := Transpile(b, depth + 1);
      assert NodeEntries(n, depth) == [Render(h)] + [tb] + [Render(z)];
      JoinAround(Render(h), [tb], Render(z), Sep);
      assert NodeLines(n, depth) == [h] + bb + [z];
      Framed(h, bb, z);
      JoinAround(Render(h), RenderAll(bb), Render(z), Sep);
  }

  lemma {:induction false} Framed(h: Line, mid: seq<Line>, z: Line)
    ensures RenderAll([h] + mid + [z]) == [Render(h)] + RenderAll(mid) + [Render(z)]
  {
    RenderAllAppend([h] + mid, [z]);
    RenderAllAppend([h], mid);
    assert RenderAll([z]) == [Render(z)] + RenderAll([]);
    assert RenderAll([h]) == [Render(h)] + RenderAll([]);
  }

  lemma {:induction false} Framed2(x: seq<Line>, m: Line, y: seq<Line>)
    ensures RenderAll(x + [m] + y) == RenderAll(x) + [Render(m)] + RenderAll(y)
  {
    RenderAllAppend(x + [m], y);
    RenderAllAppend(x, [m]);
    assert RenderAll([m]) == [Render(m)] + RenderAll([]);
  }

  // ---------------------------------------------------------------------
  // Properties of the output
  // ---------------------------------------------------------------------

  /** No code line sits shallower than the depth its body was transpiled at. */
  ghost predicate AtLeast(ls: seq<Line>, depth: nat)
  {
    forall i :: 0 <= i < |ls| && ls[i].Code? ==> ls[i].depth >= depth
  }

  /**
   * Indentation grows with nesting: the lines of a body transpiled at
   * `depth` are indented by at least `2 * depth` spaces, the lines of
   * nested bodies by at least one level more than their owner's.
   */
  lemma {:induction false} LinesAtLeast(body: seq<Node>, depth: nat)
    ensures AtLeast(Lines(body, depth), depth)
    decreases body, 1
  {
    if body != [] {
      NodeLinesAtLeast(body[0], depth);
      LinesAtLeast(body[1..], depth);
    }
  }

  lemma {:induction false} NodeLinesAtLeast(n: Node, depth: nat)
    ensures AtLeast(NodeLines(n, depth), depth)
    ensures NodeLines(n, depth)[0].Code? && NodeLines(n, depth)[0].depth == depth
    decreases n, 0
  {
    match n
    case Let(_, _, _) =>
    case Print(_, _) =>
    case If(_, _, _, _, t, e, _) =>
      if t != [] { LinesAtLeast(t, depth + 1); }
      if e != [] { LinesAtLeast(e, depth + 1); }
    case For(_, _, _, _, _, b) =>
      if b != [] { LinesAtLeast(b, depth + 1); }
  }

  lemma {:induction false} EntriesAppend(a: seq<Node>, b: seq<Node>, depth: nat)
    ensures Entries(a + b, depth) == Entries(a, depth) + Entries(b, depth)
    ensures a != [] ==> |Entries(a, depth)| > 0
  {
    if a == [] {
      assert a + b == b;
    } else {
      assert (a + b)[0] == a[0] && (a + b)[1..] == a[1..] + b;
      EntriesAppend(a[1..], b, depth);
    }
  }

  /** Transpiling two programs one after the other joins their outputs with one separator. */
  lemma {:induction false} TranspileAppend(a: seq<Node>, b: seq<Node>, depth: nat)
    requires a != [] && b != []
    ensures Transpile(a + b, depth) == Transpile(a, depth) + Sep + Transpile(b, depth)
  {
    EntriesAppend(a, b, depth);
    EntriesAppend(b, [], depth);
    JoinAppend(Entries(a, depth), Entries(b, depth), Sep);
  }

  /**
   * `_elseDisabled` never reaches the output: re-enabling an ELSE (clearing
   * the flag alone) leaves the transpiled text as it was.
   */
  lemma {:induction false} EnableElseKeepsOutput(body: seq<Node>, id: int, depth: nat)
    ensures Transpile(UpdateFirst(body, id, EnableElse), depth) == Transpile(body, depth)
    decreases body, 2
  {
    EnableElseKeepsEntries(body, id, depth);
  }

  lemma {:induction false} EnableElseKeepsEntries(body: seq<Node>, id: int, depth: nat)
    ensures Entries(UpdateFirst(body, id, EnableElse), depth) == Entries(body, depth)
    decreases body, 1
  {
    if body != [] {
      var n, rest := body[0], body[1..];
      var r := UpdateFirst(body, id, EnableElse);
      if FindIn(n, id).Some? {
        EnableElseKeepsNode(n, id, depth);
        assert r == [UpdateIn(n, id, EnableElse)] + rest;
        assert r[0] == UpdateIn(n, id, EnableElse) && r[1..] == rest;
      } else {
        EnableElseKeepsEntries(rest, id, depth);
        assert r[0] == n && r[1..] == UpdateFirst(rest, id, EnableElse);
      }
    }
  }

  lemma {:induction false} EnableElseKeepsNode(n: Node, id: int, depth: nat)
    ensures NodeEntries(UpdateIn(n, id, EnableElse), depth) == NodeEntries(n, depth)
    decreases n, 0
  {
    if n.id == id {
    } else if n.If? && Find(n.thenBody, id).Some? {
      EnableElseKeepsOutput(n.thenBody, id, depth + 1);
    } else if n.If? && Find(n.elseBody, id).Some? {
      EnableElseKeepsOutput(n.elseBody, id, depth + 1);
    } else if n.For? && Find(n.body, id).Some? {
      EnableElseKeepsOutput(n.body, id, depth + 1);
    }
  }

  /** The boot sample transpiles to its four lines (lines 485-494). */
  lemma BootSampleOutput(k: int)
    ensures Transpile(BootSample(k), 0)
         == "let x = (1);" + Sep + "for (let i = (1); i < (6); i += (1)) {" + Sep
            + "  console.log(i);" + Sep + "}"
  {
    var l1, l2, l3, l4 := "let x = (1);", "for (let i = (1); i < (6); i += (1)) {", "  console.log(i);", "}";
    BootSampleEntries(k);
    assert Join([l3, l4], Sep) == l3 + Sep + l4;
    assert Join([l2, l3, l4], Sep) == l2 + Sep + Join([l3, l4], Sep);
    assert Join([l1, l2, l3, l4], Sep) == l1 + Sep + Join([l2, l3, l4], Sep);
  }

  lemma BootSampleEntries(k: int)
    ensures Entries(BootSample(k), 0)
         == ["let x = (1);", "for (let i = (1); i < (6); i += (1)) {", "  console.log(i);", "}"]
  {
    var f := For(k + 1, "i", "1", "6", "1", [Print(k + 2, "i")]);
    var b := [Let(k, "x", "1"), f];
    assert BootSample(k) == b;
    BootLoopEntries(k);
    assert Indent(0) + LetLine("x", "1") == "let x = (1);" by { assert Indent(0) == ""; }
    assert Entries([f], 0) == NodeEntries(f, 0) + Entries([], 0);
    assert Entries(b, 0) == NodeEntries(b[0], 0) + Entries([f], 0);
  }

  lemma BootLoopEntries(k: int)
    ensures NodeEntries(For(k + 1, "i", "1", "6", "1", [Print(k + 2, "i")]), 0)
         == ["for (let i = (1); i < (6); i += (1)) {", "  console.log(i);", "}"]
  {
    BootPrintOutput(k);
    assert Indent(0) == "";
    assert Indent(0) + ForHeader("i", "1", "6", "1") == "for (let i = (1); i < (6); i += (1)) {";
    assert Indent(0) + CloseLine == "}";
  }

  lemma BootPrintOutput(k: int)
    ensures Transpile([Print(k + 2, "i")], 1) == "  console.log(i);"
  {
    var p := Print(k + 2, "i");
    assert Indent(1) + PrintLine("i") == "  console.log(i);" by { assert Indent(1) == "  "; }
    assert Entries([p], 1) == NodeEntries(p, 1) + Entries([], 1);
  }
}
