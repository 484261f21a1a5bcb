/**
 * The tree edits of the first prototype (Code_Prototype_1.js), stated on
 * values.  The source pushes into, splices and swaps the nested arrays it
 * reaches through `findNode` / `findParent`; here each such change is a
 * rebuild of the tree along the path to the node it touches.
 */
module Edits {
  import opened Wrappers
  import opened Blocks

  // ---------------------------------------------------------------------
  // Changes to one node
  // ---------------------------------------------------------------------

  /** The text fields the on-screen editor assigns (`node[field] = value`). */
  datatype Field = NameField | ExprField | LhsField | OpField | RhsField
                 | VarField | StartField | EndField | StepField

  predicate HasField(n: Node, f: Field)
  {
    match f
    case NameField => n.Let?
    case ExprField => n.Let? || n.Print?
    case LhsField => n.If?
    case OpField => n.If?
    case RhsField => n.If?
    case VarField => n.For?
    case StartField => n.For?
    case EndField => n.For?
    case StepField => n.For?
  }

  function FieldOf(n: Node, f: Field): string
    requires HasField(n, f)
  {
    match f
    case NameField => n.name
    case ExprField => n.expr
    case LhsField => n.lhs
    case OpField => n.op
    case RhsField => n.rhs
    case VarField => n.v
    case StartField => n.start
    case EndField => n.end
    case StepField => n.step
  }

  /** `applyEditor` (lines 260-266): the field takes the typed text, nothing else moves. */
  function SetFieldOf(n: Node, f: Field, value: string): (r: Node)
    requires HasField(n, f)
    ensures HasField(r, f) && FieldOf(r, f) == value
    ensures r.id == n.id && KindOf(r) == KindOf(n) && NodeBag(r) == NodeBag(n)
    ensures forall g :: HasField(n, g) && g != f ==> HasField(r, g) && FieldOf(r, g) == FieldOf(n, g)
    ensures r.If? ==> r.thenBody == n.thenBody && r.elseBody == n.elseBody && r.elseDisabled == n.elseDisabled
    ensures r.For? ==> r.body == n.body
  {
    match f
    case NameField => n.(name := value)
    case ExprField => n.(expr := value)
    case LhsField => n.(lhs := value)
    case OpField => n.(op := value)
    case RhsField => n.(rhs := value)
    case VarField => n.(v := value)
    case StartField => n.(start := value)
    case EndField => n.(end := value)
    case StepField => n.(step := value)
  }

  /** What an operation does to the one node it resolved. */
  datatype Edit =
    | Append(slot: Slot, child: Node)
    | DisableElse
    | EnableElse
    | Assign(field: Field, value: string)

  /**
   * `slot.push(child)`, the two branches of the ELSE toggle (lines 357-362)
   * and `node[field] = value`.  An edit that does not fit the node's kind
   * leaves it alone.
   */
  function ApplyEdit(m: Node, e: Edit): (r: Node)
    ensures r.id == m.id && KindOf(r) == KindOf(m)
  {
    match e
    case Append(s, c) => if HasSlot(m, s) then WithSlot(m, s, SlotOf(m, s) + [c]) else m
    case DisableElse => if m.If? then m.(elseDisabled := true, elseBody := []) else m
    case EnableElse => if m.If? then m.(elseDisabled := false) else m
    case Assign(f, v) => if HasField(m, f) then SetFieldOf(m, f, v) else m
  }

  /** Appending a child adds exactly the child's ids to the node's. */
  lemma {:induction false} AppendBag(m: Node, s: Slot, c: Node)
    requires HasSlot(m, s)
    ensures NodeBag(ApplyEdit(m, Append(s, c))) == NodeBag(m) + NodeBag(c)
  {
    var o := SlotOf(m, s);
    WithSlotBag(m, s, o + [c]);
    OneMoreBag(o, c);
    Cancel(NodeBag(WithSlot(m, s, o + [c])), NodeBag(m) + NodeBag(c), IdBag(o));
  }

  lemma {:induction false} OneMoreBag(o: seq<Node>, c: Node)
    ensures IdBag(o + [c]) == IdBag(o) + NodeBag(c)
  {
    IdBagAppend(o, [c]);
    IdBagCons(c, []);
    assert [c] + [] == [c] && IdBag([]) == multiset{};
  }

  /** Every other edit can only drop ids. */
  lemma {:induction false} ShrinkBag(m: Node, e: Edit)
    requires !e.Append?
    ensures NodeBag(ApplyEdit(m, e)) <= NodeBag(m)
  {
    if e.DisableElse? && m.If? {
      assert IdBag([]) == multiset{};
    }
  }

  // ---------------------------------------------------------------------
  // Rebuilding the tree around the node `findNode` resolves
  // ---------------------------------------------------------------------

  /**
   * The tree after applying `e` to the node `Find(body, id)` returns, the
   * search order being that of `findNode`.
   */
  function UpdateFirst(body: seq<Node>, id: int, e: Edit): (r: seq<Node>)
    ensures |r| == |body|
    decreases body, 1
  {
    if body == [] then []
    else if FindIn(body[0], id).Some? then [UpdateIn(body[0], id, e)] + body[1..]
    else [body[0]] + UpdateFirst(body[1..], id, e)
  }

  /** The node `n` after applying `e` to the node `FindIn(n, id)` returns. */
  function UpdateIn(n: Node, id: int, e: Edit): (r: Node)
    ensures r.id == n.id && KindOf(r) == KindOf(n)
    decreases n, 0
  {
    if n.id == id then ApplyEdit(n, e)
    else if n.If? && Find(n.thenBody, id).Some? then n.(thenBody := UpdateFirst(n.thenBody, id, e))
    else if n.If? && Find(n.elseBody, id).Some? then n.(elseBody := UpdateFirst(n.elseBody, id, e))
    else if n.For? && Find(n.body, id).Some? then n.(body := UpdateFirst(n.body, id, e))
    else n
  }

  /** An id `findNode` does not resolve leaves the tree untouched. */
  lemma {:induction false} UpdateAbsent(body: seq<Node>, id: int, e: Edit)
    requires Find(body, id).None?
    ensures UpdateFirst(body, id, e) == body
  {
    if body != [] {
      UpdateAbsent(body[1..], id, e);
      assert body == [body[0]] + body[1..];
    }
  }

  /** After the rebuild, `findNode` resolves the id to the edited node. */
  lemma {:induction false} UpdateHits(body: seq<Node>, id: int, e: Edit)
    requires Find(body, id).Some?
    ensures Find(UpdateFirst(body, id, e), id) == Some(ApplyEdit(Find(body, id).value, e))
    decreases body, 1
  {
    var r := UpdateFirst(body, id, e);
    if FindIn(body[0], id).Some? {
      UpdateInHits(body[0], id, e);
      assert r[0] == UpdateIn(body[0], id, e);
    } else {
      UpdateHits(body[1..], id, e);
      assert r[0] == body[0] && r[1..] == UpdateFirst(body[1..], id, e);
    }
  }

  lemma {:induction false} UpdateInHits(n: Node, id: int, e: Edit)
    requires FindIn(n, id).Some?
    ensures FindIn(UpdateIn(n, id, e), id) == Some(ApplyEdit(FindIn(n, id).value, e))
    decreases n, 0
  {
    if n.id == id {
    } else if n.If? && Find(n.thenBody, id).Some? {
      UpdateHits(n.thenBody, id, e);
    } else if n.If? && Find(n.elseBody, id).Some? {
      UpdateHits(n.elseBody, id, e);
    } else {
      UpdateHits(n.body, id, e);
    }
  }

  /** The rebuild trades the resolved node's ids for the edited node's, and nothing else. */
  lemma {:induction false} UpdateBag(body: seq<Node>, id: int, e: Edit)
    requires Find(body, id).Some?
    ensures IdBag(UpdateFirst(body, id, e)) + NodeBag(Find(body, id).value)
         == IdBag(body) + NodeBag(ApplyEdit(Find(body, id).value, e))
    decreases body, 1
  {
    var n, rest := body[0], body[1..];
    var m := Find(body, id).value;
    assert body == [n] + rest;
    IdBagCons(n, rest);
    if FindIn(n, id).Some? {
      var n' := UpdateIn(n, id, e);
      UpdateInBag(n, id, e);
      assert UpdateFirst(body, id, e) == [n'] + rest;
      IdBagCons(n', rest);
      Rebase(NodeBag(n'), NodeBag(n), NodeBag(m), NodeBag(ApplyEdit(m, e)), IdBag(rest));
    } else {
      var u := UpdateFirst(rest, id, e);
      UpdateBag(rest, id, e);
      assert UpdateFirst(body, id, e) == [n] + u;
      IdBagCons(n, u);
      Rebase(IdBag(u), IdBag(rest), NodeBag(m), NodeBag(ApplyEdit(m, e)), NodeBag(n));
    }
  }

  /** A trade `x + a == y + b` survives adding the same `z` on both sides. */
  lemma Rebase(x: multiset<int>, y: multiset<int>, a: multiset<int>, b: multiset<int>, z: multiset<int>)
    requires x + a == y + b
    ensures (x + z) + a == (y + z) + b && (z + x) + a == (z + y) + b
  {
    forall v ensures ((x + z) + a)[v] == ((y + z) + b)[v] {
      assert (x + a)[v] == (y + b)[v];
    }
    forall v ensures ((z + x) + a)[v] == ((z + y) + b)[v] {
      assert (x + a)[v] == (y + b)[v];
    }
  }

  lemma {:induction false} UpdateInBag(n: Node, id: int, e: Edit)
    requires FindIn(n, id).Some?
    ensures NodeBag(UpdateIn(n, id, e)) + NodeBag(FindIn(n, id).value)
         == NodeBag(n) + NodeBag(ApplyEdit(FindIn(n, id).value, e))
    decreases n, 0
  {
    if n.id == id {
    } else {
      var s := if n.If? && Find(n.thenBody, id).Some? then ThenSlot
               else if n.If? && Find(n.elseBody, id).Some? then ElseSlot
               else BodySlot;
      var c := SlotOf(n, s);
      assert FindIn(n, id) == Find(c, id);
      assert UpdateIn(n, id, e) == WithSlot(n, s, UpdateFirst(c, id, e));
      UpdateBag(c, id, e);
      SlotTrade(n, s, UpdateFirst(c, id, e), NodeBag(Find(c, id).value),
                NodeBag(ApplyEdit(Find(c, id).value, e)));
    }
  }

  /** Swapping a slot's contents for one that trades `b` for `a` does the same to the node. */
  lemma SlotTrade(n: Node, s: Slot, c: seq<Node>, a: multiset<int>, b: multiset<int>)
    requires HasSlot(n, s) && IdBag(c) + a == IdBag(SlotOf(n, s)) + b
    ensures NodeBag(WithSlot(n, s, c)) + a == NodeBag(n) + b
  {
    WithSlotBag(n, s, c);
    var w, o := NodeBag(WithSlot(n, s, c)), IdBag(SlotOf(n, s));
    forall x ensures (w + a)[x] == (NodeBag(n) + b)[x] {
      assert (w + o)[x] == (NodeBag(n) + IdBag(c))[x];
      assert (IdBag(c) + a)[x] == (o + b)[x];
    }
  }

  // ---------------------------------------------------------------------
  // What the rebuild leaves alone
  // ---------------------------------------------------------------------

  /**
   * The rebuild touches only the first position whose subtree holds the id;
   * every other entry of the container is kept where it was.
   */
  lemma {:induction false} UpdateAt(body: seq<Node>, id: int, e: Edit, k: nat)
    requires k < |body| && id in NodeBag(body[k])
    requires forall j :: 0 <= j < k ==> id !in NodeBag(body[j])
    ensures UpdateFirst(body, id, e) == body[k := UpdateIn(body[k], id, e)]
    decreases k
  {
    var u := UpdateIn(body[k], id, e);
    FindInSomeIff(body[0], id);
    if k == 0 {
      UpdateHead(body, id, e);
    } else {
      var tail := body[1..];
      forall j | 0 <= j < k - 1 ensures id !in NodeBag(tail[j]) {
        assert tail[j] == body[j + 1];
      }
      assert tail[k - 1] == body[k];
      UpdateAt(tail, id, e, k - 1);
      UpdateStep(body, id, e, k, u);
    }
  }

  lemma UpdateHead(body: seq<Node>, id: int, e: Edit)
    requires body != [] && FindIn(body[0], id).Some?
    ensures UpdateFirst(body, id, e) == body[0 := UpdateIn(body[0], id, e)]
  {
    assert body[0 := UpdateIn(body[0], id, e)] == [UpdateIn(body[0], id, e)] + body[1..];
  }

  lemma UpdateStep(body: seq<Node>, id: int, e: Edit, k: nat, u: Node)
    requires 0 < k < |body| && FindIn(body[0], id).None?
    requires UpdateFirst(body[1..], id, e) == body[1..][k - 1 := u]
    ensures UpdateFirst(body, id, e) == body[k := u]
  {
    assert body[k := u] == [body[0]] + body[1..][k - 1 := u];
  }

  /** Depth 0: with unique ids, the edit replaces a root-level node and nothing else. */
  lemma {:induction false} UpdateSkip(body: seq<Node>, k: nat, e: Edit)
    requires UniqueIds(body) && k < |body|
    ensures UpdateFirst(body, body[k].id, e) == body[k := ApplyEdit(body[k], e)]
  {
    OnlyAt(body, k, body[k].id);
    UpdateAt(body, body[k].id, e, k);
  }

  /**
   * Depth 1: with unique ids, the edit replaces one entry of a top-level
   * slot; the owning node keeps its other fields and slots, and every other
   * top-level node is kept.
   */
  lemma {:induction false} UpdateInSlotEntry(body: seq<Node>, k: nat, s: Slot, i: nat, e: Edit)
    requires UniqueIds(body) && k < |body| && HasSlot(body[k], s) && i < |SlotOf(body[k], s)|
    ensures var c := SlotOf(body[k], s);
      UpdateFirst(body, c[i].id, e) == body[k := WithSlot(body[k], s, c[i := ApplyEdit(c[i], e)])]
  {
    var c := SlotOf(body[k], s);
    var id := c[i].id;
    IdBagAt(c, i);
    SlotOwner(body, k, s, id);
    OnlyAt(body, k, id);
    UpdateAt(body, id, e, k);
    FindSomeIff(c, id);
    UniqueInSlot(body, k, s);
    UpdateSkip(c, i, e);
  }

  /**
   * An edit that keeps a node's nested containers (a field assignment, or
   * re-enabling ELSE) leaves every id of the tree in its place, at any depth.
   */
  lemma {:induction false} UpdateKeepsOrder(body: seq<Node>, id: int, e: Edit)
    requires e.Assign? || e.EnableElse?
    ensures Ids(Flatten(UpdateFirst(body, id, e))) == Ids(Flatten(body))
    decreases body, 1
  {
    if body != [] {
      var r := UpdateFirst(body, id, e);
      if FindIn(body[0], id).Some? {
        UpdateInKeepsOrder(body[0], id, e);
        assert r[1..] == body[1..];
      } else {
        UpdateKeepsOrder(body[1..], id, e);
        assert r[0] == body[0] && r[1..] == UpdateFirst(body[1..], id, e);
      }
      IdsAppend(Preorder(r[0]), Flatten(r[1..]));
      IdsAppend(Preorder(body[0]), Flatten(body[1..]));
    }
  }

  lemma {:induction false} UpdateInKeepsOrder(n: Node, id: int, e: Edit)
    requires e.Assign? || e.EnableElse?
    ensures Ids(Preorder(UpdateIn(n, id, e))) == Ids(Preorder(n))
    decreases n, 0
  {
    var m := UpdateIn(n, id, e);
    if n.If? {
      if n.id != id && Find(n.thenBody, id).Some? {
        UpdateKeepsOrder(n.thenBody, id, e);
      } else if n.id != id && Find(n.elseBody, id).Some? {
        UpdateKeepsOrder(n.elseBody, id, e);
      }
      IdsAppend([m] + Flatten(m.thenBody), Flatten(m.elseBody));
      IdsAppend([m], Flatten(m.thenBody));
      IdsAppend([n] + Flatten(n.thenBody), Flatten(n.elseBody));
      IdsAppend([n], Flatten(n.thenBody));
    } else if n.For? {
      if n.id != id && Find(n.body, id).Some? {
        UpdateKeepsOrder(n.body, id, e);
      }
      IdsAppend([m], Flatten(m.body));
      IdsAppend([n], Flatten(n.body));
    }
  }

  // ---------------------------------------------------------------------
  // Splice and swap within one container
  // ---------------------------------------------------------------------

  /** `c.splice(i, 0, n)`: `n` lands at `i`, later entries shift up by one. */
  function InsertAt(c: seq<Node>, i: nat, n: Node): (r: seq<Node>)
    requires i <= |c|
    ensures |r| == |c| + 1 && r[i] == n
    ensures forall j :: 0 <= j < i ==> r[j] == c[j]
    ensures forall j :: i <= j < |c| ==> r[j + 1] == c[j]
  {
    c[..i] + [n] + c[i..]
  }

  /** `c.splice(i, 1)`: entry `i` goes, later entries shift down by one. */
  function RemoveAt(c: seq<Node>, i: nat): (r: seq<Node>)
    requires i < |c|
    ensures |r| == |c| - 1
    ensures forall j :: 0 <= j < i ==> r[j] == c[j]
    ensures forall j :: i <= j < |r| ==> r[j] == c[j + 1]
  {
    c[..i] + c[i + 1..]
  }

  /** `[c[i], c[j]] = [c[j], c[i]]`: the two entries trade places. */
  function Swap(c: seq<Node>, i: nat, j: nat): (r: seq<Node>)
    requires i < |c| && j < |c|
    ensures |r| == |c| && r[i] == c[j] && r[j] == c[i]
    ensures forall k :: 0 <= k < |c| && k != i && k != j ==> r[k] == c[k]
  {
    c[i := c[j]][j := c[i]]
  }

  /** Removing what was just inserted gives the container back. */
  lemma RemoveInserted(c: seq<Node>, i: nat, n: Node)
    requires i <= |c|
    ensures RemoveAt(InsertAt(c, i, n), i) == c
  {
  }

  /** A swap undoes itself. */
  lemma SwapBack(c: seq<Node>, i: nat, j: nat)
    requires i < |c| && j < |c|
    ensures Swap(Swap(c, i, j), j, i) == c
  {
  }

  lemma {:induction false} InsertBag(c: seq<Node>, i: nat, n: Node)
    requires i <= |c|
    ensures IdBag(InsertAt(c, i, n)) == IdBag(c) + NodeBag(n)
  {
    assert c == c[..i] + c[i..];
    IdBagAppend(c[..i], c[i..]);
    IdBagAppend(c[..i] + [n], c[i..]);
    IdBagAppend(c[..i], [n]);
    IdBagCons(n, []);
    assert [n] + [] == [n];
  }

  lemma {:induction false} RemoveBag(c: seq<Node>, i: nat)
    requires i < |c|
    ensures IdBag(RemoveAt(c, i)) + NodeBag(c[i]) == IdBag(c)
  {
    IdBagAt(c, i);
    IdBagAppend(c[..i], c[i + 1..]);
  }

  lemma {:induction false} SwapBag(c: seq<Node>, i: nat, j: nat)
    requires i < |c| && j < |c|
    ensures IdBag(Swap(c, i, j)) == IdBag(c)
  {
    if i == j {
      assert Swap(c, i, j) == c;
    } else if i < j {
      SwapBagOrdered(c, i, j);
    } else {
      assert Swap(c, i, j) == Swap(c, j, i);
      SwapBagOrdered(c, j, i);
    }
  }

  lemma {:induction false} SwapBagOrdered(c: seq<Node>, lo: nat, hi: nat)
    requires lo < hi < |c|
    ensures IdBag(Swap(c, lo, hi)) == IdBag(c)
  {
    var r := Swap(c, lo, hi);
    var mid, tail := c[lo + 1..hi], c[hi + 1..];
    assert c[lo + 1..] == mid + [c[hi]] + tail;
    assert r[..lo] == c[..lo] && r[lo] == c[hi];
    assert r[lo + 1..] == mid + [c[lo]] + tail;
    IdBagAt(c, lo);
    IdBagAt(r, lo);
    TradeMiddle(mid, c[hi], c[lo], tail);
    var pre, after, after' := IdBag(c[..lo]), IdBag(mid + [c[hi]] + tail), IdBag(mid + [c[lo]] + tail);
    assert IdBag(c) == pre + (after + NodeBag(c[lo]));
    assert IdBag(r) == pre + (after' + NodeBag(c[hi]));
  }

  lemma {:induction false} TradeMiddle(a: seq<Node>, x: Node, y: Node, b: seq<Node>)
    ensures IdBag(a + [x] + b) + NodeBag(y) == IdBag(a + [y] + b) + NodeBag(x)
  {
    IdBagAppend(a + [x], b);
    IdBagAppend(a + [y], b);
    IdBagAppend(a, [x]);
    IdBagAppend(a, [y]);
    IdBagCons(x, []);
    IdBagCons(y, []);
    assert [x] + [] == [x] && [y] + [] == [y];
  }

  // ---------------------------------------------------------------------
  // addToSelected (lines 61-72)
  // ---------------------------------------------------------------------

  /** LET and PRINT own no nested container. */
  predicate IsLeaf(n: Node)
  {
    n.Let? || n.Print?
  }

  /**
   * `addToSelected(node)`: no resolvable selection appends at the root; a
   * selected IF takes the node at the end of `then`, a selected FOR at the
   * end of its body; any other selection gets it inserted after itself in
   * the container `findParent` reports.
   */
  function AddToSelected(body: seq<Node>, sel: Option<int>, n: Node): seq<Node>
  {
    match FindNode(body, sel)
    case None => body + [n]
    case Some(f) =>
      if f.If? then UpdateFirst(body, f.id, Append(ThenSlot, n))
      else if f.For? then UpdateFirst(body, f.id, Append(BodySlot, n))
      else
        match FindParent(body, f.id)
        case None => body + [n]
        case Some(p) =>
          var c := ContainerOf(body, p);
          WithContainer(body, p, InsertAt(c, IndexOf(c, f.id) + 1, n))
  }

  lemma {:induction false} AppendOneBag(body: seq<Node>, n: Node)
    ensures IdBag(body + [n]) == IdBag(body) + NodeBag(n)
  {
    IdBagAppend(body, [n]);
    IdBagCons(n, []);
    assert [n] + [] == [n];
  }

  lemma Cancel(a: multiset<int>, b: multiset<int>, c: multiset<int>)
    requires a + c == b + c
    ensures a == b
  {
    forall x ensures a[x] == b[x] {
      assert (a + c)[x] == (b + c)[x];
    }
  }

  /** Appending into a slot of the resolved node adds exactly the new node's ids. */
  lemma {:induction false} UpdateAppendBag(body: seq<Node>, id: int, s: Slot, n: Node)
    requires Find(body, id).Some? && HasSlot(Find(body, id).value, s)
    ensures IdBag(UpdateFirst(body, id, Append(s, n))) == IdBag(body) + NodeBag(n)
  {
    var f := Find(body, id).value;
    var r := UpdateFirst(body, id, Append(s, n));
    UpdateBag(body, id, Append(s, n));
    AppendBag(f, s, n);
    assert IdBag(r) + NodeBag(f) == (IdBag(body) + NodeBag(n)) + NodeBag(f);
    Cancel(IdBag(r), IdBag(body) + NodeBag(n), NodeBag(f));
  }

  /** Splicing a node into the container `p` designates adds exactly its ids. */
  lemma {:induction false} SpliceInBag(body: seq<Node>, p: Parent, i: nat, n: Node)
    requires ValidParent(body, p) && i <= |ContainerOf(body, p)|
    ensures IdBag(WithContainer(body, p, InsertAt(ContainerOf(body, p), i, n))) == IdBag(body) + NodeBag(n)
  {
    var c := ContainerOf(body, p);
    var c' := InsertAt(c, i, n);
    InsertBag(c, i, n);
    WithContainerBag(body, p, c');
    assert IdBag(WithContainer(body, p, c')) + IdBag(c) == (IdBag(body) + NodeBag(n)) + IdBag(c);
    Cancel(IdBag(WithContainer(body, p, c')), IdBag(body) + NodeBag(n), IdBag(c));
  }

  /** Whatever the selection, the tree gains exactly the new node's ids. */
  lemma {:induction false} AddToSelectedBag(body: seq<Node>, sel: Option<int>, n: Node)
    ensures IdBag(AddToSelected(body, sel, n)) == IdBag(body) + NodeBag(n)
  {
    match FindNode(body, sel)
    case None =>
      AppendOneBag(body, n);
    case Some(f) =>
      assert Find(body, f.id) == Some(f);
      if f.If? {
        UpdateAppendBag(body, f.id, ThenSlot, n);
      } else if f.For? {
        UpdateAppendBag(body, f.id, BodySlot, n);
      } else {
        match FindParent(body, f.id)
        case None =>
          AppendOneBag(body, n);
        case Some(p) =>
          SpliceInBag(body, p, IndexOf(ContainerOf(body, p), f.id) + 1, n);
      }
  }

  /**
   * A selected IF gets the node at the end of `then`; its `else` is never
   * the target, whatever THEN/ELSE targeting says.
   */
  lemma {:induction false} AddToSelectedIf(body: seq<Node>, id: int, n: Node)
    requires id != 0 && Find(body, id).Some? && Find(body, id).value.If?
    ensures var f := Find(body, id).value;
      Find(AddToSelected(body, Some(id), n), id)
        == Some(f.(thenBody := f.thenBody + [n]))
  {
    UpdateHits(body, id, Append(ThenSlot, n));
  }

  /** A selected FOR gets the node at the end of its body. */
  lemma {:induction false} AddToSelectedFor(body: seq<Node>, id: int, n: Node)
    requires id != 0 && Find(body, id).Some? && Find(body, id).value.For?
    ensures var f := Find(body, id).value;
      Find(AddToSelected(body, Some(id), n), id) == Some(f.(body := f.body + [n]))
  {
    UpdateHits(body, id, Append(BodySlot, n));
  }

  /** Depth 0: a selected root-level LET or PRINT gets the node right after it. */
  lemma {:induction false} AddAfterTopLevel(body: seq<Node>, k: nat, n: Node)
    requires UniqueIds(body) && k < |body| && IsLeaf(body[k]) && body[k].id != 0
    ensures AddToSelected(body, Some(body[k].id), n) == InsertAt(body, k + 1, n)
  {
    FindTop(body, k);
    FindParentAtTop(body, body[k].id, k);
    IndexOfUnique(body, body[k].id, k);
  }

  /** Depth 1: a selected leaf in a top-level slot gets the node right after it there. */
  lemma {:induction false} AddAfterInSlot(body: seq<Node>, k: nat, s: Slot, i: nat, n: Node)
    requires UniqueIds(body) && k < |body| && HasSlot(body[k], s)
    requires i < |SlotOf(body[k], s)| && IsLeaf(SlotOf(body[k], s)[i]) && SlotOf(body[k], s)[i].id != 0
    ensures var c := SlotOf(body[k], s);
      AddToSelected(body, Some(c[i].id), n)
        == body[k := WithSlot(body[k], s, InsertAt(c, i + 1, n))]
  {
    var c := SlotOf(body[k], s);
    var id := c[i].id;
    FindInSlot(body, k, s, i);
    IdBagAt(c, i);
    FindParentInsideSlot(body, id, k, s);
    UniqueInSlot(body, k, s);
    IndexOfUnique(c, id, i);
  }

  /**
   * Depth 2 and below: `findParent` reports the top-level ancestor's slot,
   * which does not list the selected leaf, so `indexOf` is -1 and the node
   * lands at the FRONT of that ancestor slot.
   */
  lemma {:induction false} AddDeepGoesToFront(body: seq<Node>, k: nat, s: Slot, id: int, n: Node)
    requires UniqueIds(body) && k < |body| && HasSlot(body[k], s) && id != 0
    requires id in IdBag(SlotOf(body[k], s))
    requires forall i :: 0 <= i < |SlotOf(body[k], s)| ==> SlotOf(body[k], s)[i].id != id
    requires Find(body, id).Some? && IsLeaf(Find(body, id).value)
    ensures AddToSelected(body, Some(id), n)
         == body[k := WithSlot(body[k], s, [n] + SlotOf(body[k], s))]
  {
    var c := SlotOf(body[k], s);
    FindParentInsideSlot(body, id, k, s);
    assert IndexOf(c, id) == -1;
    assert InsertAt(c, 0, n) == [n] + c;
  }

  // ---------------------------------------------------------------------
  // deleteNode (lines 74-85)
  // ---------------------------------------------------------------------

  /**
   * `deleteNode(node)` keyed by id: remove the first entry with the id from
   * the container `findParent` reports (the root when it reports nothing),
   * if that container lists it at all.
   */
  function DeleteNode(body: seq<Node>, id: int): seq<Node>
  {
    match FindParent(body, id)
    case None =>
      var i := IndexOf(body, id);
      if i >= 0 then RemoveAt(body, i) else body
    case Some(p) =>
      var c := ContainerOf(body, p);
      var i := IndexOf(c, id);
      if i >= 0 then WithContainer(body, p, RemoveAt(c, i)) else body
  }

  lemma {:induction false} SpliceOutBag(body: seq<Node>, p: Parent, i: nat)
    requires ValidParent(body, p) && i < |ContainerOf(body, p)|
    ensures IdBag(WithContainer(body, p, RemoveAt(ContainerOf(body, p), i)))
          + NodeBag(ContainerOf(body, p)[i]) == IdBag(body)
  {
    var c := ContainerOf(body, p);
    var c' := RemoveAt(c, i);
    RemoveBag(c, i);
    WithContainerBag(body, p, c');
    assert IdBag(WithContainer(body, p, c')) + NodeBag(c[i]) + IdBag(c') == IdBag(body) + IdBag(c');
    Cancel(IdBag(WithContainer(body, p, c')) + NodeBag(c[i]), IdBag(body), IdBag(c'));
  }

  /** Deleting never adds an id: the tree's ids can only shrink. */
  lemma {:induction false} DeleteNodeBag(body: seq<Node>, id: int)
    ensures IdBag(DeleteNode(body, id)) <= IdBag(body)
  {
    match FindParent(body, id)
    case None =>
      var i := IndexOf(body, id);
      if i >= 0 {
        SpliceOutBag(body, Here, i);
      }
    case Some(p) =>
      var i := IndexOf(ContainerOf(body, p), id);
      if i >= 0 {
        SpliceOutBag(body, p, i);
      }
  }

  /** Depth 0: deleting a root-level node removes exactly that entry. */
  lemma {:induction false} DeleteTopLevel(body: seq<Node>, k: nat)
    requires UniqueIds(body) && k < |body|
    ensures DeleteNode(body, body[k].id) == RemoveAt(body, k)
  {
    FindParentAtTop(body, body[k].id, k);
    IndexOfUnique(body, body[k].id, k);
  }

  /** Depth 1: deleting a node of a top-level slot removes exactly that entry. */
  lemma {:induction false} DeleteInSlot(body: seq<Node>, k: nat, s: Slot, i: nat)
    requires UniqueIds(body) && k < |body| && HasSlot(body[k], s) && i < |SlotOf(body[k], s)|
    ensures var c := SlotOf(body[k], s);
      DeleteNode(body, c[i].id) == body[k := WithSlot(body[k], s, RemoveAt(c, i))]
  {
    var c := SlotOf(body[k], s);
    IdBagAt(c, i);
    FindParentInsideSlot(body, c[i].id, k, s);
    UniqueInSlot(body, k, s);
    IndexOfUnique(c, c[i].id, i);
  }

  /** Depth 2 and below: the reported slot does not list the node, so nothing is removed. */
  lemma {:induction false} DeleteDeepIsNoOp(body: seq<Node>, k: nat, s: Slot, id: int)
    requires UniqueIds(body) && k < |body| && HasSlot(body[k], s)
    requires id in IdBag(SlotOf(body[k], s))
    requires forall i :: 0 <= i < |SlotOf(body[k], s)| ==> SlotOf(body[k], s)[i].id != id
    ensures DeleteNode(body, id) == body
  {
    FindParentInsideSlot(body, id, k, s);
  }

  /** An id nowhere in the tree deletes nothing. */
  lemma {:induction false} DeleteAbsent(body: seq<Node>, id: int)
    requires id !in IdBag(body)
    ensures DeleteNode(body, id) == body
  {
    FindParentSomeIff(body, id);
    FindSomeIff(body, id);
    if IndexOf(body, id) >= 0 {
      IdBagAt(body, IndexOf(body, id));
    }
  }

  // ---------------------------------------------------------------------
  // moveNode (lines 86-94)
  // ---------------------------------------------------------------------

  /**
   * `moveNode(node, dir)` keyed by id: in the container `findParent` reports
   * (the root when it reports nothing), swap the entry with its neighbour
   * `dir` steps away; `None` is the early return that leaves everything,
   * history included, untouched.
   */
  function MoveNode(body: seq<Node>, id: int, dir: int): Option<seq<Node>>
  {
    var p := match FindParent(body, id) case Some(q) => q case None => Here;
    var c := ContainerOf(body, p);
    var i := IndexOf(c, id);
    if i < 0 || i + dir < 0 || i + dir >= |c| then None
    else Some(WithContainer(body, p, Swap(c, i, i + dir)))
  }

  /** A move only reorders: the tree keeps exactly its ids. */
  lemma {:induction false} MoveNodeBag(body: seq<Node>, id: int, dir: int)
    requires MoveNode(body, id, dir).Some?
    ensures IdBag(MoveNode(body, id, dir).value) == IdBag(body)
  {
    var p := match FindParent(body, id) case Some(q) => q case None => Here;
    var c := ContainerOf(body, p);
    var i := IndexOf(c, id);
    SwapBag(c, i, i + dir);
    WithContainerBag(body, p, Swap(c, i, i + dir));
    Cancel(IdBag(WithContainer(body, p, Swap(c, i, i + dir))), IdBag(body), IdBag(c));
  }

  /** Depth 0: a root-level node trades places with its neighbour, or nothing happens at the edges. */
  lemma {:induction false} MoveTopLevel(body: seq<Node>, k: nat, dir: int)
    requires UniqueIds(body) && k < |body|
    ensures MoveNode(body, body[k].id, dir)
         == if 0 <= k + dir < |body| then Some(Swap(body, k, k + dir)) else None
  {
    FindParentAtTop(body, body[k].id, k);
    IndexOfUnique(body, body[k].id, k);
  }

  /** Depth 1: the same inside the top-level slot that lists the node. */
  lemma {:induction false} MoveInSlot(body: seq<Node>, k: nat, s: Slot, i: nat, dir: int)
    requires UniqueIds(body) && k < |body| && HasSlot(body[k], s) && i < |SlotOf(body[k], s)|
    ensures var c := SlotOf(body[k], s);
      MoveNode(body, c[i].id, dir)
        == if 0 <= i + dir < |c| then Some(body[k := WithSlot(body[k], s, Swap(c, i, i + dir))]) else None
  {
    var c := SlotOf(body[k], s);
    IdBagAt(c, i);
    FindParentInsideSlot(body, c[i].id, k, s);
    UniqueInSlot(body, k, s);
    IndexOfUnique(c, c[i].id, i);
  }

  /** Depth 2 and below: the node is not found in the reported slot, so the move returns early. */
  lemma {:induction false} MoveDeepIsNoOp(body: seq<Node>, k: nat, s: Slot, id: int, dir: int)
    requires UniqueIds(body) && k < |body| && HasSlot(body[k], s)
    requires id in IdBag(SlotOf(body[k], s))
    requires forall i :: 0 <= i < |SlotOf(body[k], s)| ==> SlotOf(body[k], s)[i].id != id
    ensures MoveNode(body, id, dir).None?
  {
    FindParentInsideSlot(body, id, k, s);
  }

  /** Moving a root-level node one way and then back restores the program. */
  lemma {:induction false} MoveThereAndBack(body: seq<Node>, k: nat, dir: int)
    requires UniqueIds(body) && k < |body| && 0 <= k + dir < |body|
    ensures MoveNode(Swap(body, k, k + dir), body[k].id, -dir) == Some(body)
  {
    var j := k + dir;
    var r := Swap(body, k, j);
    SwapBag(body, k, j);
    MoveTopLevel(r, j, -dir);
    SwapBack(body, k, j);
  }

  /** The same one level down: moving an entry of a top-level slot and back restores the program. */
  lemma {:induction false} MoveThereAndBackInSlot(body: seq<Node>, k: nat, s: Slot, i: nat, dir: int)
    requires UniqueIds(body) && k < |body| && HasSlot(body[k], s)
    requires i < |SlotOf(body[k], s)| && 0 <= i + dir < |SlotOf(body[k], s)|
    ensures var c := SlotOf(body[k], s);
      MoveNode(body[k := WithSlot(body[k], s, Swap(c, i, i + dir))], c[i].id, -dir) == Some(body)
  {
    var c := SlotOf(body[k], s);
    var j := i + dir;
    var sw := Swap(c, i, j);
    var r := body[k := WithSlot(body[k], s, sw)];
    SwapInSlotUnique(body, k, s, i, dir);
    assert r[k] == WithSlot(body[k], s, sw) && SlotOf(r[k], s) == sw;
    MoveInSlot(r, k, s, j, -dir);
    assert j + -dir == i && sw[j] == c[i];
    SwapBack(c, i, j);
    assert Swap(sw, j, i) == c;
    SlotBack(body, k, s, sw);
    assert MoveNode(r, c[i].id, -dir) == Some(r[k := WithSlot(r[k], s, c)]);
  }

  /** A swap inside a top-level slot keeps the ids distinct. */
  lemma {:induction false} SwapInSlotUnique(body: seq<Node>, k: nat, s: Slot, i: nat, dir: int)
    requires UniqueIds(body) && k < |body| && HasSlot(body[k], s)
    requires i < |SlotOf(body[k], s)| && 0 <= i + dir < |SlotOf(body[k], s)|
    ensures UniqueIds(body[k := WithSlot(body[k], s, Swap(SlotOf(body[k], s), i, i + dir))])
  {
    MoveInSlot(body, k, s, i, dir);
    MoveNodeBag(body, SlotOf(body[k], s)[i].id, dir);
  }

  /** Putting a top-level node's old slot contents back restores the program. */
  lemma SlotBack(body: seq<Node>, k: nat, s: Slot, x: seq<Node>)
    requires k < |body| && HasSlot(body[k], s)
    ensures var r := body[k := WithSlot(body[k], s, x)];
      r[k := WithSlot(r[k], s, SlotOf(body[k], s))] == body
  {
  }

  // ---------------------------------------------------------------------
  // The ELSE toggle (lines 352-365)
  // ---------------------------------------------------------------------

  /**
   * The ELSE toggle on the selection: nothing unless it resolves to an IF;
   * a disabled ELSE is re-enabled with its branch as it is, an enabled one
   * is disabled and its branch emptied.
   */
  function ToggleElse(body: seq<Node>, sel: Option<int>): seq<Node>
  {
    match FindNode(body, sel)
    case None => body
    case Some(f) =>
      if !f.If? then body
      else UpdateFirst(body, f.id, if f.elseDisabled then EnableElse else DisableElse)
  }

  /** Without a selected IF the toggle changes nothing. */
  lemma {:induction false} ToggleNeedsIf(body: seq<Node>, sel: Option<int>)
    requires FindNode(body, sel).None? || !FindNode(body, sel).value.If?
    ensures ToggleElse(body, sel) == body
  {
  }

  /** Disabling sets the flag and empties the branch. */
  lemma {:induction false} ToggleDisables(body: seq<Node>, id: int)
    requires id != 0 && Find(body, id).Some? && Find(body, id).value.If?
    requires !Find(body, id).value.elseDisabled
    ensures Find(ToggleElse(body, Some(id)), id)
         == Some(Find(body, id).value.(elseDisabled := true, elseBody := []))
  {
    UpdateHits(body, id, DisableElse);
  }

  /** Re-enabling only clears the flag: the emptied branch is not brought back. */
  lemma {:induction false} ToggleEnables(body: seq<Node>, id: int)
    requires id != 0 && Find(body, id).Some? && Find(body, id).value.If?
    requires Find(body, id).value.elseDisabled
    ensures Find(ToggleElse(body, Some(id)), id)
         == Some(Find(body, id).value.(elseDisabled := false))
  {
    UpdateHits(body, id, EnableElse);
  }

  /** Toggling an enabled ELSE twice leaves it enabled but empty. */
  lemma {:induction false} ToggleTwice(body: seq<Node>, id: int)
    requires id != 0 && Find(body, id).Some? && Find(body, id).value.If?
    requires !Find(body, id).value.elseDisabled
    ensures Find(ToggleElse(ToggleElse(body, Some(id)), Some(id)), id)
         == Some(Find(body, id).value.(elseBody := []))
  {
    ToggleDisables(body, id);
    ToggleEnables(ToggleElse(body, Some(id)), id);
  }

  /** The toggle never adds an id. */
  lemma {:induction false} ToggleElseBag(body: seq<Node>, sel: Option<int>)
    ensures IdBag(ToggleElse(body, sel)) <= IdBag(body)
  {
    match FindNode(body, sel)
    case None =>
    case Some(f) =>
      if f.If? {
        var e := if f.elseDisabled then EnableElse else DisableElse;
        assert Find(body, f.id) == Some(f);
        UpdateBag(body, f.id, e);
        ShrinkBag(f, e);
        Shrink(IdBag(UpdateFirst(body, f.id, e)), IdBag(body), NodeBag(f), NodeBag(ApplyEdit(f, e)));
      }
  }

  lemma Shrink(a: multiset<int>, b: multiset<int>, c: multiset<int>, d: multiset<int>)
    requires a + c == b + d && d <= c
    ensures a <= b
  {
    forall x ensures a[x] <= b[x] {
      assert (a + c)[x] == (b + d)[x];
    }
  }

  // ---------------------------------------------------------------------
  // The add-inside handler (lines 463-474)
  // ---------------------------------------------------------------------

  /** THEN/ELSE targeting (`targetInside`, lines 435-436). */
  datatype Target = InThen | InElse

  /**
   * Add-inside on the selection: a selected IF takes the node at the end of
   * the targeted branch, a selected FOR at the end of its body; `None` is a
   * refusal (no resolvable selection, or a LET/PRINT selected).
   */
  function AddInside(body: seq<Node>, sel: Option<int>, target: Target, n: Node): Option<seq<Node>>
  {
    match FindNode(body, sel)
    case None => None
    case Some(f) =>
      if f.If? then Some(UpdateFirst(body, f.id, Append(if target == InElse then ElseSlot else ThenSlot, n)))
      else if f.For? then Some(UpdateFirst(body, f.id, Append(BodySlot, n)))
      else None
  }

  /** Add-inside goes ahead exactly when the selection resolves to an IF or a FOR. */
  lemma {:induction false} AddInsideSomeIff(body: seq<Node>, sel: Option<int>, target: Target, n: Node)
    ensures AddInside(body, sel, target, n).Some?
        <==> FindNode(body, sel).Some? && !IsLeaf(FindNode(body, sel).value)
  {
  }

  /** Add-inside honours the target: the node ends the targeted branch of the IF. */
  lemma {:induction false} AddInsideIf(body: seq<Node>, id: int, target: Target, n: Node)
    requires id != 0 && Find(body, id).Some? && Find(body, id).value.If?
    ensures var f := Find(body, id).value;
      Find(AddInside(body, Some(id), target, n).value, id)
        == Some(if target == InElse then f.(elseBody := f.elseBody + [n])
                else f.(thenBody := f.thenBody + [n]))
  {
    UpdateHits(body, id, Append(if target == InElse then ElseSlot else ThenSlot, n));
  }

  /** When add-inside goes ahead, the tree gains exactly the new node's ids. */
  lemma {:induction false} AddInsideBag(body: seq<Node>, sel: Option<int>, target: Target, n: Node)
    requires AddInside(body, sel, target, n).Some?
    ensures IdBag(AddInside(body, sel, target, n).value) == IdBag(body) + NodeBag(n)
  {
    var f := FindNode(body, sel).value;
    assert Find(body, f.id) == Some(f);
    if f.If? {
      UpdateAppendBag(body, f.id, if target == InElse then ElseSlot else ThenSlot, n);
    } else {
      UpdateAppendBag(body, f.id, BodySlot, n);
    }
  }

  // ---------------------------------------------------------------------
  // applyEditor (lines 260-266)
  // ---------------------------------------------------------------------

  /** A field edit reaches the node `findNode` resolves and changes only that field. */
  lemma {:induction false} AssignHits(body: seq<Node>, id: int, f: Field, value: string)
    requires Find(body, id).Some? && HasField(Find(body, id).value, f)
    ensures Find(UpdateFirst(body, id, Assign(f, value)), id)
         == Some(SetFieldOf(Find(body, id).value, f, value))
    ensures IdBag(UpdateFirst(body, id, Assign(f, value))) == IdBag(body)
    ensures Ids(Flatten(UpdateFirst(body, id, Assign(f, value)))) == Ids(Flatten(body))
  {
    UpdateKeepsOrder(body, id, Assign(f, value));
    var m := Find(body, id).value;
    UpdateHits(body, id, Assign(f, value));
    UpdateBag(body, id, Assign(f, value));
    Cancel(IdBag(UpdateFirst(body, id, Assign(f, value))), IdBag(body), NodeBag(m));
  }
}
