/**
 * The structural block program of the first prototype
 * (Code_Prototype_1.js): the four node kinds, their default fields, and the
 * two depth-first searches `findNode` and `findParent`.
 *
 * A program is the root's `body`, an ordered sequence of nodes; IF and FOR
 * nodes own nested sequences of their own.  Ids are the integers minted by
 * the session counter; the root itself holds `RootId`.
 */
module Blocks {
  import opened Wrappers

  /** The `type` argument of `makeNode`. */
  datatype Kind = LetKind | PrintKind | IfKind | ForKind

  /** One block; expression fields are opaque text. */
  datatype Node =
    | Let(id: int, name: string, expr: string)
    | Print(id: int, expr: string)
    | If(id: int, lhs: string, op: string, rhs: string,
         thenBody: seq<Node>, elseBody: seq<Node>, elseDisabled: bool)
    | For(id: int, v: string, start: string, end: string, step: string, body: seq<Node>)

  function KindOf(n: Node): Kind
  {
    match n
    case Let(_, _, _) => LetKind
    case Print(_, _) => PrintKind
    case If(_, _, _, _, _, _, _) => IfKind
    case For(_, _, _, _, _, _) => ForKind
  }

  /** The root object takes the first id the counter hands out. */
  const RootId: int := 1

  /**
   * The node `makeNode(kind)` builds around the id it draws: fixed default
   * fields, empty nested containers, ELSE enabled.
   */
  function DefaultNode(kind: Kind, id: int): (n: Node)
    ensures n.id == id && KindOf(n) == kind
    ensures NodeBag(n) == multiset{id}
    ensures n.If? ==> n.thenBody == [] && n.elseBody == [] && !n.elseDisabled
    ensures n.For? ==> n.body == []
    ensures n.Let? ==> n.name == "x" && n.expr == "0"
    ensures n.Print? ==> n.expr == "\"hello\""
    ensures n.If? ==> n.lhs == "x" && n.op == "<" && n.rhs == "10"
    ensures n.For? ==> n.v == "i" && n.start == "0" && n.end == "5" && n.step == "1"
  {
    var n := match kind
      case LetKind => Let(id, "x", "0")
      case PrintKind => Print(id, "\"hello\"")
      case IfKind => If(id, "x", "<", "10", [], [], false)
      case ForKind => For(id, "i", "0", "5", "1", []);
    assert IdBag([]) == multiset{};
    n
  }

  /**
   * The program the editor boots with when the body is empty (lines
   * 485-496): a LET, then a FOR whose body holds a PRINT, the three ids
   * drawn in that order from `k`, the fields set to the sample's values.
   */
  function BootSample(k: int): (r: seq<Node>)
    ensures |r| == 2 && r[0].Let? && r[1].For? && |r[1].body| == 1 && r[1].body[0].Print?
  {
    [Let(k, "x", "1"), For(k + 1, "i", "1", "6", "1", [Print(k + 2, "i")])]
  }

  /** The sample holds exactly the three ids it draws. */
  lemma {:induction false} BootSampleIds(k: int)
    ensures IdBag(BootSample(k)) == multiset{k, k + 1, k + 2}
  {
    var p := Print(k + 2, "i");
    var f := For(k + 1, "i", "1", "6", "1", [p]);
    IdBagCons(p, []);
    assert [p] + [] == [p] && IdBag([]) == multiset{};
    assert NodeBag(f) == multiset{k + 1} + multiset{k + 2};
    IdBagCons(f, []);
    assert [f] + [] == [f];
    IdBagCons(Let(k, "x", "1"), [f]);
    assert BootSample(k) == [Let(k, "x", "1")] + [f];
  }

  // ---------------------------------------------------------------------
  // Slots: the nested containers an IF or FOR node owns
  // ---------------------------------------------------------------------

  /** The `then`, `else` and FOR `body` slots, as `findParent` tags them. */
  datatype Slot = ThenSlot | ElseSlot | BodySlot

  predicate HasSlot(n: Node, s: Slot)
  {
    match s
    case ThenSlot => n.If?
    case ElseSlot => n.If?
    case BodySlot => n.For?
  }

  function SlotOf(n: Node, s: Slot): seq<Node>
    requires HasSlot(n, s)
  {
    match s
    case ThenSlot => n.thenBody
    case ElseSlot => n.elseBody
    case BodySlot => n.body
  }

  /** `n` with slot `s` replaced by `c`; every other field is kept. */
  function WithSlot(n: Node, s: Slot, c: seq<Node>): (r: Node)
    requires HasSlot(n, s)
    ensures HasSlot(r, s) && r.id == n.id && KindOf(r) == KindOf(n) && SlotOf(r, s) == c
  {
    match s
    case ThenSlot => n.(thenBody := c)
    case ElseSlot => n.(elseBody := c)
    case BodySlot => n.(body := c)
  }

  // ---------------------------------------------------------------------
  // Depth-first order and the multiset of ids
  // ---------------------------------------------------------------------

  /**
   * Every node of a container in the order the searches visit them: a node,
   * then (for IF) its `then` and `else` subtrees, (for FOR) its body.
   */
  function Flatten(body: seq<Node>): seq<Node>
  {
    if body == [] then [] else Preorder(body[0]) + Flatten(body[1..])
  }

  function Preorder(n: Node): seq<Node>
  {
    match n
    case If(_, _, _, _, t, e, _) => [n] + Flatten(t) + Flatten(e)
    case For(_, _, _, _, _, b) => [n] + Flatten(b)
    case _ => [n]
  }

  function Ids(s: seq<Node>): seq<int>
  {
    if s == [] then [] else [s[0].id] + Ids(s[1..])
  }

  /** All ids in a container, nested ones included, with multiplicity. */
  ghost function IdBag(body: seq<Node>): multiset<int>
    decreases body, 2
  {
    if body == [] then multiset{} else NodeBag(body[0]) + IdBag(body[1..])
  }

  /** A node's ids: its own id plus the ids of its nested containers. */
  ghost function NodeBag(n: Node): multiset<int>
    decreases n, 1
  {
    multiset{n.id} + KidsBag(n)
  }

  ghost function KidsBag(n: Node): multiset<int>
    decreases n, 0
  {
    match n
    case If(_, _, _, _, t, e, _) => IdBag(t) + IdBag(e)
    case For(_, _, _, _, _, b) => IdBag(b)
    case _ => multiset{}
  }

  /** No id occurs twice anywhere in the tree. */
  ghost predicate UniqueIds(body: seq<Node>)
  {
    forall x :: IdBag(body)[x] <= 1
  }

  lemma {:induction false} IdsAppend(a: seq<Node>, b: seq<Node>)
    ensures Ids(a + b) == Ids(a) + Ids(b)
  {
    if a != [] {
      calc {
        Ids(a + b);
        [(a + b)[0].id] + Ids((a + b)[1..]);
        { assert (a + b)[0] == a[0] && (a + b)[1..] == a[1..] + b; }
        [a[0].id] + Ids(a[1..] + b);
        { IdsAppend(a[1..], b); }
        [a[0].id] + Ids(a[1..]) + Ids(b);
      }
    } else {
      assert a + b == b;
    }
  }

  lemma {:induction false} FlattenAppend(a: seq<Node>, b: seq<Node>)
    ensures Flatten(a + b) == Flatten(a) + Flatten(b)
  {
    if a != [] {
      calc {
        Flatten(a + b);
        Preorder((a + b)[0]) + Flatten((a + b)[1..]);
        { assert (a + b)[0] == a[0] && (a + b)[1..] == a[1..] + b; }
        Preorder(a[0]) + Flatten(a[1..] + b);
        { FlattenAppend(a[1..], b); }
        Preorder(a[0]) + Flatten(a[1..]) + Flatten(b);
      }
    } else {
      assert a + b == b;
    }
  }

  /** The ids of the depth-first listing are exactly the tree's ids. */
  lemma {:induction false} IdBagIsFlattened(body: seq<Node>)
    ensures IdBag(body) == multiset(Ids(Flatten(body)))
    decreases body, 1
  {
    if body != [] {
      IdBagIsFlattened(body[1..]);
      NodeBagIsPreorder(body[0]);
      IdsAppend(Preorder(body[0]), Flatten(body[1..]));
    }
  }

  lemma {:induction false} NodeBagIsPreorder(n: Node)
    ensures NodeBag(n) == multiset(Ids(Preorder(n)))
    decreases n, 0
  {
    assert Ids([n]) == [n.id] + Ids([]);
    match n
    case If(_, _, _, _, t, e, _) =>
      IdBagIsFlattened(t);
      IdBagIsFlattened(e);
      assert Preorder(n) == [n] + (Flatten(t) + Flatten(e));
      IdsAppend([n], Flatten(t) + Flatten(e));
      IdsAppend(Flatten(t), Flatten(e));
    case For(_, _, _, _, _, b) =>
      IdBagIsFlattened(b);
      IdsAppend([n], Flatten(b));
    case _ =>
      assert KidsBag(n) == multiset{};
  }

  lemma {:induction false} IdBagAppend(a: seq<Node>, b: seq<Node>)
    ensures IdBag(a + b) == IdBag(a) + IdBag(b)
  {
    if a != [] {
      assert (a + b)[0] == a[0] && (a + b)[1..] == a[1..] + b;
      IdBagAppend(a[1..], b);
    } else {
      assert a + b == b;
    }
  }

  lemma {:induction false} IdBagCons(n: Node, rest: seq<Node>)
    ensures IdBag([n] + rest) == NodeBag(n) + IdBag(rest)
  {
    assert ([n] + rest)[0] == n && ([n] + rest)[1..] == rest;
  }

  /** The container split around position `k`, as multisets of ids. */
  lemma {:induction false} IdBagAt(body: seq<Node>, k: nat)
    requires k < |body|
    ensures IdBag(body) == IdBag(body[..k]) + NodeBag(body[k]) + IdBag(body[k + 1..])
  {
    assert body == body[..k] + ([body[k]] + body[k + 1..]);
    IdBagAppend(body[..k], [body[k]] + body[k + 1..]);
    IdBagCons(body[k], body[k + 1..]);
  }

  /** Two different positions of one container share no id when ids are unique. */
  lemma {:induction false} SiblingsDisjoint(body: seq<Node>, j: nat, k: nat, x: int)
    requires j < k < |body|
    ensures NodeBag(body[j])[x] + NodeBag(body[k])[x] <= IdBag(body)[x]
  {
    var tail := body[j + 1..];
    IdBagAt(body, j);
    IdBagAt(tail, k - j - 1);
    var before, after := IdBag(body[..j]), IdBag(tail);
    assert IdBag(body)[x] == before[x] + NodeBag(body[j])[x] + after[x];
    assert tail[k - j - 1] == body[k];
    var b2, a2 := IdBag(tail[..k - j - 1]), IdBag(tail[k - j..]);
    assert after[x] == b2[x] + NodeBag(body[k])[x] + a2[x];
  }

  lemma SlotBagInNode(n: Node, s: Slot)
    requires HasSlot(n, s)
    ensures IdBag(SlotOf(n, s)) <= KidsBag(n)
  {
  }

  /** Replacing a slot's contents changes the node's ids by exactly that much. */
  lemma WithSlotBag(n: Node, s: Slot, c: seq<Node>)
    requires HasSlot(n, s)
    ensures NodeBag(WithSlot(n, s, c)) + IdBag(SlotOf(n, s)) == NodeBag(n) + IdBag(c)
  {
  }

  // ---------------------------------------------------------------------
  // findNode
  // ---------------------------------------------------------------------

  /** The first node of `s` with the given id, scanning left to right. */
  function FirstWithId(s: seq<Node>, id: int): (r: Option<Node>)
    ensures r.Some? <==> id in Ids(s)
    ensures r.Some? ==> r.value in s && r.value.id == id
  {
    if s == [] then None
    else if s[0].id == id then Some(s[0])
    else FirstWithId(s[1..], id)
  }

  lemma {:induction false} FirstWithIdAppend(a: seq<Node>, b: seq<Node>, id: int)
    ensures FirstWithId(a + b, id)
         == if FirstWithId(a, id).Some? then FirstWithId(a, id) else FirstWithId(b, id)
  {
    if a == [] {
      assert a + b == b;
    } else {
      assert (a + b)[0] == a[0];
      assert (a + b)[1..] == a[1..] + b;
      FirstWithIdAppend(a[1..], b, id);
    }
  }

  /**
   * The loop of `findNode` (lines 22-31): the first node of the container
   * whose subtree holds the id answers.
   */
  function Find(body: seq<Node>, id: int): (r: Option<Node>)
    ensures r.Some? ==> r.value.id == id
    decreases body, 1
  {
    if body == [] then None
    else if FindIn(body[0], id).Some? then FindIn(body[0], id)
    else Find(body[1..], id)
  }

  /**
   * One iteration of that loop: the node itself matches before its nested
   * containers are searched, IF searches `then` before `else`.
   */
  function FindIn(n: Node, id: int): (r: Option<Node>)
    ensures r.Some? ==> r.value.id == id
    decreases n, 0
  {
    if n.id == id then Some(n)
    else if n.If? && Find(n.thenBody, id).Some? then Find(n.thenBody, id)
    else if n.If? && Find(n.elseBody, id).Some? then Find(n.elseBody, id)
    else if n.For? && Find(n.body, id).Some? then Find(n.body, id)
    else None
  }

  /** `findNode(root, sel)`: a falsy selection (none, or 0) resolves to nothing. */
  function FindNode(body: seq<Node>, sel: Option<int>): (r: Option<Node>)
    ensures sel.None? || sel == Some(0) ==> r.None?
    ensures r.Some? ==> sel == Some(r.value.id)
  {
    if sel.None? || sel.value == 0 then None else Find(body, sel.value)
  }

  /** `findNode` returns the first node with the id in depth-first order. */
  lemma {:induction false} FindIsFirstInPreorder(body: seq<Node>, id: int)
    ensures Find(body, id) == FirstWithId(Flatten(body), id)
    decreases body, 1
  {
    if body != [] {
      FindIsFirstInPreorder(body[1..], id);
      FindInIsFirstInPreorder(body[0], id);
      FirstWithIdAppend(Preorder(body[0]), Flatten(body[1..]), id);
    }
  }

  lemma {:induction false} FindInIsFirstInPreorder(n: Node, id: int)
    ensures FindIn(n, id) == FirstWithId(Preorder(n), id)
    decreases n, 0
  {
    if n.If? {
      var t, e := n.thenBody, n.elseBody;
      FindIsFirstInPreorder(t, id);
      FindIsFirstInPreorder(e, id);
      FirstWithIdAppend(Flatten(t), Flatten(e), id);
      FirstWithIdCons(n, Flatten(t) + Flatten(e), id);
      assert Preorder(n) == [n] + (Flatten(t) + Flatten(e));
    } else if n.For? {
      FindIsFirstInPreorder(n.body, id);
      FirstWithIdCons(n, Flatten(n.body), id);
    } else {
      FirstWithIdCons(n, [], id);
      assert [n] + [] == [n];
    }
  }

  lemma FirstWithIdCons(n: Node, s: seq<Node>, id: int)
    ensures FirstWithId([n] + s, id) == if n.id == id then Some(n) else FirstWithId(s, id)
  {
    assert ([n] + s)[0] == n && ([n] + s)[1..] == s;
  }

  /** `findNode` succeeds exactly for the ids present in the tree. */
  lemma {:induction false} FindSomeIff(body: seq<Node>, id: int)
    ensures Find(body, id).Some? <==> id in IdBag(body)
  {
    FindIsFirstInPreorder(body, id);
    IdBagIsFlattened(body);
  }

  lemma {:induction false} FindInSomeIff(n: Node, id: int)
    ensures FindIn(n, id).Some? <==> id in NodeBag(n)
  {
    if n.If? {
      FindSomeIff(n.thenBody, id);
      FindSomeIff(n.elseBody, id);
    } else if n.For? {
      FindSomeIff(n.body, id);
    }
  }

  /** Positions whose subtrees lack the id are passed over by `findNode`. */
  lemma {:induction false} FindSkip(body: seq<Node>, id: int, k: nat)
    requires k <= |body|
    requires forall j :: 0 <= j < k ==> id !in NodeBag(body[j])
    ensures Find(body, id) == Find(body[k..], id)
  {
    if k > 0 {
      FindInSomeIff(body[0], id);
      FindSkip(body[1..], id, k - 1);
      assert body[1..][k - 1..] == body[k..];
    } else {
      assert body[0..] == body;
    }
  }

  /** Depth 0: with unique ids, `findNode` resolves a root-level node's id to it. */
  lemma {:induction false} FindTop(body: seq<Node>, k: nat)
    requires UniqueIds(body) && k < |body|
    ensures Find(body, body[k].id) == Some(body[k])
  {
    OnlyAt(body, k, body[k].id);
    FindSkip(body, body[k].id, k);
  }

  /** Depth 1: with unique ids, `findNode` resolves an id in a top-level slot to that entry. */
  lemma {:induction false} FindInSlot(body: seq<Node>, k: nat, s: Slot, i: nat)
    requires UniqueIds(body) && k < |body| && HasSlot(body[k], s) && i < |SlotOf(body[k], s)|
    ensures Find(body, SlotOf(body[k], s)[i].id) == Some(SlotOf(body[k], s)[i])
  {
    var c := SlotOf(body[k], s);
    var id := c[i].id;
    IdBagAt(c, i);
    SlotOwner(body, k, s, id);
    OnlyAt(body, k, id);
    FindSkip(body, id, k);
    UniqueInSlot(body, k, s);
    FindTop(c, i);
  }

  /**
   * With unique ids, an id inside slot `s` of the top-level node `k` is not
   * that node's own, and for the `else` slot it is not in `then`: so
   * `findNode`'s step at `k` searches exactly that slot.
   */
  lemma {:induction false} SlotOwner(body: seq<Node>, k: nat, s: Slot, id: int)
    requires UniqueIds(body) && k < |body| && HasSlot(body[k], s)
    requires id in IdBag(SlotOf(body[k], s))
    ensures id in NodeBag(body[k]) && id != body[k].id
    ensures FindIn(body[k], id) == Find(SlotOf(body[k], s), id)
    ensures s == ElseSlot ==> Find(body[k].thenBody, id).None?
  {
    var n := body[k];
    SlotBagInNode(n, s);
    IdBagAt(body, k);
    assert IdBag(body)[id] <= 1;
    assert KidsBag(n)[id] >= 1 && NodeBag(n)[id] <= 1;
    assert multiset{n.id}[id] == 0;
    FindSomeIff(SlotOf(n, s), id);
    if s == ElseSlot {
      assert (IdBag(n.thenBody) + IdBag(n.elseBody))[id] <= 1;
      FindSomeIff(n.thenBody, id);
    }
  }

  /** While every id exceeds the root's, the root's id never resolves to a node. */
  lemma {:induction false} FindNeverRoot(body: seq<Node>)
    requires forall x :: x in IdBag(body) ==> x > RootId
    ensures FindNode(body, Some(RootId)).None?
  {
    FindSomeIff(body, RootId);
  }

  // ---------------------------------------------------------------------
  // findParent and indexOf
  // ---------------------------------------------------------------------

  /**
   * What `findParent` hands back, relative to the container it searched:
   * `Here` is that container itself, `InSlot(i, s)` is slot `s` of its
   * `i`-th node.
   */
  datatype Parent = Here | InSlot(index: nat, slot: Slot)

  predicate ValidParent(body: seq<Node>, p: Parent)
  {
    p.InSlot? ==> p.index < |body| && HasSlot(body[p.index], p.slot)
  }

  /**
   * The loop of `findParent` (lines 35-45) from position `i`.  A nested hit is
   * only tested for truthiness and answered with the CURRENT level's slot.
   */
  function FindParentFrom(body: seq<Node>, id: int, i: nat): (r: Option<Parent>)
    requires i <= |body|
    ensures r.Some? ==> ValidParent(body, r.value)
    ensures r == Some(Here) ==> exists k :: i <= k < |body| && body[k].id == id
    ensures r.Some? && r.value.InSlot? ==> i <= r.value.index
    decreases body, |body| - i
  {
    if i == |body| then None
    else
      var n := body[i];
      if n.id == id then Some(Here)
      else if n.If? && FindParentFrom(n.thenBody, id, 0).Some? then Some(InSlot(i, ThenSlot))
      else if n.If? && FindParentFrom(n.elseBody, id, 0).Some? then Some(InSlot(i, ElseSlot))
      else if n.For? && FindParentFrom(n.body, id, 0).Some? then Some(InSlot(i, BodySlot))
      else FindParentFrom(body, id, i + 1)
  }

  /** `findParent(root, id)`. */
  function FindParent(body: seq<Node>, id: int): Option<Parent>
  {
    FindParentFrom(body, id, 0)
  }

  /** The container `p` designates. */
  function ContainerOf(body: seq<Node>, p: Parent): seq<Node>
    requires ValidParent(body, p)
  {
    if p.Here? then body else SlotOf(body[p.index], p.slot)
  }

  /** The tree with the container `p` designates replaced by `c`. */
  function WithContainer(body: seq<Node>, p: Parent, c: seq<Node>): (r: seq<Node>)
    requires ValidParent(body, p)
    ensures ValidParent(r, p) && ContainerOf(r, p) == c
    ensures p.InSlot? ==> |r| == |body| && forall j :: 0 <= j < |body| && j != p.index ==> r[j] == body[j]
  {
    if p.Here? then c else body[p.index := WithSlot(body[p.index], p.slot, c)]
  }

  /** `findParent` is truthy exactly when the id is somewhere in the scanned part. */
  lemma {:induction false} FindParentFromSomeIff(body: seq<Node>, id: int, i: nat)
    requires i <= |body|
    ensures FindParentFrom(body, id, i).Some? <==> id in IdBag(body[i..])
    decreases body, |body| - i
  {
    if i < |body| {
      var n := body[i];
      assert body[i..] == [n] + body[i + 1..];
      IdBagCons(n, body[i + 1..]);
      FindParentFromSomeIff(body, id, i + 1);
      KidsHit(n, id);
    }
  }

  /** A nested container is reported by `findParent` exactly when it holds the id. */
  lemma {:induction false} KidsHit(n: Node, id: int)
    ensures n.If? ==> (FindParentFrom(n.thenBody, id, 0).Some? <==> id in IdBag(n.thenBody))
    ensures n.If? ==> (FindParentFrom(n.elseBody, id, 0).Some? <==> id in IdBag(n.elseBody))
    ensures n.For? ==> (FindParentFrom(n.body, id, 0).Some? <==> id in IdBag(n.body))
    decreases n
  {
    if n.If? {
      FindParentFromSomeIff(n.thenBody, id, 0);
      FindParentFromSomeIff(n.elseBody, id, 0);
      assert n.thenBody[0..] == n.thenBody && n.elseBody[0..] == n.elseBody;
    } else if n.For? {
      FindParentFromSomeIff(n.body, id, 0);
      assert n.body[0..] == n.body;
    }
  }

  lemma {:induction false} FindParentSomeIff(body: seq<Node>, id: int)
    ensures FindParent(body, id).Some? <==> Find(body, id).Some?
  {
    FindParentFromSomeIff(body, id, 0);
    assert body[0..] == body;
    FindSomeIff(body, id);
  }

  /** A slot `findParent` returns holds the id somewhere in its subtree. */
  lemma {:induction false} FindParentSlotHolds(body: seq<Node>, id: int, i: nat)
    requires i <= |body|
    requires FindParentFrom(body, id, i).Some? && FindParentFrom(body, id, i).value.InSlot?
    ensures var p := FindParentFrom(body, id, i).value;
      id in IdBag(SlotOf(body[p.index], p.slot))
    decreases |body| - i
  {
    var n := body[i];
    var p := FindParentFrom(body, id, i).value;
    if p.index == i {
      var c := SlotOf(n, p.slot);
      FindParentFromSomeIff(c, id, 0);
      assert c[0..] == c;
    } else {
      FindParentSlotHolds(body, id, i + 1);
    }
  }

  /** Positions whose subtrees lack the id are skipped by `findParent`. */
  lemma {:induction false} FindParentSkip(body: seq<Node>, id: int, i: nat, k: nat)
    requires i <= k <= |body|
    requires forall j :: i <= j < k ==> id !in NodeBag(body[j])
    ensures FindParentFrom(body, id, i) == FindParentFrom(body, id, k)
  {
    var scan := (j: nat) => if j <= |body| then FindParentFrom(body, id, j) else None;
    forall j: nat | i <= j < k
      ensures scan(j) == scan(j + 1)
    {
      SkipOne(body, id, j);
    }
    Chain(scan, i, k);
  }

  /** A sequence of answers that never changes from one position to the next is constant. */
  lemma {:induction false} Chain(f: nat -> Option<Parent>, i: nat, k: nat)
    requires i <= k
    requires forall j :: i <= j < k ==> f(j) == f(j + 1)
    ensures f(i) == f(k)
    decreases k - i
  {
    if i < k {
      Chain(f, i + 1, k);
    }
  }

  lemma {:induction false} SkipOne(body: seq<Node>, id: int, i: nat)
    requires i < |body| && id !in NodeBag(body[i])
    ensures FindParentFrom(body, id, i) == FindParentFrom(body, id, i + 1)
  {
    assert body[i].id != id && id !in KidsBag(body[i]);
    KidsHit(body[i], id);
  }

  /** With unique ids, the ids of position `k` occur nowhere else in the container. */
  lemma {:induction false} OnlyAt(body: seq<Node>, k: nat, x: int)
    requires UniqueIds(body) && k < |body| && x in NodeBag(body[k])
    ensures forall j :: 0 <= j < |body| && j != k ==> x !in NodeBag(body[j])
  {
    forall j | 0 <= j < |body| && j != k
      ensures x !in NodeBag(body[j])
    {
      if j < k { SiblingsDisjoint(body, j, k, x); } else { SiblingsDisjoint(body, k, j, x); }
    }
  }

  /** Depth 0: for a node of the root container, `findParent` returns the root. */
  lemma {:induction false} FindParentAtTop(body: seq<Node>, id: int, k: nat)
    requires UniqueIds(body) && k < |body| && body[k].id == id
    ensures FindParent(body, id) == Some(Here)
  {
    OnlyAt(body, k, id);
    FindParentSkip(body, id, 0, k);
  }

  /**
   * Inside slot `s` of the top-level node `k`, at ANY depth, `findParent`
   * returns that top-level slot.
   */
  lemma {:induction false} FindParentInsideSlot(body: seq<Node>, id: int, k: nat, s: Slot)
    requires UniqueIds(body) && k < |body| && HasSlot(body[k], s)
    requires id in IdBag(SlotOf(body[k], s))
    ensures FindParent(body, id) == Some(InSlot(k, s))
  {
    IdBagAt(body, k);
    assert IdBag(body)[id] <= 1;
    SlotBagInNode(body[k], s);
    OnlyAt(body, k, id);
    FindParentSkip(body, id, 0, k);
    HitAt(body, id, k, s);
  }

  /** At the position whose slot holds the id just once, `findParent` answers that slot. */
  lemma {:induction false} HitAt(body: seq<Node>, id: int, k: nat, s: Slot)
    requires k < |body| && HasSlot(body[k], s) && NodeBag(body[k])[id] <= 1
    requires id in IdBag(SlotOf(body[k], s))
    ensures FindParentFrom(body, id, k) == Some(InSlot(k, s))
  {
    KidsHit(body[k], id);
  }

  /** `indexOf` / `findIndex` by id: the first position holding the id, or -1. */
  function IndexOf(c: seq<Node>, id: int): (r: int)
    ensures -1 <= r < |c|
    ensures r >= 0 ==> c[r].id == id && forall j :: 0 <= j < r ==> c[j].id != id
    ensures r < 0 ==> forall j :: 0 <= j < |c| ==> c[j].id != id
  {
    if c == [] then -1
    else if c[0].id == id then 0
    else
      var r := IndexOf(c[1..], id);
      if r < 0 then -1 else r + 1
  }

  /** With unique ids, `indexOf` finds the one position holding the id. */
  lemma {:induction false} IndexOfUnique(c: seq<Node>, id: int, k: nat)
    requires UniqueIds(c) && k < |c| && c[k].id == id
    ensures IndexOf(c, id) == k
  {
    var r := IndexOf(c, id);
    if 0 <= r < k {
      assert NodeBag(c[r])[id] >= 1 && NodeBag(c[k])[id] >= 1;
      SiblingsDisjoint(c, r, k, id);
    }
  }

  /** The ids of a slot are a part of the tree's ids, so uniqueness carries over. */
  lemma {:induction false} UniqueInSlot(body: seq<Node>, k: nat, s: Slot)
    requires UniqueIds(body) && k < |body| && HasSlot(body[k], s)
    ensures UniqueIds(SlotOf(body[k], s))
    ensures IdBag(SlotOf(body[k], s)) <= IdBag(body)
  {
    IdBagAt(body, k);
    SlotBagInNode(body[k], s);
    assert IdBag(SlotOf(body[k], s)) <= IdBag(body);
    forall x ensures IdBag(SlotOf(body[k], s))[x] <= 1 {
      assert IdBag(SlotOf(body[k], s))[x] <= IdBag(body)[x];
    }
  }

  /** Replacing the container `p` designates changes the tree's ids by exactly that much. */
  lemma {:induction false} WithContainerBag(body: seq<Node>, p: Parent, c: seq<Node>)
    requires ValidParent(body, p)
    ensures IdBag(WithContainer(body, p, c)) + IdBag(ContainerOf(body, p)) == IdBag(body) + IdBag(c)
  {
    if p.InSlot? {
      var k := p.index;
      var r := WithContainer(body, p, c);
      IdBagAt(body, k);
      IdBagAt(r, k);
      assert r[..k] == body[..k] && r[k + 1..] == body[k + 1..];
      WithSlotBag(body[k], p.slot, c);
    }
  }
}
