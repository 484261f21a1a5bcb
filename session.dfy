/**
 * The block-editor session of Code_Prototype_1.js (lines 3-94, 331-337,
 * 352-365, 463-474, 485-496): the id counter, the program body, the
 * selection, the add-inside target and the undo/redo stacks, with the
 * handlers that change them.
 *
 * A snapshot (`JSON.stringify(root.body)`, line 51) is a copy of the body
 * value, so the two stacks hold `seq<Node>` values and `restore` is an
 * assignment.
 */
module BlockSession {
  import opened Wrappers
  import opened Blocks
  import Edits

  /**
   * A tree the session can hold: no id twice, and every id one the counter
   * has issued, so above the root's id and below `next`.
   */
  ghost predicate WellFormed(body: seq<Node>, next: int)
  {
    UniqueIds(body) && forall x :: x in IdBag(body) ==> RootId < x < next
  }

  /** Every snapshot on a stack is a tree the session can hold. */
  ghost predicate AllWellFormed(stack: seq<seq<Node>>, next: int)
  {
    forall i :: 0 <= i < |stack| ==> WellFormed(stack[i], next)
  }

  /** A tree that gains exactly one fresh id stays well formed. */
  lemma AddFresh(body: seq<Node>, body': seq<Node>, id: int, next: int)
    requires WellFormed(body, next) && RootId < id < next && id !in IdBag(body)
    requires IdBag(body') == IdBag(body) + multiset{id}
    ensures WellFormed(body', next)
  {
    forall x ensures IdBag(body')[x] <= 1 {
      assert IdBag(body)[x] <= 1;
      if x == id { assert IdBag(body)[x] == 0; }
    }
  }

  /** A tree whose ids are among a well-formed tree's ids is well formed. */
  lemma Sub(body: seq<Node>, body': seq<Node>, next: int)
    requires WellFormed(body, next) && IdBag(body') <= IdBag(body)
    ensures WellFormed(body', next)
  {
    forall x ensures IdBag(body')[x] <= 1 {
      assert IdBag(body)[x] <= 1;
    }
  }

  /** The boot sample drawn from `k` is well formed once the counter is past `k + 2`. */
  lemma BootWellFormed(k: int, next: int)
    requires RootId < k && k + 2 < next
    ensures WellFormed(BootSample(k), next)
  {
    BootSampleIds(k);
    var a, b, c := multiset{k}, multiset{k + 1}, multiset{k + 2};
    var m := IdBag(BootSample(k));
    assert m == a + b + c;
    forall x ensures m[x] <= 1 {
      assert m[x] == a[x] + b[x] + c[x];
    }
    forall x | x in m ensures RootId < x < next {
      assert x in a || x in b || x in c;
    }
  }

  class Session {
    /** The counter `makeNode` draws ids from; 1 went to the root. */
    var nextId: int
    /** `root.body`. */
    var body: seq<Node>
    /** `selectedId`; `None` is JavaScript's `null`. */
    var selectedId: Option<int>
    /** `targetInside`: which branch of a selected IF add-inside fills. */
    var targetInside: Edits.Target
    /** `hist.past` and `hist.future`, tops at the end. */
    var past: seq<seq<Node>>
    var future: seq<seq<Node>>

    /**
     * The session invariant: the counter is past the root's id, the body
     * and every snapshot hold distinct issued ids, and `future` is empty
     * (every commit empties it and `undo` commits, so `redo` never finds
     * anything to replay).
     */
    ghost predicate Valid()
      reads this
    {
      nextId > RootId && WellFormed(body, nextId) && AllWellFormed(past, nextId) && future == []
    }

    /** Lines 3-7: the root takes id 1, so the first node gets 2. */
    constructor()
      ensures Valid()
      ensures nextId == RootId + 1 && body == [] && selectedId == None && targetInside == Edits.InThen
      ensures past == [] && future == []
    {
      nextId := RootId + 1;
      body := [];
      selectedId := None;
      targetInside := Edits.InThen;
      past := [];
      future := [];
    }

    /**
     * `makeNode(type)`: a node of the kind with its default fields, whose id
     * is the counter's value, which then moves on; the id is above every id
     * the body or a snapshot holds.
     */
    method MakeNode(kind: Kind) returns (n: Node)
      requires Valid()
      modifies this
      ensures Valid()
      ensures n == DefaultNode(kind, old(nextId)) && nextId == old(nextId) + 1
      ensures forall x :: x in IdBag(body) ==> x < n.id
      ensures forall i, x :: 0 <= i < |past| && x in IdBag(past[i]) ==> x < n.id
      ensures body == old(body) && selectedId == old(selectedId) && targetInside == old(targetInside)
      ensures past == old(past) && future == old(future)
    {
      n := DefaultNode(kind, nextId);
      nextId := nextId + 1;
    }

    /** `pushHistory()`: the current body goes on `past`; `future` is emptied. */
    method PushHistory()
      modifies this
      ensures past == old(past) + [body] && future == []
      ensures body == old(body) && nextId == old(nextId)
      ensures selectedId == old(selectedId) && targetInside == old(targetInside)
    {
      past := past + [body];
      future := [];
    }

    /**
     * `undo()`: nothing on an empty `past`; otherwise the top snapshot is
     * restored and, through the trailing `pushHistory`, pushed again, so
     * `past` is as before, `future` is empty and a second undo restores
     * the same body.
     */
    method Undo()
      requires Valid()
      modifies this
      ensures Valid()
      ensures old(past) == [] ==> body == old(body) && past == []
      ensures old(past) != [] ==> body == old(past[|past| - 1]) && past == old(past)
      ensures past != [] ==> body == past[|past| - 1]
      ensures future == [] && nextId == old(nextId)
      ensures selectedId == old(selectedId) && targetInside == old(targetInside)
    {
      if |past| == 0 {
        return;
      }
      future := future + [body];
      var prev := past[|past| - 1];
      ghost var before := past;
      past := past[..|past| - 1];
      body := prev;
      PushHistory();
      assert past == before;
    }

    /**
     * `redo()`: nothing on an empty `future`; otherwise the current body
     * goes on `past` and `future`'s top is restored. Under the session
     * invariant `future` is empty, so redo changes nothing.
     */
    method Redo()
      modifies this
      ensures old(future) == [] ==> body == old(body) && past == old(past) && future == []
      ensures old(future) != [] ==>
        body == old(future[|future| - 1]) && past == old(past) + [old(body)]
        && future == old(future[..|future| - 1])
      ensures nextId == old(nextId) && selectedId == old(selectedId) && targetInside == old(targetInside)
      ensures old(Valid()) ==> Valid()
    {
      if |future| == 0 {
        return;
      }
      past := past + [body];
      var next := future[|future| - 1];
      future := future[..|future| - 1];
      body := next;
    }

    /** `addAt(root, node)`: the node goes at the end of the root; commit. */
    method AddAt(n: Node)
      requires Valid() && NodeBag(n) == multiset{n.id}
      requires RootId < n.id < nextId && n.id !in IdBag(body)
      modifies this
      ensures Valid()
      ensures body == old(body) + [n] && past == old(past) + [body] && future == []
      ensures nextId == old(nextId) && selectedId == old(selectedId) && targetInside == old(targetInside)
    {
      Edits.AppendOneBag(body, n);
      AddFresh(body, body + [n], n.id, nextId);
      body := body + [n];
      PushHistory();
    }

    /**
     * `addToSelected(node)` for a node `makeNode` has just built: placed
     * as `Edits.AddToSelected` says, then committed.
     */
    method AddToSelected(n: Node)
      requires Valid() && NodeBag(n) == multiset{n.id}
      requires RootId < n.id < nextId && n.id !in IdBag(body)
      modifies this
      ensures Valid()
      ensures body == Edits.AddToSelected(old(body), old(selectedId), n)
      ensures past == old(past) + [body] && future == []
      ensures nextId == old(nextId) && selectedId == old(selectedId) && targetInside == old(targetInside)
    {
      if FindNode(body, selectedId).None? {
        AddAt(n);
        return;
      }
      var b := Edits.AddToSelected(body, selectedId, n);
      Edits.AddToSelectedBag(body, selectedId, n);
      AddFresh(body, b, n.id, nextId);
      body := b;
      PushHistory();
    }

    /** The add-LET/PRINT/IF/FOR buttons: `addToSelected(makeNode(kind))`. */
    method AddBlock(kind: Kind)
      requires Valid()
      modifies this
      ensures Valid()
      ensures body == Edits.AddToSelected(old(body), old(selectedId), DefaultNode(kind, old(nextId)))
      ensures nextId == old(nextId) + 1 && past == old(past) + [body] && future == []
      ensures selectedId == old(selectedId) && targetInside == old(targetInside)
    {
      var n := MakeNode(kind);
      AddToSelected(n);
    }

    /**
     * `deleteNode(node)`, keyed by the node's id: the tree becomes
     * `Edits.DeleteNode`'s, the selection is cleared when it was that id,
     * and the call commits whether or not anything was removed.
     */
    method DeleteNode(id: int)
      requires Valid()
      modifies this
      ensures Valid()
      ensures body == Edits.DeleteNode(old(body), id)
      ensures selectedId == if old(selectedId) == Some(id) then None else old(selectedId)
      ensures past == old(past) + [body] && future == []
      ensures nextId == old(nextId) && targetInside == old(targetInside)
    {
      var b := Edits.DeleteNode(body, id);
      Edits.DeleteNodeBag(body, id);
      Sub(body, b, nextId);
      body := b;
      if selectedId == Some(id) {
        selectedId := None;
      }
      PushHistory();
    }

    /**
     * `moveNode(node, dir)`, keyed by id: when `Edits.MoveNode` refuses,
     * nothing changes and nothing is committed; otherwise its tree is
     * taken and committed.
     */
    method MoveNode(id: int, dir: int)
      requires Valid()
      modifies this
      ensures Valid()
      ensures Edits.MoveNode(old(body), id, dir).None? ==> body == old(body) && past == old(past)
      ensures Edits.MoveNode(old(body), id, dir).Some? ==>
        body == Edits.MoveNode(old(body), id, dir).value && past == old(past) + [body]
      ensures future == [] && nextId == old(nextId)
      ensures selectedId == old(selectedId) && targetInside == old(targetInside)
    {
      var m := Edits.MoveNode(body, id, dir);
      if m.None? {
        return;
      }
      Edits.MoveNodeBag(body, id, dir);
      body := m.value;
      PushHistory();
    }

    /** `resetProgram()`: empty body, no selection, commit. */
    method ResetProgram()
      requires Valid()
      modifies this
      ensures Valid()
      ensures body == [] && selectedId == None && past == old(past) + [[]] && future == []
      ensures nextId == old(nextId) && targetInside == old(targetInside)
    {
      assert IdBag([]) == multiset{};
      body := [];
      selectedId := None;
      PushHistory();
    }

    /** The ELSE-toggle button: `Edits.ToggleElse` on the selection, never committed. */
    method ToggleElse()
      requires Valid()
      modifies this
      ensures Valid()
      ensures body == Edits.ToggleElse(old(body), old(selectedId))
      ensures past == old(past) && future == old(future) && nextId == old(nextId)
      ensures selectedId == old(selectedId) && targetInside == old(targetInside)
    {
      var b := Edits.ToggleElse(body, selectedId);
      Edits.ToggleElseBag(body, selectedId);
      Sub(body, b, nextId);
      body := b;
    }

    /**
     * The add-inside button (lines 463-474): an unresolved selection is
     * refused before anything happens; otherwise a node is minted first,
     * and a LET/PRINT selection is then refused with the counter already
     * advanced. `added` says whether the tree took the node.
     */
    method AddInside(kind: Kind) returns (added: bool)
      requires Valid()
      modifies this
      ensures Valid()
      ensures FindNode(old(body), old(selectedId)).None? ==>
        !added && nextId == old(nextId) && body == old(body) && past == old(past)
      ensures FindNode(old(body), old(selectedId)).Some? ==> nextId == old(nextId) + 1
      ensures var r := Edits.AddInside(old(body), old(selectedId), old(targetInside), DefaultNode(kind, old(nextId)));
        FindNode(old(body), old(selectedId)).Some? ==>
          (added <==> r.Some?)
          && (r.None? ==> body == old(body) && past == old(past))
          && (r.Some? ==> body == r.value && past == old(past) + [body])
      ensures future == [] && selectedId == old(selectedId) && targetInside == old(targetInside)
    {
      if FindNode(body, selectedId).None? {
        return false;
      }
      var n := MakeNode(kind);
      var r := Edits.AddInside(body, selectedId, targetInside, n);
      if r.None? {
        return false;
      }
      Edits.AddInsideBag(body, selectedId, targetInside, n);
      AddFresh(body, r.value, n.id, nextId);
      body := r.value;
      PushHistory();
      added := true;
    }

    /** The Select button: selecting the selected node again clears the selection. */
    method Select(id: int)
      modifies this
      ensures selectedId == if old(selectedId) == Some(id) then None else Some(id)
      ensures body == old(body) && nextId == old(nextId) && targetInside == old(targetInside)
      ensures past == old(past) && future == old(future)
    {
      selectedId := if selectedId == Some(id) then None else Some(id);
    }

    /** The THEN/ELSE targeting buttons. */
    method SetTarget(t: Edits.Target)
      modifies this
      ensures targetInside == t
      ensures body == old(body) && nextId == old(nextId) && selectedId == old(selectedId)
      ensures past == old(past) && future == old(future)
    {
      targetInside := t;
    }

    /**
     * `applyEditor()` on the node with the id: the field takes the value
     * (a field the node's kind lacks is left alone), nothing is committed.
     */
    method ApplyEditor(id: int, f: Edits.Field, value: string)
      requires Valid()
      modifies this
      ensures Valid()
      ensures body == Edits.UpdateFirst(old(body), id, Edits.Assign(f, value))
      ensures past == old(past) && future == old(future) && nextId == old(nextId)
      ensures selectedId == old(selectedId) && targetInside == old(targetInside)
    {
      var b := Edits.UpdateFirst(body, id, Edits.Assign(f, value));
      if Find(body, id).Some? {
        Edits.UpdateBag(body, id, Edits.Assign(f, value));
        Edits.Cancel(IdBag(b), IdBag(body), NodeBag(Find(body, id).value));
      } else {
        Edits.UpdateAbsent(body, id, Edits.Assign(f, value));
      }
      body := b;
    }

    /**
     * The boot sample (lines 485-496): on an empty body, a LET, a FOR and
     * the PRINT inside it are minted in that order, given the sample's
     * fields and committed; a non-empty body is left alone.
     */
    method Boot()
      requires Valid()
      modifies this
      ensures Valid()
      ensures old(body) == [] ==>
        body == BootSample(old(nextId)) && nextId == old(nextId) + 3 && past == old(past) + [body]
      ensures old(body) != [] ==> body == old(body) && nextId == old(nextId) && past == old(past)
      ensures future == [] && selectedId == old(selectedId) && targetInside == old(targetInside)
    {
      if |body| != 0 {
        return;
      }
      var l := MakeNode(LetKind);
      var f := MakeNode(ForKind);
      var p := MakeNode(PrintKind);
      var b := [Let(l.id, "x", "1"), For(f.id, "i", "1", "6", "1", [Print(p.id, "i")])];
      assert b == BootSample(l.id);
      BootWellFormed(l.id, nextId);
      body := b;
      PushHistory();
    }
  }
}
