/** The operators of a user-defined class: a list of slots and callbacks in one build, a record of them in the other. */
module VTable {
  import opened Common

  datatype Entry<C> = Entry(slot: int, callback: C)

  /** A cell of the table's memory; None once its content is no longer defined. */
  type Cell<C> = Option<Entry<C>>

  function Callbacks<C>(cells: seq<Cell<C>>): seq<C> {
    if cells == [] then []
    else if cells[0].Some? then [cells[0].value.callback] + Callbacks(cells[1..])
    else Callbacks(cells[1..])
  }

  /** The first entry for `slot`, or the number of cells. */
  function IndexOf<C>(cells: seq<Cell<C>>, slot: int): (i: nat)
    ensures i <= |cells|
    ensures i < |cells| ==> cells[i].Some? && cells[i].value.slot == slot
    ensures forall j :: 0 <= j < i && cells[j].Some? ==> cells[j].value.slot != slot
  {
    if cells == [] then 0
    else if cells[0].Some? && cells[0].value.slot == slot then 0
    else 1 + IndexOf(cells[1..], slot)
  }

  ghost predicate Defined<C>(cells: seq<Cell<C>>) {
    forall i :: 0 <= i < |cells| ==> cells[i].Some?
  }

  ghost predicate OnePerSlot<C>(cells: seq<Cell<C>>) {
    forall i, j :: 0 <= i < j < |cells| && cells[i].Some? && cells[j].Some? ==>
                     cells[i].value.slot != cells[j].value.slot
  }

  /** Every cell is defined, no slot has two, and the references owned are those of the callbacks stored. */
  ghost predicate InOrder<C>(cells: seq<Cell<C>>, refs: multiset<C>) {
    Defined(cells) && OnePerSlot(cells) && refs == multiset(Callbacks(cells))
  }

  /** The record the other build keeps: the callback of every slot that has one. */
  function Record<C>(cells: seq<Cell<C>>): map<int, C> {
    if cells == [] then map[]
    else
      var rest := Record(cells[..|cells| - 1]);
      match cells[|cells| - 1]
      case None => rest
      case Some(e) => rest[e.slot := e.callback]
  }

  lemma FirstIndex<C>(cells: seq<Cell<C>>, init: seq<Cell<C>>, slot: int)
    requires cells != [] && init == cells[..|cells| - 1]
    ensures IndexOf(init, slot) < |init| ==> IndexOf(cells, slot) == IndexOf(init, slot)
  {
    var (i, j) := (IndexOf(cells, slot), IndexOf(init, slot));
    if j < |init| {
      assert cells[j] == init[j];
      assert i < |init| ==> init[i] == cells[i];
    }
  }

  lemma {:induction false} RecordLookup<C>(cells: seq<Cell<C>>, slot: int)
    requires Defined(cells) && OnePerSlot(cells)
    ensures var i := IndexOf(cells, slot);
            && (slot in Record(cells) <==> i < |cells|)
            && (i < |cells| ==> Record(cells)[slot] == cells[i].value.callback)
    decreases |cells|
  {
    if cells != [] {
      var init := cells[..|cells| - 1];
      RecordLookup(init, slot);
      var (i, j) := (IndexOf(cells, slot), IndexOf(init, slot));
      assert cells[|cells| - 1].Some?;
      FirstIndex(cells, init, slot);
    }
  }

  /** The memory after it was cut short by one cell and the entries behind `i` were moved: the last of them is gone. */
  function Cut<C>(cells: seq<Cell<C>>, i: nat): (after: seq<Cell<C>>)
    requires i < |cells|
    ensures |after| == |cells| - 1
  {
    if i < |cells| - 1 then cells[..i] + cells[i + 1..|cells| - 1] + [None] else cells[..|cells| - 1]
  }

  class VTable<C(==)> {
    /** `dvt_tablec` and the memory `dvt_tablev` points to; `freed` once that memory was given back. */
    var count: nat
    var cells: seq<Cell<C>>
    var freed: bool
    /** The references to callbacks the table owns. */
    ghost var refs: multiset<C>

    ghost predicate Valid()
      reads this
    {
      !freed && count == |cells| && InOrder(cells, refs)
    }

    constructor ()
      ensures Valid() && Record(cells) == map[]
    {
      count, cells, freed, refs := 0, [], false, multiset{};
    }

    method GetOperator(slot: int) returns (callback: Option<C>)
      requires Valid()
      ensures callback == if slot in Record(cells) then Some(Record(cells)[slot]) else None
      ensures callback.None? <==> forall i :: 0 <= i < |cells| ==> cells[i].value.slot != slot
      ensures forall i :: 0 <= i < |cells| && cells[i].value.slot == slot ==> callback == Some(cells[i].value.callback)
    {
      RecordLookup(cells, slot);
      var i := 0;
      while i != count
        invariant 0 <= i <= count && forall j :: 0 <= j < i ==> cells[j].value.slot != slot
      {
        if cells[i].value.slot == slot {
          return Some(cells[i].value.callback);
        }
        i := i + 1;
      }
      callback := None;
    }

    method SetOperator(slot: int, callback: C)
      requires Valid()
      modifies this
      ensures Valid() && Record(cells) == old(Record(cells))[slot := callback]
    {
      var i := 0;
      while i != count
        invariant 0 <= i <= count && forall j :: 0 <= j < i ==> cells[j].value.slot != slot
        invariant unchanged(this)
      {
        if cells[i].value.slot == slot {
          Overwrite(i, callback);
          return;
        }
        i := i + 1;
      }
      Append(slot, callback);
    }

    /** Takes a reference to the new callback and drops the one to the old. */
    method Overwrite(i: nat, callback: C)
      requires Valid() && i < count
      modifies this
      ensures Valid() && Record(cells) == old(Record(cells))[old(cells)[i].value.slot := callback]
    {
      ghost var e := cells[i].value;
      ReplaceCell(cells, refs, i, callback);
      refs := (refs + multiset{callback}) - multiset{e.callback};
      cells := cells[i := Some(Entry(cells[i].value.slot, callback))];
    }

    method Append(slot: int, callback: C)
      requires Valid() && forall j :: 0 <= j < count ==> cells[j].value.slot != slot
      modifies this
      ensures Valid() && Record(cells) == old(Record(cells))[slot := callback]
    {
      AppendCell(cells, refs, Entry(slot, callback));
      refs := refs + multiset{callback};
      cells := cells + [Some(Entry(slot, callback))];
      count := count + 1;
    }

    /**
     Deleting a slot that has a callback leaves a table in order exactly if its entry is the last one, but not the only
     one. The memory is cut short before the entries behind are moved, so otherwise the last of them is lost; and the
     memory of the only entry is freed while the table goes on pointing to it.
     */
    method DelOperator(slot: int) returns (code: int)
      requires Valid()
      modifies this
      ensures slot !in old(Record(cells)) ==> code == 1 && unchanged(this)
      ensures slot in old(Record(cells)) ==> code == 0
      ensures slot in old(Record(cells)) ==>
                var i := IndexOf(old(cells), slot);
                && (Valid() <==> i == old(count) - 1 && old(count) > 1)
                && (Valid() ==> Record(cells) == old(Record(cells)) - {slot})
                && (Valid() ==> refs == old(refs) - multiset{old(Record(cells))[slot]})
                && LeftBehind(old(cells), i)
    {
      RecordLookup(cells, slot);
      var i := 0;
      while i != count
        invariant 0 <= i <= count && forall j :: 0 <= j < i ==> cells[j].value.slot != slot
        invariant unchanged(this)
      {
        if cells[i].value.slot == slot {
          TakeOut(i);
          return 0;
        }
        i := i + 1;
      }
      code := 1;
    }

    /**
     What deleting entry `i` leaves: the entries in front of it in their places, those behind it but the last one place
     further in front, and a cell that is no longer defined; or memory that was freed, if it was the only entry.
     */
    ghost predicate LeftBehind(was: seq<Cell<C>>, i: nat)
      reads this
    {
      if i >= |was| then false
      else if |was| == 1 then freed && count == 1 && cells == was
      else
        && !freed && count == |cells| == |was| - 1
        && (forall j :: 0 <= j < i ==> cells[j] == was[j])
        && (forall j :: i <= j < |cells| - 1 ==> cells[j] == was[j + 1])
        && (i < |cells| ==> cells[|cells| - 1] == None)
    }

    /** Cuts the memory short, then moves the entries behind `i`; the reference of entry `i` is dropped. */
    method TakeOut(i: nat)
      requires Valid() && i < count
      modifies this
      ensures Valid() <==> i == old(count) - 1 && old(count) > 1
      ensures var e := old(cells)[i].value;
              Valid() ==> Record(cells) == old(Record(cells)) - {e.slot} && refs == old(refs) - multiset{e.callback}
      ensures LeftBehind(old(cells), i)
    {
      ghost var e := cells[i].value;
      CutInOrder(cells, refs, i);
      CutLeaves(cells, i);
      refs := refs - multiset{e.callback};
      var newSize := count - 1;
      if newSize > 0 {
        cells := Cut(cells, i);
        count := newSize;
      } else {
        freed := true;
      }
    }

    // ----- the collector's view

    /** The callbacks a visit reports: each reference the table owns, once. */
    method Visit() returns (reported: seq<C>)
      requires Valid()
      ensures multiset(reported) == refs && reported == Callbacks(cells)
      ensures |reported| == count && forall i :: 0 <= i < count ==> reported[i] == cells[i].value.callback
    {
      reported := [];
      var i := 0;
      while i != count
        invariant 0 <= i <= count && reported == Callbacks(cells[..i])
      {
        CallbackNext(cells, i);
        reported := reported + [cells[i].value.callback];
        i := i + 1;
      }
      assert cells[..count] == cells;
      CallbacksAt(cells);
    }

    /** Drops the references one by one, each while it is still owned, and frees the memory. */
    method Quit() returns (released: seq<C>)
      requires Valid()
      modifies this`refs, this`freed
      ensures released == Callbacks(cells) && multiset(released) == old(refs) && refs == multiset{} && freed
      ensures |released| == count && forall i :: 0 <= i < count ==> released[i] == cells[i].value.callback
    {
      released := [];
      var i := 0;
      while i != count
        invariant 0 <= i <= count && released == Callbacks(cells[..i]) && refs == multiset(Callbacks(cells[i..]))
      {
        var callback := cells[i].value.callback;
        FirstCallback(cells[i..]);
        assert cells[i..][1..] == cells[i + 1..];
        CallbackNext(cells, i);
        assert callback in refs;
        refs := refs - multiset{callback};
        released := released + [callback];
        i := i + 1;
      }
      assert cells[..count] == cells && cells[count..] == [];
      CallbacksAt(cells);
      freed := true;
    }

    /** Afterwards the table is one that can be visited again: it is empty. */
    method Clear() returns (released: seq<C>)
      requires Valid()
      modifies this
      ensures Valid() && Record(cells) == map[] && refs == multiset{} && multiset(released) == old(refs)
    {
      released := Quit();
      count, cells, freed := 0, [], false;
    }
  }

  /** The callbacks of defined cells are those in the cells, one by one. */
  lemma {:induction false} CallbacksAt<C>(cells: seq<Cell<C>>)
    requires Defined(cells)
    ensures |Callbacks(cells)| == |cells|
    ensures forall i :: 0 <= i < |cells| ==> Callbacks(cells)[i] == cells[i].value.callback
  {
    if cells != [] {
      CallbacksAt(cells[1..]);
    }
  }

  lemma {:induction false} CallbacksConcat<C>(a: seq<Cell<C>>, b: seq<Cell<C>>)
    ensures Callbacks(a + b) == Callbacks(a) + Callbacks(b)
  {
    if a == [] {
      assert a + b == b;
    } else {
      assert (a + b)[1..] == a[1..] + b;
      CallbacksConcat(a[1..], b);
    }
  }

  lemma OneCallback<C>(e: Entry<C>)
    ensures Callbacks([Some(e)]) == [e.callback]
  {
    assert [Cell<C>.Some(e)][1..] == [];
  }

  lemma CallbackNext<C>(cells: seq<Cell<C>>, i: nat)
    requires i < |cells| && cells[i].Some?
    ensures Callbacks(cells[..i + 1]) == Callbacks(cells[..i]) + [cells[i].value.callback]
  {
    assert cells[..i + 1] == cells[..i] + [cells[i]];
    CallbacksConcat(cells[..i], [cells[i]]);
    OneCallback(cells[i].value);
  }

  lemma FirstCallback<C>(cells: seq<Cell<C>>)
    requires cells != [] && cells[0].Some?
    ensures multiset(Callbacks(cells)) == multiset{cells[0].value.callback} + multiset(Callbacks(cells[1..]))
  {
  }

  lemma RecordSnoc<C>(init: seq<Cell<C>>, e: Entry<C>)
    ensures Record(init + [Some(e)]) == Record(init)[e.slot := e.callback]
  {
    assert (init + [Some(e)])[..|init|] == init;
  }

  lemma LastSlotNew<C>(init: seq<Cell<C>>, e: Entry<C>)
    requires Defined(init + [Some(e)]) && OnePerSlot(init + [Some(e)])
    ensures Defined(init) && OnePerSlot(init) && e.slot !in Record(init)
  {
    var all := init + [Some(e)];
    assert forall i :: 0 <= i < |init| ==> init[i] == all[i];
    assert all[|init|] == Some(e);
    forall j | 0 <= j < |init| ensures init[j].value.slot != e.slot {
      assert all[j] == init[j];
    }
    RecordLookup(init, e.slot);
  }

  /** What the table is without its last cell. */
  lemma WithoutLast<C>(init: seq<Cell<C>>, e: Entry<C>)
    requires Defined(init + [Some(e)]) && OnePerSlot(init + [Some(e)])
    ensures Defined(init) && OnePerSlot(init)
    ensures Record(init) == Record(init + [Some(e)]) - {e.slot}
    ensures multiset(Callbacks(init)) == multiset(Callbacks(init + [Some(e)])) - multiset{e.callback}
  {
    LastSlotNew(init, e);
    RecordSnoc(init, e);
    LastCallback(init, e);
  }

  lemma CutInOrder<C>(cells: seq<Cell<C>>, refs: multiset<C>, i: nat)
    requires InOrder(cells, refs) && i < |cells|
    ensures var (e, after) := (cells[i].value, Cut(cells, i));
            && (i < |cells| - 1 ==> !Defined(after))
            && (i == |cells| - 1 ==>
                  InOrder(after, refs - multiset{e.callback}) && Record(after) == Record(cells) - {e.slot})
  {
    if i == |cells| - 1 {
      CutLast(cells, refs);
    } else {
      CutLeaves(cells, i);
    }
  }

  lemma CutLast<C>(cells: seq<Cell<C>>, refs: multiset<C>)
    requires InOrder(cells, refs) && cells != []
    ensures var (e, after) := (cells[|cells| - 1].value, cells[..|cells| - 1]);
            InOrder(after, refs - multiset{e.callback}) && Record(after) == Record(cells) - {e.slot}
  {
    var after := cells[..|cells| - 1];
    assert cells == after + [Some(cells[|cells| - 1].value)];
    WithoutLast(after, cells[|cells| - 1].value);
  }

  /** Where the entries are afterwards. */
  lemma CutLeaves<C>(cells: seq<Cell<C>>, i: nat)
    requires i < |cells|
    ensures var after := Cut(cells, i);
            && (forall j :: 0 <= j < i ==> after[j] == cells[j])
            && (forall j :: i <= j < |after| - 1 ==> after[j] == cells[j + 1])
            && (i < |after| ==> after[|after| - 1] == None)
  {
  }

  lemma LastCallback<C>(init: seq<Cell<C>>, e: Entry<C>)
    ensures multiset(Callbacks(init + [Some(e)])) == multiset(Callbacks(init)) + multiset{e.callback}
  {
    CallbacksConcat(init, [Some(e)]);
    OneCallback(e);
  }

  lemma AppendCell<C>(cells: seq<Cell<C>>, refs: multiset<C>, e: Entry<C>)
    requires InOrder(cells, refs) && forall j :: 0 <= j < |cells| ==> cells[j].value.slot != e.slot
    ensures var more := cells + [Some(e)];
            InOrder(more, refs + multiset{e.callback}) && Record(more) == Record(cells)[e.slot := e.callback]
  {
    RecordSnoc(cells, e);
    LastCallback(cells, e);
  }

  lemma {:induction false} ReplaceRecord<C>(cells: seq<Cell<C>>, i: nat, callback: C)
    requires Defined(cells) && OnePerSlot(cells) && i < |cells|
    ensures var e := cells[i].value;
            Record(cells[i := Some(Entry(e.slot, callback))]) == Record(cells)[e.slot := callback]
    decreases |cells|
  {
    var (init, last) := (cells[..|cells| - 1], cells[|cells| - 1].value);
    var (e, now) := (cells[i].value, cells[i := Some(Entry(cells[i].value.slot, callback))]);
    if i < |init| {
      ReplaceRecord(init, i, callback);
      assert now[..|now| - 1] == init[i := Some(Entry(e.slot, callback))];
      assert last.slot != e.slot;
    } else {
      assert now[..|now| - 1] == init;
    }
  }

  lemma ReplaceCallback<C>(cells: seq<Cell<C>>, i: nat, callback: C)
    requires Defined(cells) && i < |cells|
    ensures var e := cells[i].value;
            multiset(Callbacks(cells[i := Some(Entry(e.slot, callback))]))
              == (multiset(Callbacks(cells)) + multiset{callback}) - multiset{e.callback}
  {
    var (a, e, b) := (cells[..i], cells[i].value, cells[i + 1..]);
    var f := Entry(e.slot, callback);
    assert cells == (a + [Some(e)]) + b && cells[i := Some(f)] == (a + [Some(f)]) + b;
    CallbacksConcat(a + [Some(e)], b);
    CallbacksConcat(a + [Some(f)], b);
    LastCallback(a, e);
    LastCallback(a, f);
  }

  lemma ReplaceCell<C>(cells: seq<Cell<C>>, refs: multiset<C>, i: nat, callback: C)
    requires InOrder(cells, refs) && i < |cells|
    ensures var (e, now) := (cells[i].value, cells[i := Some(Entry(cells[i].value.slot, callback))]);
            && InOrder(now, (refs + multiset{callback}) - multiset{e.callback})
            && Record(now) == Record(cells)[e.slot := callback]
  {
    ReplaceRecord(cells, i, callback);
    ReplaceCallback(cells, i, callback);
  }
}
