/** The growable array of pending messages or received ids, and the cost of growing it. */
module DynamicArrays {
  import opened Words
  import opened Messages
  import opened InterpolationSearch

  // ----- Growth, abstractly -----

  // How far an array has grown: `copied` adds up the slots moved by every resize so far.
  datatype Growth = Growth(size: nat, capacity: nat, appended: nat, copied: nat)

  function Grown(capacity: nat): nat {
    capacity + capacity / 2
  }

  function AfterAppend(g: Growth): Growth {
    if g.size == g.capacity
    then Growth(g.size + 1, Grown(g.capacity), g.appended + 1, g.copied + g.size)
    else g.(size := g.size + 1, appended := g.appended + 1)
  }

  datatype Op = Append | Remove | Clear

  function AfterOp(g: Growth, op: Op): Growth {
    match op
    case Append => AfterAppend(g)
    case Remove => if g.size == 0 then g else g.(size := g.size - 1)
    case Clear => g.(size := 0)
  }

  function AfterOps(g: Growth, ops: seq<Op>): Growth {
    if ops == [] then g else AfterOp(AfterOps(g, ops[..|ops| - 1]), ops[|ops| - 1])
  }

  // What keeps the copying cheap: at most three copies per slot gained, four per element appended.
  predicate Balanced(g: Growth, initial: nat) {
    && g.size <= g.capacity
    && g.size <= g.appended
    && initial <= g.capacity
    && g.copied + 3 * initial <= 3 * g.capacity
    && g.copied <= 4 * g.appended
  }

  // A resize makes room exactly when the capacity is at least two.
  lemma GrowsIffTwo(capacity: nat)
    ensures Grown(capacity) > capacity <==> capacity >= 2
  {
  }

  // The capacity grows by half, rounded down.
  lemma GrownByHalf(capacity: nat)
    ensures 2 * Grown(capacity) <= 3 * capacity < 2 * Grown(capacity) + 2
  {
  }

  // An append into a full array copies what the array holds, any other append copies nothing and keeps the block.
  lemma AppendCost(g: Growth)
    ensures var h := AfterAppend(g);
      && h.size == g.size + 1 && h.appended == g.appended + 1
      && h.copied - g.copied == (if g.size == g.capacity then g.size else 0)
      && (g.size != g.capacity ==> h.capacity == g.capacity)
      && (g.size == g.capacity ==> 2 * h.capacity <= 3 * g.capacity < 2 * h.capacity + 2)
  {
    GrownByHalf(g.capacity);
  }

  // A removal takes one element, if there is one, a clearing all; neither copies, grows or undoes an append.
  lemma OtherOpsAreFree(g: Growth)
    ensures var r, c := AfterOp(g, Remove), AfterOp(g, Clear);
      && r.size == (if g.size > 0 then g.size - 1 else 0) && c.size == 0
      && r.capacity == c.capacity == g.capacity && r.copied == c.copied == g.copied
      && r.appended == c.appended == g.appended
  {
  }

  lemma AppendKeepsBalance(g: Growth, initial: nat)
    requires Balanced(g, initial)
    requires g.size < g.capacity || g.capacity >= 2
    ensures Balanced(AfterAppend(g), initial)
  {
  }

  function Appends(ops: seq<Op>): nat {
    if ops == [] then 0 else Appends(ops[..|ops| - 1]) + if ops[|ops| - 1].Append? then 1 else 0
  }

  // Over any history of appends, removals and clears, all resizes together copy at most four slots per append.
  lemma {:induction false} AmortisedGrowth(initial: nat, ops: seq<Op>)
    requires initial >= 2
    ensures var g := AfterOps(Growth(0, initial, 0, 0), ops);
      Balanced(g, initial) && g.size <= g.capacity && g.copied <= 4 * Appends(ops)
    ensures AfterOps(Growth(0, initial, 0, 0), ops).appended == Appends(ops)
  {
    if ops != [] {
      AmortisedGrowth(initial, ops[..|ops| - 1]);
      var h := AfterOps(Growth(0, initial, 0, 0), ops[..|ops| - 1]);
      AppendKeepsBalance(h, initial);
    }
  }

  // ----- Lookup, abstractly -----

  ghost predicate DistinctIds(s: seq<Element>) {
    forall i, j :: 0 <= i < j < |s| ==> s[i].id != s[j].id
  }

  ghost predicate StrictlyIncreasing(s: seq<Element>) {
    forall i, j :: 0 <= i < j < |s| ==> s[i].id < s[j].id
  }

  // Index of the first element with this id, -1 when there is none.
  function LinearScan(s: seq<Element>, id: Word64): (index: int)
    ensures -1 <= index < |s|
    ensures index != -1 ==> s[index].id == id && forall i :: 0 <= i < index ==> s[i].id != id
    ensures index == -1 <==> !Present(s, id)
  {
    if s == [] then -1
    else if s[0].id == id then 0
    else
      var k := LinearScan(s[1..], id);
      assert forall i :: 1 <= i < |s| ==> s[i] == s[1..][i - 1];
      assert Present(s, id) <==> Present(s[1..], id) by {
        if Present(s, id) {
          var i :| 0 <= i < |s| && s[i].id == id;
          assert s[1..][i - 1].id == id;
        }
      }
      if k == -1 then -1 else k + 1
  }

  function Without(s: seq<Element>, i: nat): seq<Element>
    requires i < |s|
  {
    s[..i] + s[i + 1..]
  }

  // ----- The array itself -----

  datatype Kind = OfIds | OfMessages

  class DynamicArray {
    var data: array<Element>
    var size: nat
    const kind: Kind
    ghost const initial: nat
    ghost var growth: Growth

    ghost predicate Valid()
      reads this, data
    {
      && growth.size == size
      && growth.capacity == data.Length
      && Balanced(growth, initial)
      && forall i :: 0 <= i < size ==> data[i].Msg? == kind.OfMessages?
    }

    ghost function Contents(): (s: seq<Element>)
      requires Valid()
      reads this, data
    {
      data[..size]
    }

    constructor (capacity: nat, kind: Kind)
      ensures Valid() && fresh(data)
      ensures Contents() == [] && this.kind == kind
      ensures data.Length == capacity == initial && growth == Growth(0, capacity, 0, 0)
    {
      data := new Element[capacity];
      size := 0;
      this.kind := kind;
      initial := capacity;
      growth := Growth(0, capacity, 0, 0);
    }

    // realloc to half as much again; the slots in use move over.
    method Resize()
      requires size <= data.Length
      modifies this`data
      ensures fresh(data) && data.Length == old(data.Length + data.Length / 2) == old(Grown(data.Length))
      ensures data[..size] == old(data[..size])
    {
      var bigger := new Element[data.Length + data.Length / 2];
      forall i | 0 <= i < size {
        bigger[i] := data[i];
      }
      data := bigger;
    }

    // The source writes one slot past the block when a full array has capacity 0 or 1.
    method Add(e: Element)
      requires Valid()
      requires e.Msg? == kind.OfMessages?
      requires size < data.Length || data.Length >= 2
      modifies this, data
      ensures Valid() && (data == old(data) || fresh(data))
      ensures Contents() == old(Contents()) + [e]
      ensures growth == AfterOp(old(growth), Append)
      ensures growth.copied == old(growth.copied) + if data == old(data) then 0 else old(|Contents()|)
      ensures data.Length == old(if size < data.Length then data.Length else data.Length + data.Length / 2)
    {
      ghost var was := Contents();
      AppendKeepsBalance(growth, initial);
      growth := AfterAppend(growth);
      if size == data.Length {
        Resize();
      }
      data[size] := e;
      size := size + 1;
      assert data[..size] == was + [e];
      assert forall i :: 0 <= i < |was| ==> data[i] == was[i];
    }

    // Fast search first if asked for, and a linear scan when it finds nothing.
    method Find(id: Word64, useInterpolation: bool) returns (index: int)
      requires Valid()
      ensures -1 <= index < size
      ensures index == -1 <==> !Present(Contents(), id)
      ensures index != -1 ==> data[index].id == id
      ensures DistinctIds(Contents()) || !useInterpolation ==> index == LinearScan(Contents(), id)
    {
      ghost var s := Contents();
      index := -1;
      if useInterpolation {
        ghost var probed;
        index, probed := InterpolateSearch(data, size, id);
      }
      if !useInterpolation || index == -1 {
        var i := 0;
        while i < size
          invariant 0 <= i <= size
          invariant forall k :: 0 <= k < i ==> s[k].id != id
        {
          if data[i].id == id {
            return i;
          }
          i := i + 1;
        }
      } else if DistinctIds(s) {
        ScanFindsTheOnlyOne(s, id, index);
      }
    }

    // remove_element_by_id: the lookup above, then the removal if one is asked for.
    method RemoveById(id: Word64, useInterpolation: bool, remove: bool) returns (index: int)
      requires Valid()
      modifies (if remove then {this, data} else {})
      ensures Valid() && data == old(data)
      ensures -1 <= index < |old(Contents())|
      ensures index == -1 <==> !old(Present(Contents(), id))
      ensures index != -1 ==> old(Contents())[index].id == id
      ensures old(DistinctIds(Contents())) || !useInterpolation ==> index == LinearScan(old(Contents()), id)
      ensures Contents() == if index != -1 && remove then Without(old(Contents()), index) else old(Contents())
      ensures growth == if index != -1 && remove then AfterOp(old(growth), Remove) else old(growth)
    {
      index := Find(id, useInterpolation);
      if index != -1 && remove {
        RemoveAt(index);
      }
    }

    method RemoveAt(index: nat)
      requires Valid() && index < size
      modifies this, data
      ensures Valid() && data == old(data)
      ensures Contents() == Without(old(Contents()), index)
      ensures growth == AfterOp(old(growth), Remove)
    {
      ghost var s := Contents();
      ShiftLeft(index);
      size := size - 1;
      growth := growth.(size := size);
      assert forall i :: 0 <= i < size ==> data[i] == data[..size][i];
    }

    // Moves every element after `index` one slot down.
    method ShiftLeft(index: nat)
      requires index < size <= data.Length
      modifies data
      ensures data[..size - 1] == old(Without(data[..size], index))
    {
      var i := index;
      while i < size - 1
        invariant index <= i <= size - 1
        invariant forall k :: 0 <= k < index ==> data[k] == old(data[k])
        invariant forall k :: index <= k < i ==> data[k] == old(data[k + 1])
        invariant forall k :: i < k < size ==> data[k] == old(data[k])
      {
        data[i] := data[i + 1];
        i := i + 1;
      }
    }

    method CleanAll() returns (count: nat)
      requires Valid()
      modifies this
      ensures Valid() && data == old(data)
      ensures count == |old(Contents())| && Contents() == []
      ensures growth == AfterOp(old(growth), Clear)
    {
      count := 0;
      for i := 0 to size
        invariant count == i
      {
        count := count + 1;
      }
      size := 0;
      growth := growth.(size := 0);
    }
  }

  // On distinct ids any index holding the id is the one a scan from the front finds.
  lemma ScanFindsTheOnlyOne(s: seq<Element>, id: Word64, i: nat)
    requires DistinctIds(s) && i < |s| && s[i].id == id
    ensures LinearScan(s, id) == i
  {
    assert Present(s, id);
  }

  // Removal keeps the order of what remains.
  lemma RemovalKeepsOrder(s: seq<Element>, i: nat)
    requires i < |s| && StrictlyIncreasing(s)
    ensures StrictlyIncreasing(Without(s, i))
    ensures !Present(Without(s, i), s[i].id)
  {
    var r := Without(s, i);
    assert forall k :: 0 <= k < |r| ==> r[k] == if k < i then s[k] else s[k + 1];
  }
}
