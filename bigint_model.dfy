/** The abstract state of a nullable 64-bit integer vector and the effect of
    each of its accessors on that state. `BigIntVector` in vector.dfy is proved
    to implement these functions over its two buffers. */
module BigIntModel {
  import opened JavaTypes

  /** Bytes per value slot: element `i` occupies bytes `[i * 8, i * 8 + 8)` of
      the value buffer. */
  const TYPE_WIDTH: nat := 8

  /** The byte offset of the slot of element `index`, computed in `long`
      arithmetic; for every Java `int` index the whole slot lies within the
      range of a `long`, so the offset never wraps. Computed in `int`
      arithmetic instead, it would overflow from index 2^28 on. */
  function SlotOffset(index: nat): (off: nat)
    requires index <= MAX_INT
    ensures off + TYPE_WIDTH - 1 <= MAX_LONG
    ensures off > MAX_INT <==> index >= 0x1000_0000
  {
    index * TYPE_WIDTH
  }

  /** Every byte of the slot of element `index` belongs to that slot alone:
      the element whose slot holds byte `b` is `b / TYPE_WIDTH`. Slots of two
      distinct elements are therefore disjoint. */
  lemma SlotOwnsItsBytes(index: nat, b: nat)
    requires index <= MAX_INT
    requires SlotOffset(index) <= b < SlotOffset(index) + TYPE_WIDTH
    ensures b / TYPE_WIDTH == index
  {
    var r := b - index * TYPE_WIDTH;
    assert b == index * TYPE_WIDTH + r && 0 <= r < TYPE_WIDTH;
  }

  lemma SlotsDisjoint(i: nat, j: nat, b: nat)
    requires i <= MAX_INT && j <= MAX_INT && i != j
    requires SlotOffset(i) <= b < SlotOffset(i) + TYPE_WIDTH
    ensures !(SlotOffset(j) <= b < SlotOffset(j) + TYPE_WIDTH)
  {
    SlotOwnsItsBytes(i, b);
    if SlotOffset(j) <= b < SlotOffset(j) + TYPE_WIDTH {
      SlotOwnsItsBytes(j, b);
    }
  }

  /** The contents of the vector up to its capacity: for each slot, its
      validity bit and the long stored in its value slot (which a null slot
      keeps, but readers must not rely on). */
  datatype Column = Column(validity: seq<bool>, values: seq<Long>)

  predicate Wf(c: Column) { |c.validity| == |c.values| }

  function Capacity(c: Column): nat requires Wf(c) { |c.values| }

  /** `get(index)`: the stored long, or IllegalState on a null slot when null
      checking is enabled. */
  function Get(c: Column, index: nat, nullCheckingEnabled: bool): Result<Long>
    requires Wf(c) && index < Capacity(c)
  {
    if nullCheckingEnabled && !c.validity[index] then Err(IllegalState)
    else Ok(c.values[index])
  }

  /** `getObject(index)`: `null` on a null slot, the stored long otherwise. */
  function GetObject(c: Column, index: nat): Option<Long>
    requires Wf(c) && index < Capacity(c)
  {
    if !c.validity[index] then None else Some(c.values[index])
  }

  /** `setValue(index, value)`: overwrite the value slot only. */
  function WriteSlot(c: Column, index: nat, value: Long): Column
    requires Wf(c) && index < Capacity(c)
  {
    c.(values := c.values[index := value])
  }

  /** Clear the validity bit of `index` only. */
  function Unset(c: Column, index: nat): Column
    requires Wf(c) && index < Capacity(c)
  {
    c.(validity := c.validity[index := false])
  }

  /** `set(index, value)`: mark `index` valid and store `value` in its slot. */
  function Set(c: Column, index: nat, value: Long): Column
    requires Wf(c) && index < Capacity(c)
  {
    WriteSlot(c.(validity := c.validity[index := true]), index, value)
  }

  /** `set(index, isSet, value)`: a positive `isSet` sets the value, anything
      else only clears the validity bit. */
  function SetIsSet(c: Column, index: nat, isSet: int, value: Long): Column
    requires Wf(c) && index < Capacity(c)
  {
    if isSet > 0 then Set(c, index, value) else Unset(c, index)
  }

  /** `set(index, holder)` for a nullable holder with fields `isSet` and
      `value`: a negative `isSet` is rejected before anything changes. */
  function SetNullable(c: Column, index: nat, isSet: int, value: Long): Result<Column>
    requires Wf(c) && index < Capacity(c)
  {
    if isSet < 0 then Err(IllegalArgument)
    else if isSet > 0 then Ok(Set(c, index, value))
    else Ok(Unset(c, index))
  }

  /** What the growth step before every `setSafe` promises: `index` is now
      within capacity, the capacity did not shrink, and every slot and
      validity bit below the old capacity is unchanged. */
  predicate Grown(c: Column, g: Column, index: nat) {
    Wf(c) && Wf(g) &&
    index < Capacity(g) && Capacity(c) <= Capacity(g) &&
    g.validity[..Capacity(c)] == c.validity &&
    g.values[..Capacity(c)] == c.values
  }

  // ---------------------------------------------------------------------
  // Properties of single accessors

  /** After `set(index, value)` the element is valid and every reader returns
      `value`. */
  lemma GetAfterSet(c: Column, index: nat, value: Long, nullCheckingEnabled: bool)
    requires Wf(c) && index < Capacity(c)
    ensures Wf(Set(c, index, value)) && Capacity(Set(c, index, value)) == Capacity(c)
    ensures Set(c, index, value).validity[index]
    ensures Get(Set(c, index, value), index, nullCheckingEnabled) == Ok(value)
    ensures GetObject(Set(c, index, value), index) == Some(value)
  {
  }

  /** `set(index, value)` changes only the validity bit and the slot of
      `index`. */
  lemma SetKeepsOtherIndices(c: Column, index: nat, value: Long, j: nat)
    requires Wf(c) && index < Capacity(c) && j < Capacity(c) && j != index
    ensures Set(c, index, value).validity[j] == c.validity[j]
    ensures Set(c, index, value).values[j] == c.values[j]
  {
  }

  /** Clearing the validity bit of `index` changes no slot and no other bit. */
  lemma UnsetKeepsSlots(c: Column, index: nat, j: nat)
    requires Wf(c) && index < Capacity(c) && j < Capacity(c)
    ensures Unset(c, index).values == c.values
    ensures Unset(c, index).validity[j] == (j != index && c.validity[j])
  {
  }

  /** `set(index, isSet, value)`: a positive `isSet` is exactly
      `set(index, value)`; otherwise the bit is cleared and the old slot
      content stays. */
  lemma SetIsSetCases(c: Column, index: nat, isSet: int, value: Long)
    requires Wf(c) && index < Capacity(c)
    ensures isSet > 0 ==> SetIsSet(c, index, isSet, value) == Set(c, index, value)
    ensures isSet <= 0 ==> SetIsSet(c, index, isSet, value).values == c.values
    ensures isSet <= 0 ==> SetIsSet(c, index, isSet, value).validity == c.validity[index := false]
  {
  }

  /** `set(index, holder)`: a negative `isSet` throws IllegalArgument, zero
      clears the bit only, a positive value stores `holder.value`. */
  lemma SetNullableCases(c: Column, index: nat, isSet: int, value: Long)
    requires Wf(c) && index < Capacity(c)
    ensures isSet < 0 <==> SetNullable(c, index, isSet, value) == Err(IllegalArgument)
    ensures isSet == 0 ==> SetNullable(c, index, isSet, value) == Ok(Unset(c, index))
    ensures isSet > 0 ==> SetNullable(c, index, isSet, value) == Ok(Set(c, index, value))
    ensures isSet >= 0 ==> SetNullable(c, index, isSet, value) == Ok(SetIsSet(c, index, isSet, value))
  {
  }

  /** `get(index)` fails exactly on a null slot when null checking is enabled,
      always with IllegalState, and otherwise returns the stored slot. */
  lemma GetFailsExactlyOnNull(c: Column, index: nat, nullCheckingEnabled: bool)
    requires Wf(c) && index < Capacity(c)
    ensures Get(c, index, nullCheckingEnabled).Err?
            <==> nullCheckingEnabled && !c.validity[index]
    ensures Get(c, index, nullCheckingEnabled).Err? ==>
              Get(c, index, nullCheckingEnabled).error == IllegalState
    ensures Get(c, index, nullCheckingEnabled).Ok? ==>
              Get(c, index, nullCheckingEnabled).value == c.values[index]
  {
  }

  /** `getObject(index)` is `null` exactly on a null slot, and otherwise agrees
      with `get(index)` whether or not null checking is enabled. */
  lemma GetObjectNullIff(c: Column, index: nat, nullCheckingEnabled: bool)
    requires Wf(c) && index < Capacity(c)
    ensures GetObject(c, index).None? <==> !c.validity[index]
    ensures GetObject(c, index).Some? ==>
              Get(c, index, nullCheckingEnabled) == Ok(GetObject(c, index).value)
  {
  }

  /** Nulling a slot through `set(index, 0, value)` does not erase it: with
      null checking enabled `get` refuses the slot, with it disabled `get`
      still returns the old slot content; only the validity bit tells the
      slot is null. */
  lemma NulledSlotKeepsStaleValue(c: Column, index: nat, value: Long)
    requires Wf(c) && index < Capacity(c)
    ensures GetObject(SetIsSet(c, index, 0, value), index) == None
    ensures Get(SetIsSet(c, index, 0, value), index, true) == Err(IllegalState)
    ensures Get(SetIsSet(c, index, 0, value), index, false) == Ok(c.values[index])
  {
  }

  /** A later `set` at the same index overrides an earlier one, and `set`s at
      distinct indices commute. */
  lemma SetLastWriteWins(c: Column, index: nat, x: Long, y: Long)
    requires Wf(c) && index < Capacity(c)
    ensures Set(Set(c, index, x), index, y) == Set(c, index, y)
  {
  }

  lemma SetCommutes(c: Column, i: nat, x: Long, j: nat, y: Long)
    requires Wf(c) && i < Capacity(c) && j < Capacity(c) && i != j
    ensures Set(Set(c, i, x), j, y) == Set(Set(c, j, y), i, x)
  {
  }

  // ---------------------------------------------------------------------
  // setSafe: growth followed by set

  /** `setSafe(index, value)` on a vector grown for `index`: `index` reads back
      as `value` and every element below the old capacity, other than `index`,
      keeps its validity and its slot. */
  lemma SetSafeKeepsPrefix(c: Column, g: Column, index: nat, value: Long, j: nat)
    requires Grown(c, g, index)
    requires j < Capacity(c) && j != index
    ensures GetObject(Set(g, index, value), index) == Some(value)
    ensures Set(g, index, value).validity[j] == c.validity[j]
    ensures Set(g, index, value).values[j] == c.values[j]
  {
    assert g.validity[..Capacity(c)][j] == g.validity[j];
    assert g.values[..Capacity(c)][j] == g.values[j];
  }

  /** Growth for an index already within capacity may leave the vector as it
      is: then `setSafe` is exactly `set`. */
  lemma NoGrowthNeeded(c: Column, index: nat)
    requires Wf(c) && index < Capacity(c)
    ensures Grown(c, c, index)
  {
    assert c.validity[..Capacity(c)] == c.validity;
    assert c.values[..Capacity(c)] == c.values;
  }

  // ---------------------------------------------------------------------
  // A batch of writes

  /** One call `set(index, isSet, value)`. */
  datatype Write = Write(index: nat, isSet: int, value: Long)

  predicate InRange(c: Column, writes: seq<Write>)
    requires Wf(c)
  {
    forall k :: 0 <= k < |writes| ==> writes[k].index < Capacity(c)
  }

  /** The column after applying `writes` in order. */
  function Replay(c: Column, writes: seq<Write>): (r: Column)
    requires Wf(c) && InRange(c, writes)
    ensures Wf(r) && Capacity(r) == Capacity(c)
    decreases |writes|
  {
    if writes == [] then c
    else
      var w := writes[|writes| - 1];
      SetIsSet(Replay(c, writes[..|writes| - 1]), w.index, w.isSet, w.value)
  }

  /** Reference reading of element `j` after `writes`: decided by the last
      write to `j`, or by the initial column when there is none. */
  function LastObject(c: Column, writes: seq<Write>, j: nat): Option<Long>
    requires Wf(c) && j < Capacity(c)
    decreases |writes|
  {
    if writes == [] then GetObject(c, j)
    else
      var w := writes[|writes| - 1];
      if w.index == j then (if w.isSet > 0 then Some(w.value) else None)
      else LastObject(c, writes[..|writes| - 1], j)
  }

  /** Reference content of the slot of `j` after `writes`: the last value
      written to `j` with a positive `isSet`, or the initial slot. */
  function LastSlot(c: Column, writes: seq<Write>, j: nat): Long
    requires Wf(c) && j < Capacity(c)
    decreases |writes|
  {
    if writes == [] then c.values[j]
    else
      var w := writes[|writes| - 1];
      if w.index == j && w.isSet > 0 then w.value
      else LastSlot(c, writes[..|writes| - 1], j)
  }

  /** After any batch of writes, each element reads as its last write decided,
      and elements nobody wrote keep their initial state. */
  lemma {:induction false} ReplayObject(c: Column, writes: seq<Write>, j: nat)
    requires Wf(c) && InRange(c, writes) && j < Capacity(c)
    ensures GetObject(Replay(c, writes), j) == LastObject(c, writes, j)
    decreases |writes|
  {
    if writes != [] {
      var prefix := writes[..|writes| - 1];
      assert InRange(c, prefix) by {
        forall k | 0 <= k < |prefix| ensures prefix[k].index < Capacity(c) {
          assert prefix[k] == writes[k];
        }
      }
      ReplayObject(c, prefix, j);
    }
  }

  /** After any batch of writes, each slot holds the last value written to it
      with a positive `isSet`: nulling writes never touch a slot. */
  lemma {:induction false} ReplaySlot(c: Column, writes: seq<Write>, j: nat)
    requires Wf(c) && InRange(c, writes) && j < Capacity(c)
    ensures Replay(c, writes).values[j] == LastSlot(c, writes, j)
    decreases |writes|
  {
    if writes != [] {
      var prefix := writes[..|writes| - 1];
      assert InRange(c, prefix) by {
        forall k | 0 <= k < |prefix| ensures prefix[k].index < Capacity(c) {
          assert prefix[k] == writes[k];
        }
      }
      ReplaySlot(c, prefix, j);
    }
  }
}
