/** `BigIntVector`: a nullable vector of Java longs over two buffers, a packed
    validity bitmap and a value buffer of 8-byte slots. */
module Vectors {
  import opened JavaTypes
  import opened Holders
  import Bitmap
  import M = BigIntModel

  /** The capacity the growth step reaches for `index`: the current capacity
      doubled (from 1 when empty) until it exceeds `index`. */
  function GrownCapacity(capacity: nat, index: nat): (r: nat)
    ensures r > index && r >= capacity
    decreases index + 1 - capacity
  {
    if capacity > index then capacity
    else GrownCapacity(if capacity == 0 then 1 else 2 * capacity, index)
  }

  class BigIntVector {
    /** Whether `get` refuses to read a null slot; fixed for the whole run of
        the program. */
    const nullCheckingEnabled: bool
    var validityBuffer: array<bv8>
    var valueBuffer: array<Long>

    /** The bitmap has a bit for every slot, and the two buffers are
        distinct objects. */
    ghost predicate Valid()
      reads this
    {
      valueBuffer.Length <= validityBuffer.Length * 8 &&
      validityBuffer as object != valueBuffer as object
    }

    /** The number of elements both buffers can hold. */
    function Capacity(): nat
      reads this
    {
      valueBuffer.Length
    }

    /** The abstract content of the two buffers, element by element. */
    ghost function Model(): (c: M.Column)
      reads this, validityBuffer, valueBuffer
      requires Valid()
      ensures M.Wf(c) && M.Capacity(c) == Capacity()
    {
      M.Column(Bitmap.View(validityBuffer[..], valueBuffer.Length), valueBuffer[..])
    }

    /** A new vector allocates no memory: its capacity is zero. */
    constructor (nullCheckingEnabled: bool)
      ensures Valid() && this.nullCheckingEnabled == nullCheckingEnabled
      ensures Model() == M.Column([], [])
    {
      this.nullCheckingEnabled := nullCheckingEnabled;
      validityBuffer := new bv8[0];
      valueBuffer := new Long[0];
    }

    /** The validity bit of `index` as an int: 1 when valid, 0 when null. */
    method IsSet(index: nat) returns (bit: int)
      requires Valid() && index < Capacity()
      ensures bit == 1 <==> Model().validity[index]
      ensures bit == 0 <==> !Model().validity[index]
    {
      var b := validityBuffer[Bitmap.ByteIndex(index)];
      bit := if b & Bitmap.Mask(index % 8) != 0 then 1 else 0;
    }

    // -------------------------------------------------------------------
    // Readers

    /** `get(index)`: IllegalState on a null slot when null checking is
        enabled, the stored long otherwise. */
    method Get(index: nat) returns (r: Result<Long>)
      requires Valid() && index < Capacity()
      ensures r == M.Get(Model(), index, nullCheckingEnabled)
    {
      var bit := IsSet(index);
      if nullCheckingEnabled && bit == 0 {
        return Err(IllegalState);
      }
      return Ok(valueBuffer[index]);
    }

    /** `get(index, holder)`: a null slot sets `holder.isSet` to 0 and leaves
        `holder.value` alone; a valid slot sets `isSet` to 1 and copies the
        stored long. */
    method GetInto(index: nat, holder: NullableBigIntHolder)
      requires Valid() && index < Capacity()
      modifies holder
      ensures Model().validity[index] ==> holder.isSet == 1 && holder.value == Model().values[index]
      ensures !Model().validity[index] ==> holder.isSet == 0 && holder.value == old(holder.value)
    {
      var bit := IsSet(index);
      if bit == 0 {
        holder.isSet := 0;
        return;
      }
      holder.isSet := 1;
      holder.value := valueBuffer[index];
    }

    /** `getObject(index)`: `null` on a null slot, the stored long otherwise. */
    method GetObject(index: nat) returns (r: Option<Long>)
      requires Valid() && index < Capacity()
      ensures r == M.GetObject(Model(), index)
    {
      var bit := IsSet(index);
      if bit == 0 {
        return None;
      }
      return Some(valueBuffer[index]);
    }

    /** `getValueAsLong(index)`: the same as `get(index)`. */
    method GetValueAsLong(index: nat) returns (r: Result<Long>)
      requires Valid() && index < Capacity()
      ensures r == M.Get(Model(), index, nullCheckingEnabled)
    {
      r := Get(index);
    }

    /** The static `get(buffer, index)`: the long in slot `index` of a value
        buffer, whatever the validity of that element. */
    static method GetFromBuffer(buffer: array<Long>, index: nat) returns (r: Long)
      requires index < buffer.Length
      ensures r == buffer[index]
      ensures forall v: BigIntVector :: v.Valid() && v.valueBuffer == buffer ==>
                M.Get(v.Model(), index, false) == Ok(r)
    {
      r := buffer[index];
    }

    // -------------------------------------------------------------------
    // Setters that assume `index` is within capacity

    /** `setValue(index, value)`: write the slot, leave the bitmap alone. */
    method SetValue(index: nat, value: Long)
      requires Valid() && index < Capacity()
      modifies valueBuffer
      ensures Valid() && Model() == M.WriteSlot(old(Model()), index, value)
    {
      valueBuffer[index] := value;
      assert valueBuffer[..] == old(valueBuffer[..])[index := value];
    }

    /** Set the validity bit of `index`. */
    method SetBit(index: nat)
      requires Valid() && index < Capacity()
      modifies validityBuffer
      ensures Valid() && Model() == old(Model()).(validity := old(Model()).validity[index := true])
    {
      Bitmap.ViewSetBit(validityBuffer[..], valueBuffer.Length, index);
      var k := Bitmap.ByteIndex(index);
      validityBuffer[k] := validityBuffer[k] | Bitmap.Mask(index % 8);
      assert validityBuffer[..] == Bitmap.SetBit(old(validityBuffer[..]), index);
    }

    /** Clear the validity bit of `index`. */
    method UnsetBit(index: nat)
      requires Valid() && index < Capacity()
      modifies validityBuffer
      ensures Valid() && Model() == M.Unset(old(Model()), index)
    {
      Bitmap.ViewUnsetBit(validityBuffer[..], valueBuffer.Length, index);
      var k := Bitmap.ByteIndex(index);
      validityBuffer[k] := validityBuffer[k] & !Bitmap.Mask(index % 8);
      assert validityBuffer[..] == Bitmap.UnsetBit(old(validityBuffer[..]), index);
    }

    /** `set(index, value)`: mark `index` valid and store `value`. */
    method Set(index: nat, value: Long)
      requires Valid() && index < Capacity()
      modifies validityBuffer, valueBuffer
      ensures Valid() && Model() == M.Set(old(Model()), index, value)
    {
      SetBit(index);
      SetValue(index, value);
    }

    /** `set(index, holder)` for a nullable holder: IllegalArgument, with both
        buffers untouched, when `holder.isSet` is negative. */
    method SetNullable(index: nat, holder: NullableBigIntHolder) returns (outcome: Outcome)
      requires Valid() && index < Capacity()
      modifies validityBuffer, valueBuffer
      ensures Valid()
      ensures outcome.Threw? ==> unchanged(validityBuffer, valueBuffer)
      ensures M.SetNullable(old(Model()), index, holder.isSet, holder.value)
              == if outcome.Completed? then Ok(Model()) else Err(outcome.error)
    {
      if holder.isSet < 0 {
        return Threw(IllegalArgument);
      } else if holder.isSet > 0 {
        SetBit(index);
        SetValue(index, holder.value);
      } else {
        UnsetBit(index);
      }
      return Completed;
    }

    /** `set(index, holder)` for a holder that is always set. */
    method SetHolder(index: nat, holder: BigIntHolder)
      requires Valid() && index < Capacity()
      modifies validityBuffer, valueBuffer
      ensures Valid() && Model() == M.Set(old(Model()), index, holder.value)
    {
      SetBit(index);
      SetValue(index, holder.value);
    }

    /** `set(index, isSet, value)`: a positive `isSet` sets the value,
        anything else only clears the validity bit. */
    method SetWithIsSet(index: nat, isSet: int, value: Long)
      requires Valid() && index < Capacity()
      modifies validityBuffer, valueBuffer
      ensures Valid() && Model() == M.SetIsSet(old(Model()), index, isSet, value)
    {
      if isSet > 0 {
        Set(index, value);
      } else {
        UnsetBit(index);
      }
    }

    /** `setUnsafeWithPossibleTruncate(index, value)`: the same as
        `set(index, value)`. */
    method SetUnsafeWithPossibleTruncate(index: nat, value: Long)
      requires Valid() && index < Capacity()
      modifies validityBuffer, valueBuffer
      ensures Valid() && Model() == M.Set(old(Model()), index, value)
    {
      Set(index, value);
    }

    // -------------------------------------------------------------------
    // Growth and the setters that grow first

    /** The growth step run by every `setSafe`: afterwards `index` is within
        capacity, and every element below the old capacity keeps its validity
        bit and its slot. */
    method HandleSafe(index: nat)
      requires Valid()
      modifies this
      ensures Valid() && M.Grown(old(Model()), Model(), index)
      ensures validityBuffer == old(validityBuffer) || fresh(validityBuffer)
      ensures valueBuffer == old(valueBuffer) || fresh(valueBuffer)
      ensures index < old(Capacity()) ==> Model() == old(Model())
    {
      if index < valueBuffer.Length {
        M.NoGrowthNeeded(Model(), index);
        return;
      }
      var oldBits, oldSlots := validityBuffer[..], valueBuffer[..];
      var capacity := GrownCapacity(valueBuffer.Length, index);
      var byteCount := (capacity + 7) / 8;
      var bits := new bv8[byteCount](i requires 0 <= i < byteCount =>
        if i < |oldBits| then oldBits[i] else 0);
      var slots := new Long[capacity](i requires 0 <= i < capacity =>
        if i < |oldSlots| then oldSlots[i] else 0);
      validityBuffer, valueBuffer := bits, slots;
      ghost var before := old(Model());
      forall j | 0 <= j < |oldSlots|
        ensures Model().validity[j] == before.validity[j]
      {
        assert bits[Bitmap.ByteIndex(j)] == oldBits[Bitmap.ByteIndex(j)];
      }
      assert Model().validity[..|oldSlots|] == before.validity;
      assert Model().values[..|oldSlots|] == before.values;
    }

    /** `setSafe(index, value)`: grow for `index`, then `set(index, value)`. */
    method SetSafe(index: nat, value: Long) returns (ghost grown: M.Column)
      requires Valid()
      modifies this, validityBuffer, valueBuffer
      ensures Valid() && M.Grown(old(Model()), grown, index)
      ensures index < old(Capacity()) ==> grown == old(Model())
      ensures Model() == M.Set(grown, index, value)
    {
      HandleSafe(index);
      grown := Model();
      Set(index, value);
    }

    /** `setSafe(index, holder)` for a nullable holder: the growth happens
        even when the holder is then rejected. */
    method SetSafeNullable(index: nat, holder: NullableBigIntHolder)
      returns (outcome: Outcome, ghost grown: M.Column)
      requires Valid()
      modifies this, validityBuffer, valueBuffer
      ensures Valid() && M.Grown(old(Model()), grown, index)
      ensures index < old(Capacity()) ==> grown == old(Model())
      ensures outcome.Threw? ==> Model() == grown
      ensures M.SetNullable(grown, index, holder.isSet, holder.value)
              == if outcome.Completed? then Ok(Model()) else Err(outcome.error)
    {
      HandleSafe(index);
      grown := Model();
      outcome := SetNullable(index, holder);
    }

    /** `setSafe(index, holder)` for a holder that is always set. */
    method SetSafeHolder(index: nat, holder: BigIntHolder) returns (ghost grown: M.Column)
      requires Valid()
      modifies this, validityBuffer, valueBuffer
      ensures Valid() && M.Grown(old(Model()), grown, index)
      ensures index < old(Capacity()) ==> grown == old(Model())
      ensures Model() == M.Set(grown, index, holder.value)
    {
      HandleSafe(index);
      grown := Model();
      SetHolder(index, holder);
    }

    /** `setSafe(index, isSet, value)`: grow, then `set(index, isSet, value)`. */
    method SetSafeWithIsSet(index: nat, isSet: int, value: Long) returns (ghost grown: M.Column)
      requires Valid()
      modifies this, validityBuffer, valueBuffer
      ensures Valid() && M.Grown(old(Model()), grown, index)
      ensures index < old(Capacity()) ==> grown == old(Model())
      ensures Model() == M.SetIsSet(grown, index, isSet, value)
    {
      HandleSafe(index);
      grown := Model();
      SetWithIsSet(index, isSet, value);
    }

    /** `setWithPossibleTruncate(index, value)`: the same as
        `setSafe(index, value)`. */
    method SetWithPossibleTruncate(index: nat, value: Long) returns (ghost grown: M.Column)
      requires Valid()
      modifies this, validityBuffer, valueBuffer
      ensures Valid() && M.Grown(old(Model()), grown, index)
      ensures index < old(Capacity()) ==> grown == old(Model())
      ensures Model() == M.Set(grown, index, value)
    {
      grown := SetSafe(index, value);
    }
  }
}
