# BigIntVector: a verified model of Arrow's nullable 64-bit integer vector

This project models `BigIntVector`, the Java vector of nullable 64-bit
integers of Apache Arrow. A vector holds two buffers that its accessors update
in place:

- a **validity bitmap**, one bit per element, packed least-significant bit
  first (element `i` is bit `i % 8` of byte `i / 8`), where a set bit means
  the element is non-null, as the "Validity bitmaps" section of the Apache
  Arrow Columnar Format lays it out;
- a **value buffer** of 8-byte slots, element `i` at byte `i * 8`, modelled
  as one Java `long` per slot.

Files:

- `java_types.dfy` (module `JavaTypes`): the `long` range, the two
  exceptions the vector throws (`IllegalStateException`,
  `IllegalArgumentException`) as an `Error` value, and `Result`, `Outcome`
  and `Option` (a boxed value that may be `null`).
- `bitmap.dfy` (module `Bitmap`): the packed bitmap, setting and clearing
  one bit, and its per-element view, with the proof that setting or clearing
  a bit changes that element's validity and no other.
- `bigint_model.dfy` (module `BigIntModel`): the abstract content of a
  vector (`Column`: a validity flag and a slot per element), one function
  per accessor, the growth promise `Grown`, and the lemmas about them.
- `holders.dfy` (module `Holders`): `NullableBigIntHolder` and
  `BigIntHolder`.
- `vector.dfy` (module `Vectors`): the class `BigIntVector` over an
  `array<bv8>` bitmap and an `array<Long>` value buffer. The mutators `Set`,
  `SetValue`, `UnsetBit`, `SetNullable`, `SetHolder`, `SetWithIsSet` and
  `SetUnsafeWithPossibleTruncate` state their new `Model()` as the matching
  `BigIntModel` function of the old one, which also says that every other
  index is untouched; `SetBit` states its update of the validity view
  directly. `HandleSafe` states only the growth relation `Grown` (see
  below), and each `setSafe` overload states its new `Model()` as the
  matching `BigIntModel` function of the grown state. The readers `Get`,
  `GetObject` and `GetValueAsLong` state their result as the matching
  `BigIntModel` reader; `IsSet` and `GetInto` state theirs through the
  validity flag and the slot of `Model()`, and the static `GetFromBuffer`
  states that its slot is what `get` returns, without null checking, for
  any vector over that buffer.

The switch `NULL_CHECKING_ENABLED` is the constant field
`nullCheckingEnabled` of the class, given at construction. The lemmas about
`get` cover both settings.

The growth step `handleSafe` belongs to a base class that is not part of this
model. `HandleSafe` therefore promises only what `setSafe`'s documentation
relies on: afterwards `index` is within capacity, and every element below
the old capacity keeps its validity bit and its slot (`BigIntModel.Grown`);
when `index` is already within capacity nothing changes, so each `setSafe`
overload is then exactly the corresponding `set`.
Its body doubles the capacity (from 1 when empty) and copies both buffers
into new arrays. Each `setSafe` overload returns the grown state as a ghost
value and states that its result is the corresponding `set` applied to it.

In the code, `set(index, isSet, value)` with `isSet <= 0` and
`set(index, holder)` with `holder.isSet == 0` only clear the bit and leave the
old slot as it was; readers must consult the bit
(`BigIntModel.NulledSlotKeepsStaleValue`, `BigIntModel.ReplaySlot`).

## Model

| member | source | states |
|---|---|---|
| `BigIntModel.SlotOffset` | java/vector/src/main/java/org/apache/arrow/vector/BigIntVector.java:101 | the byte offset `(long) index * TYPE_WIDTH` of a slot never overflows a `long` for any Java `int` index, whereas it exceeds the `int` range exactly from index 2^28 on |
| `BigIntModel.SlotOwnsItsBytes` | java/vector/src/main/java/org/apache/arrow/vector/BigIntVector.java:140-142 | every byte of the slot written for `index` belongs to element `index` alone (byte `b` belongs to `b / TYPE_WIDTH`) |
| `BigIntModel.SlotsDisjoint` | java/vector/src/main/java/org/apache/arrow/vector/BigIntVector.java:37 | with 8-byte slots at `index * TYPE_WIDTH`, the slots of two distinct indices share no byte |
| `Bitmap.ViewSetBit` | java/vector/src/main/java/org/apache/arrow/vector/BigIntVector.java:151 | setting the validity bit of `index` in the packed bitmap marks `index` valid and leaves the validity of every other element unchanged |
| `Bitmap.ViewUnsetBit` | java/vector/src/main/java/org/apache/arrow/vector/BigIntVector.java:169 | clearing the validity bit of `index` marks `index` null and leaves the validity of every other element unchanged |
| `BigIntModel.GetAfterSet` | java/vector/src/main/java/org/apache/arrow/vector/BigIntVector.java:150-153 | after `set(index, value)` the bit of `index` is 1, `get(index)` returns `value` with null checking on or off, and `getObject(index)` returns `value` |
| `BigIntModel.SetKeepsOtherIndices` | java/vector/src/main/java/org/apache/arrow/vector/BigIntVector.java:140-153 | `set(index, value)` leaves the validity bit and the slot of every other index unchanged |
| `BigIntModel.UnsetKeepsSlots` | java/vector/src/main/java/org/apache/arrow/vector/BigIntVector.java:168-170 | clearing the bit of `index` changes no slot and no other bit |
| `BigIntModel.SetIsSetCases` | java/vector/src/main/java/org/apache/arrow/vector/BigIntVector.java:228-234 | `set(index, isSet, value)` with `isSet > 0` equals `set(index, value)`; with `isSet <= 0` it clears only the bit and every slot keeps its old content |
| `BigIntModel.SetNullableCases` | java/vector/src/main/java/org/apache/arrow/vector/BigIntVector.java:162-171 | `set(index, holder)` throws IllegalArgument exactly when `holder.isSet < 0`; `isSet == 0` only clears the bit; `isSet > 0` stores `holder.value` and sets the bit |
| `BigIntModel.GetFailsExactlyOnNull` | java/vector/src/main/java/org/apache/arrow/vector/BigIntVector.java:97-102 | `get(index)` throws exactly when null checking is enabled and the bit is 0, always IllegalState; otherwise it returns the stored slot |
| `BigIntModel.GetObjectNullIff` | java/vector/src/main/java/org/apache/arrow/vector/BigIntVector.java:125-132 | `getObject(index)` is null exactly when the bit is 0, and otherwise equals what `get(index)` returns |
| `BigIntModel.NulledSlotKeepsStaleValue` | java/vector/src/main/java/org/apache/arrow/vector/BigIntVector.java:231-233 | after `set(index, 0, value)`, `getObject` is null, `get` with null checking throws IllegalState, and `get` without null checking still returns the slot's old content |
| `BigIntModel.SetLastWriteWins` | java/vector/src/main/java/org/apache/arrow/vector/BigIntVector.java:150-153 | a second `set` at the same index overrides the first |
| `BigIntModel.SetCommutes` | java/vector/src/main/java/org/apache/arrow/vector/BigIntVector.java:140-153 | `set`s at distinct indices commute, since they touch disjoint bits and slots |
| `BigIntModel.SetSafeKeepsPrefix` | java/vector/src/main/java/org/apache/arrow/vector/BigIntVector.java:184-194 | on a vector grown for `index`, `set(index, value)` reads back `value` and every other element below the old capacity keeps its bit and slot |
| `BigIntModel.NoGrowthNeeded` | java/vector/src/main/java/org/apache/arrow/vector/BigIntVector.java:185-186 | when `index` is already below capacity, leaving the vector as it is meets the growth promise |
| `BigIntModel.ReplayObject` | java/vector/src/main/java/org/apache/arrow/vector/BigIntVector.java:228-234 | after any sequence of `set(index, isSet, value)` calls, `getObject(j)` is decided by the last call at `j`, or is the initial one when none |
| `BigIntModel.ReplaySlot` | java/vector/src/main/java/org/apache/arrow/vector/BigIntVector.java:228-234 | after any sequence of `set(index, isSet, value)` calls, slot `j` holds the last value written to `j` with `isSet > 0`, or its initial content |
| `Vectors.GrownCapacity` | java/vector/src/main/java/org/apache/arrow/vector/BigIntVector.java:185-186 | the capacity growth reaches exceeds `index` and is at least the old capacity |
| `Vectors.BigIntVector.constructor` | java/vector/src/main/java/org/apache/arrow/vector/BigIntVector.java:66-68 | a new vector allocates no memory: capacity 0 |
| `Vectors.BigIntVector.IsSet` | java/vector/src/main/java/org/apache/arrow/vector/BigIntVector.java:111 | the validity bit read from the packed bitmap is 1 exactly for a valid element and 0 exactly for a null one |
| `Vectors.BigIntVector.Get` | java/vector/src/main/java/org/apache/arrow/vector/BigIntVector.java:97-102 | `get(index)` returns IllegalState on a null slot when null checking is on, and the stored slot otherwise |
| `Vectors.BigIntVector.GetInto` | java/vector/src/main/java/org/apache/arrow/vector/BigIntVector.java:110-117 | `get(index, holder)`: a null slot sets `holder.isSet` to 0 and leaves `holder.value`; a valid slot sets `isSet` to 1 and `value` to the stored long |
| `Vectors.BigIntVector.GetObject` | java/vector/src/main/java/org/apache/arrow/vector/BigIntVector.java:125-132 | `getObject(index)` is null on a null slot and the stored long otherwise |
| `Vectors.BigIntVector.GetValueAsLong` | java/vector/src/main/java/org/apache/arrow/vector/BigIntVector.java:313-316 | `getValueAsLong` behaves exactly as `get` |
| `Vectors.BigIntVector.GetFromBuffer` | java/vector/src/main/java/org/apache/arrow/vector/BigIntVector.java:258-260 | the static `get(buffer, index)` returns slot `index` of the value buffer, which is what `get(index)` without null checking returns for any vector over that buffer, whatever the validity of the element |
| `Vectors.BigIntVector.SetValue` | java/vector/src/main/java/org/apache/arrow/vector/BigIntVector.java:140-142 | `setValue` writes slot `index` only and leaves the bitmap |
| `Vectors.BigIntVector.SetBit` | java/vector/src/main/java/org/apache/arrow/vector/BigIntVector.java:151 | setting the bit of `index` in place makes exactly `index` valid |
| `Vectors.BigIntVector.UnsetBit` | java/vector/src/main/java/org/apache/arrow/vector/BigIntVector.java:169 | clearing the bit of `index` in place makes exactly `index` null |
| `Vectors.BigIntVector.Set` | java/vector/src/main/java/org/apache/arrow/vector/BigIntVector.java:150-153 | `set(index, value)`: the new state is the old one with `index` valid and holding `value`, all else unchanged |
| `Vectors.BigIntVector.SetNullable` | java/vector/src/main/java/org/apache/arrow/vector/BigIntVector.java:162-171 | `set(index, holder)` throws IllegalArgument with both buffers unchanged when `isSet < 0`; otherwise the new state is `BigIntModel.SetNullable` of the old |
| `Vectors.BigIntVector.SetHolder` | java/vector/src/main/java/org/apache/arrow/vector/BigIntVector.java:179-182 | `set(index, BigIntHolder)` stores `holder.value` and sets the bit, all else unchanged |
| `Vectors.BigIntVector.SetWithIsSet` | java/vector/src/main/java/org/apache/arrow/vector/BigIntVector.java:228-234 | `set(index, isSet, value)`: the new state is `BigIntModel.SetIsSet` of the old |
| `Vectors.BigIntVector.SetUnsafeWithPossibleTruncate` | java/vector/src/main/java/org/apache/arrow/vector/BigIntVector.java:308-311 | behaves exactly as `set(index, value)` |
| `Vectors.BigIntVector.HandleSafe` | java/vector/src/main/java/org/apache/arrow/vector/BigIntVector.java:185-186 | afterwards `index` is below capacity, capacity did not shrink, and every element below the old capacity keeps its bit and slot; for an index already below capacity nothing changes |
| `Vectors.BigIntVector.SetSafe` | java/vector/src/main/java/org/apache/arrow/vector/BigIntVector.java:184-194 | `setSafe(index, value)` is `set(index, value)` on a state grown for `index`; for an index already below capacity the grown state is the old one, so the call is exactly the `set` |
| `Vectors.BigIntVector.SetSafeNullable` | java/vector/src/main/java/org/apache/arrow/vector/BigIntVector.java:196-206 | grows for `index` first, even when the holder is then rejected; the result is `set(index, holder)` on the grown state; for an index already below capacity the grown state is the old one, so the call is exactly the `set` |
| `Vectors.BigIntVector.SetSafeHolder` | java/vector/src/main/java/org/apache/arrow/vector/BigIntVector.java:208-218 | `set(index, BigIntHolder)` on a state grown for `index`; for an index already below capacity the grown state is the old one, so the call is exactly the `set` |
| `Vectors.BigIntVector.SetSafeWithIsSet` | java/vector/src/main/java/org/apache/arrow/vector/BigIntVector.java:236-247 | `set(index, isSet, value)` on a state grown for `index`; for an index already below capacity the grown state is the old one, so the call is exactly the `set` |
| `Vectors.BigIntVector.SetWithPossibleTruncate` | java/vector/src/main/java/org/apache/arrow/vector/BigIntVector.java:303-306 | behaves exactly as `setSafe(index, value)`; for an index already below capacity the grown state is the old one, so the call is exactly the `set` |

## Left out

- `matlab/src/cpp/arrow/matlab/c/proxy/schema.cc`: a MATLAB proxy that stores a C Data Interface schema, exposes its raw address and calls its foreign `release` callback; it is foreign calls with no logic of its own to verify.
- Constructors taking a `Field`, `FieldType` or `BufferAllocator`, `getMinorType` and `getReaderImpl`: metadata and allocator wiring; the reader class is not part of this model.
- `TransferImpl`, `getTransferPair` and `makeTransferPair`: they only delegate to `transferTo`, `splitAndTransferTo` and `copyFromSafe` of the base class, which is not part of this model.
- HandleSafe: the real growth policy of the base class is not part of this model, so the contract does not say what newly added slots hold (in particular not that they are null), and the doubling in its body is only one policy that meets the contract.
- Get, GetInto, GetObject, GetValueAsLong, GetFromBuffer, IsSet, Set, SetNullable, SetHolder, SetWithIsSet, SetUnsafeWithPossibleTruncate, SetValue, SetBit, UnsetBit: require `index` below capacity; out of range, Java's behaviour depends on the buffer bounds checking of `ArrowBuf`, which is not part of this model.
- HandleSafe: growth never fails in the model; a real reallocation can fail for lack of memory, which `HandleSafe` and the `setSafe` overloads (SetSafe, SetSafeNullable, SetSafeHolder, SetSafeWithIsSet, SetWithPossibleTruncate) do not model.
- Off-heap memory addressing (`ArrowBuf.getLong`/`setLong`): each 8-byte slot is one `long` value; byte order within a slot is not modelled.
- Indices are natural numbers: negative Java `int` indices are not modelled, and capacity growth is not bounded by the range of `int`.
- The element count (`valueCount`) of the base class is not touched by any accessor here and is not modelled.
