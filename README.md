# refcounted-var-sized-class, modelled in Dafny

This project models the four headers of the reference-counting library:

- `reference_counted.h`: the `Refcount` counter and the `Refcounted<T>` block.
- `ref.h`: the handles. `Ref<T>` is a unique, move-only handle and `Ref<const T>` a shared, copyable one.
- `int_or_ptr.h`: `IntOrRef<T>`, one machine word that holds either a tagged `intptr_t` or a `Ref`.
- `copy_on_write.h`: `CopyOnWrite<T>`, a shared `Ref<const T>` that claims its block, or clones it, before a write.

The model has two layers.

- **The ledger** (module `Ownership`, file `ownership.dfy`) is pure.
  - A `Store` maps each live block address to its count and value, and each live handle variable to the word it holds and its kind (unique or shared).
  - The invariant `Valid` says:
    - every block's count is the number of handles holding its address, and is at least one;
    - no handle holds a freed address;
    - a unique handle is the only holder of its block.
  - Every operation of the headers is a function on the `Store`.
  - Lemmas prove that each operation keeps `Valid`, together with the property the headers promise for it.
- **The objects** are Dafny classes updated in place.
  - `Refcount`, `Refcounted<T>`, `Heap` (the live blocks), `Ref`, `IntOrRef` and `CopyOnWrite`.
  - A `Ref` object is one handle variable; its `buffer` field is the bits of `buffer_`.
  - An `IntOrRef` owns one `Ref` object whose `buffer` is the union word of its `IntOrValue`.
  - A `CopyOnWrite` owns the `Ref` object that is its `ref_`.
  - The `Heap` keeps a ghost `Store` that mirrors its real blocks and the handles' fields (`Sync`).
  - Each method is proved to change that `Store` exactly as the ledger function of its operation says.
  - Each method that models an operation of the headers also keeps `Valid`. There are two kinds of exception, and both keep only `Sync`:
    - the shared `Clear` and move assignment as written (`Refs.Ref.ClearAsWritten`, `Refs.Ref.MoveAssignAsWritten`, `Cow.CopyOnWrite.MoveAssignAsWritten`), which break the invariant (see Findings);
    - the steps other methods are built from (`Heap.NewBlock`, `Heap.SelfDelete`, `Heap.Release`, `Heap.Retain`, `Heap.Forget`, `Heap.Mutate`, `Ref.Adopt`, `Ref.Set`, `Ref.MoveBuffer`), whose callers restore the invariant.
  - Methods also say which real blocks may change: no block is replaced, only the released ones can disappear, and a new block is always a fresh object at the address the allocator offered.

Words are 64-bit `intptr_t` values:

- `NULL` is 0;
- an address is non-zero and even, because every allocation is aligned;
- a tagged number is odd.

Allocation is a parameter. `alloc: Option<int>` is the address the allocator returns, with `None` when allocation throws. `init: Option<T>` is the constructed value, with `None` when `T`'s constructor throws. An operation that would throw returns `None` and leaves the state the source leaves behind.

Two facts about the code shape the model:

- `CopyOnWrite` has no lazy default state. Its only empty state comes from the `nullptr` constructor.
- `IntOrValue(intptr_t)` does not reject a number that does not fit after the one-bit shift (int_or_ptr.h:39-41); its assertion checks only that the word is not a pointer, and that holds for every value. The model takes the shift's two's-complement result, wrapped modulo 2^64 into the signed range, as C++20 defines it. Under C++17 every left shift of a negative value is undefined. A non-negative value always fits the unsigned type once doubled. The result is that doubled value converted to the signed type, which for a value above `INTPTR_MAX / 2` is implementation-defined rather than undefined.

## Model

| member | source | states |
|---|---|---|
| ReferenceCounted.Refcount.constructor | reference_counted.h:29 | a fresh counter holds 1 |
| ReferenceCounted.Refcount.Inc | reference_counted.h:32-35 | the count rises by exactly one |
| ReferenceCounted.Refcount.IsOne | reference_counted.h:38-42 | true exactly when the count is 1; nothing changes |
| ReferenceCounted.Refcount.Dec | reference_counted.h:44-64 | needs a positive count; returns true exactly when the caller held the last reference; with `expect_one` on a count of 1 the counter is left alone, otherwise it drops by one |
| ReferenceCounted.Refcounted.constructor | reference_counted.h:85-88 | a new block has a fresh counter at 1 and holds the constructed value |
| Refs.Heap.NewBlock | reference_counted.h:91-104 | a block exists afterwards exactly when both allocation and construction succeeded; it is fresh, at the given address, with count 1 and the value; when either throws, nothing is allocated and nothing changes |
| Refs.Heap.SelfDelete | reference_counted.h:106-112 | the block is gone from the heap and from the ledger; every other block is untouched |
| Refs.Heap.Release | ref.h:92-94 | the block's count drops by one as the ledger's `Release` says, and the block is deleted exactly when that was its last reference; no other block changes |
| Refs.Heap.Retain | ref.h:68 | the block's count rises by one (`Inc`); no block is added or removed |
| Refs.Heap.Mutate | copy_on_write.h:85 | a write through the `T&`: the block's value becomes the mutator applied to it, and nothing else changes |
| Refs.Ref.Adopt | ref.h:172-174 | a handle built from a raw pointer holds exactly that word; no count changes |
| Refs.Ref.Copy | ref.h:62 | a shared copy aliases the source's block, which gains one reference; the source and the value are unchanged |
| Refs.Ref.Move | ref.h:63 | the move constructor (also ref.h:110): the new handle takes the block, the source is null, and no count changes |
| Refs.Ref.Clear | ref.h:131-137 | `Clear` as intended: the reference is given up, the block is freed exactly when this was its last holder, and the handle is null; the unique `Clear` is this case with count 1 |
| Refs.Ref.ClearAsWritten | ref.h:91-96 | the shared `Clear` as written: the count drops once and the block is freed iff `Dec` reports zero, but the handle is nulled only in that case |
| Refs.Ref.Destroy | ref.h:78 | the destructor (also ref.h:120): the handle's reference is released exactly once and the handle is gone; the ledger stays valid |
| Refs.Ref.CopyAssign | ref.h:65-70 | the target's old reference is released, then it aliases the non-null source's block, which gains one reference; no block is replaced, and none is freed when the target was null |
| Refs.Ref.MoveAssign | ref.h:113-118 | the target's old reference is released, it takes the non-null source's block, and the source is null; the ledger stays valid (the corrected shared move assignment too) |
| Refs.Ref.MoveAssignAsWritten | ref.h:71-76 | the shared move assignment as written: `Clear` as written, then the swap hands the target's released word to the source; no block is replaced, and none is freed when the target was null |
| Refs.Ref.Deref | ref.h:80 | `operator*` (also ref.h:122) is the value in the handle's block |
| Refs.Ref.MoveBuffer | ref.h:99-101 | `move_buffer()` (also ref.h:140-142) returns the old word and leaves the handle null; no count changes |
| Refs.Ref.Share | ref.h:202-205 | the new shared handle takes the unique handle's block with the count unchanged; the source is null |
| Refs.Ref.AttemptToClaim | ref.h:192-200 | the result is unique exactly when the source was its block's only holder (count 1); it holds the same block, no count changes, and the source is null |
| Refs.New | ref.h:209-213 | a unique handle on a fresh block with count 1 that it alone holds, holding the constructed value; `None` and nothing changed when allocation or construction throws |
| Refs.Widen | ref.h:176-178 | the widening constructor moves the unique handle's block into a shared handle; no count changes and the source is null |
| Ownership.Valid | ref.h:149-151 | the ownership invariant: every live block's count equals the number of handles holding its address and is at least one, no handle holds a freed address, and a unique handle's block has count 1 |
| Ownership.Clear | ref.h:131-137 | `Clear` as intended: a handle holding an address releases that block once and becomes null; null is left as it is |
| Ownership.ClearAsWritten | ref.h:91-96 | the shared `Clear` as written: the block is released once; the handle becomes null only when that was the last reference and otherwise keeps the released address |
| Ownership.MoveAssign | ref.h:113-118 | the move assignment as intended: `Clear` the target, then it takes the source's word and the source becomes null |
| Ownership.MoveAssignAsWritten | ref.h:71-76 | the shared move assignment as written: `Clear` as written on the target, then the two words are swapped |
| Ownership.Share | ref.h:202-205 | `Share()`: the unique handle's word moves into a new shared handle and the source becomes null; no count changes |
| Ownership.AttemptToClaim | ref.h:192-200 | `AttemptToClaim()`: the word moves into a new handle that is unique exactly when the block's count is 1; the source becomes null |
| Ownership.Swap | int_or_ptr.h:50-53 | `IntOrValue`'s move assignment: the two handles exchange words and keep their kinds |
| Ownership.AliveIffHeld | ref.h:149-151 | in a valid ledger an address is a live block exactly when some handle holds it |
| Ownership.TwoHolders | ref.h:149-151 | two distinct handles on one block mean its count is at least two |
| Ownership.ClearKeepsValid | ref.h:91-96 | `Clear` as intended keeps the invariant; the block is freed exactly when the handle was its only holder, otherwise its count drops by exactly one; the handle ends null |
| Ownership.ClearKeepsOtherBlocks | ref.h:91-96 | clearing one handle never frees a block another handle still holds |
| Ownership.ClearAsWrittenAgreesWhenDiscarded | ref.h:78 | the shared `Clear` as written has the same effect on blocks as the intended one, and the same whole effect when its word is then overwritten or discarded (destructor, copy assignment) |
| Ownership.AliasAfterClear | ref.h:65-70 | the copy assignment built on the as-written `Clear` equals the one built on the intended `Clear` |
| Ownership.NullAfterClear | int_or_ptr.h:83-88 | after either `Clear` the handle already holds null, so storing 0 into it changes nothing |
| Ownership.DestroyKeepsValid | ref.h:78 | destroying a handle keeps the invariant and removes the handle |
| Ownership.AllocateForKeepsValid | reference_counted.h:91-104 | a new block given to one handle keeps the invariant, with count 1, the value, and that handle its only holder |
| Ownership.NewRefKeepsValid | ref.h:209-213 | `New<T>` keeps the invariant: count 1, the constructed value, a single holder |
| Ownership.AddKeepsValid | ref.h:86 | a new handle holding null or a tagged number keeps the invariant and changes no block |
| Ownership.HandOver | copy_on_write.h:37-39 | moving a temporary's block into a fresh handle and destroying the temporary leaves the same state as if the fresh handle had held the block from the start |
| Ownership.AliasKeepsValid | ref.h:65-70 | aliasing a shared handle's word keeps the invariant; an address gains exactly one reference and nothing else changes |
| Ownership.CopyRefKeepsValid | ref.h:62 | the shared copy constructor keeps the invariant; the copy holds the source's block, the source is unchanged, and the count rises by one |
| Ownership.CopyAssignKeepsValid | ref.h:65-70 | the copy assignment keeps the invariant and the target ends with the source's word |
| Ownership.TransferKeepsValid | ref.h:63 | a move into a handle holding nothing keeps the invariant and changes no block |
| Ownership.MoveAssignKeepsValid | ref.h:113-118 | the move assignment keeps the invariant; the target ends with the source's slot, the source is null, and only the target's old reference is released |
| Ownership.ShareKeepsValid | ref.h:202-205 | `Share()` keeps the invariant and every count; the new shared handle holds the word and the source is null |
| Ownership.AttemptToClaimKeepsValid | ref.h:192-200 | the claim succeeds exactly when the source is its block's only holder; the invariant and every count are kept, and the source is null |
| Ownership.SwapKeepsValid | int_or_ptr.h:50-53 | swapping two words of the same kind, or a word with itself, keeps the invariant and every count |
| Ownership.SwapSelf | int_or_ptr.h:50-53 | `std::swap` of a word with itself, as in `x = std::move(x)`, changes nothing |
| Ownership.MoveAssignAsWrittenAgreesUnlessShared | ref.h:71-76 | when the target is null or its block's last holder, the as-written shared move assignment is exactly the intended one |
| Ownership.MoveAssignAsWrittenBreaksLedger | ref.h:71-76 | when the target's old block has another holder, the as-written shared move assignment leaves that block's count one below its number of holders, so the invariant fails |
| Ownership.AliasedMoveAssignFreesLiveBlock | ref.h:71-76 | a concrete state: after the as-written move assignment and the source's destructor, a block is freed while a handle still points to it |
| IntOrPtr.Wrap | int_or_ptr.h:39 | the shift is taken modulo 2^64 into the signed range, and is the identity on values that fit |
| IntOrPtr.Encode | int_or_ptr.h:39 | the encoding is an odd word (`has_number()`), and is `2v+1` when `v` fits after the shift |
| IntOrPtr.HasNumber | int_or_ptr.h:66 | `has_number()`: the low bit of the word is 1. For the two's-complement word this is `number_ & 1`, negative words included |
| IntOrPtr.HasRef | int_or_ptr.h:67 | `has_value()` (`has_ref()`, int_or_ptr.h:147): the low bit is 0, so the word is a pointer |
| IntOrPtr.Number | int_or_ptr.h:69-71 | present exactly when the low bit is 1, and then it is the value `n` with `2n+1` equal to the word |
| IntOrPtr.RefOf | int_or_ptr.h:150-153 | `ref()` is present exactly when the word holds a `Ref`, and is then the pointee |
| IntOrPtr.Variant | int_or_ptr.h:155-163 | index 0 with `number()` exactly when the word holds a number, otherwise index 1 with the pointee |
| IntOrPtr.Equal | int_or_ptr.h:165-176 | equality is equality of the two variants |
| IntOrPtr.NotEqual | int_or_ptr.h:177 | `!=` is the negation of `==` |
| IntOrPtr.EncodeRoundTrip | int_or_ptr.h:39-41 | `number()` of the encoding of `v` is `v` exactly when `v` fits after the shift; otherwise it is `v` wrapped by 2^63 |
| IntOrPtr.DecodeRoundTrip | int_or_ptr.h:69-71 | every odd word is the encoding of its `number()` |
| IntOrPtr.DefaultIsZero | int_or_ptr.h:38 | the default word is 1, the encoding of the number 0 |
| IntOrPtr.AddressHoldsRef | int_or_ptr.h:66-67 | a block address reads as a `Ref`: `number()` is absent and `ref()` and `Variant()` give the pointee |
| IntOrPtr.EqualByCases | int_or_ptr.h:165-176 | two numbers are equal exactly when their values are, and a number never equals a `Ref` |
| IntOrPtr.SwapIntoFresh | int_or_ptr.h:48 | constructing at 0 and swapping is a move that leaves the number 0 in the source |
| IntOrPtr.CopyIntoFresh | int_or_ptr.h:49 | constructing at 0 and copy-assigning aliases the source's word |
| IntOrPtr.Widening | int_or_ptr.h:130-139 | the widening constructor on the ledger: a number word is copied into the new shared handle and left in the source; a `Ref` is moved as by `Share()` |
| IntOrPtr.WideningKeepsValid | int_or_ptr.h:130-139 | the widening constructor keeps the invariant and every count; the new word is the source's, and a number is left in the source |
| IntOrPtr.SwappedRefReleasedWithSource | int_or_ptr.h:50-53 | the move assignment changes no count; the target's old `Ref` is released only when the source is later destroyed |
| IntOrPtr.IntOrRef.MoveAssign | int_or_ptr.h:50-53 | the two words are swapped, with no count change and no block touched; moving a word into itself changes nothing |
| IntOrPtr.IntOrRef.Clear | int_or_ptr.h:83-88 | a `Ref` is released and the word becomes 0; a number is left as it is, with no block touched |
| IntOrPtr.IntOrRef.CopyAssign | int_or_ptr.h:54-62 | `Clear()`, then the number bits are copied or the non-null `Ref` is aliased with one more reference; no block is replaced |
| IntOrPtr.IntOrRef.Destroy | int_or_ptr.h:64 | the destructor releases a held `Ref` once and removes the word; no block is replaced |
| IntOrPtr.NewNumber | int_or_ptr.h:121-122 | the word is the encoding of the value, holds a number, and reads back as the value when it fits; no count changes |
| IntOrPtr.NewFromRef | int_or_ptr.h:123-125 | the non-null `Ref` is moved into the word, which then holds a `Ref`; the `Ref` it came from is null and no count changes |
| IntOrPtr.NewMoved | int_or_ptr.h:48 | the new word is the source's old word, the source holds the number 0, and no count changes |
| IntOrPtr.NewCopy | int_or_ptr.h:49 | the new word aliases the source's word; a `Ref` gains one reference |
| IntOrPtr.NewWidened | int_or_ptr.h:130-139 | the number is copied or the `Ref` moved into a shared `Ref`, with no count change |
| IntOrPtr.NewOfKind | int_or_ptr.h:128-129 | `New<T>`, converted to a shared `Ref` for a const element type: a fresh block object with a fresh counter, count 1, that this handle alone holds, and no other block touched; `None` and nothing changed when allocation or construction throws |
| IntOrPtr.InPlace | int_or_ptr.h:126-129 | the in-place constructor: a word holding a `Ref` to a fresh block object with the constructed value and count 1, and no other block touched; `None` and nothing changed when allocation or construction throws |
| Cow.NotSole | copy_on_write.h:57-58 | a wrapper whose block has another holder cannot claim it |
| Cow.AsMutableKeepsValid | copy_on_write.h:63-73 | `as_mutable()` keeps the invariant. A sole owner changes nothing. Otherwise the old block loses exactly one reference and the wrapper becomes the only holder of a new block with count 1 and the same value, or is null when the clone throws |
| Cow.AsMutableIsolates | copy_on_write.h:55-58 | `as_mutable()` leaves every other handle's word and the value it sees unchanged |
| Cow.AsMutableIdempotent | copy_on_write.h:55-61 | after a successful `as_mutable()` the wrapper is the sole owner, and calling it again changes nothing and allocates nothing |
| Cow.AsMutableEffect | copy_on_write.h:63-73 | `as_mutable()` on the ledger: a sole holder keeps its block; otherwise the old block loses one reference and the wrapper moves to a new block at the allocator's address holding a copy of the value, or becomes null when the clone throws |
| Cow.WriteThroughKeepsValid | copy_on_write.h:85 | a write through the mutable reference keeps the invariant and changes no handle and no set of blocks |
| Cow.WriteThroughIsolated | copy_on_write.h:84-87 | writing through a sole owner changes its value as the mutator says and leaves what every other handle sees unchanged |
| Cow.WithCopyEffect | copy_on_write.h:77-80 | `with() const&` as a whole: the original's block and value are untouched; the result is the only holder of a fresh block holding the mutated copy, or nothing changes when the clone throws |
| Cow.InstallEffect | copy_on_write.h:71 | `ref_ = std::move(owned).Share()` with a null `ref_` is a plain move of the block into `ref_` |
| Cow.InstalledEffect | copy_on_write.h:71-73 | destroying the emptied `owned` afterwards leaves `ref_` holding its block and `owned` gone |
| Cow.ClaimPathEffect | copy_on_write.h:66-68 | on a sole owner, claiming, moving into `owned`, installing and destroying the temporaries restores the original state |
| Cow.ClonePathEffect | copy_on_write.h:66-72 | on a shared block, the clone path ends in the effect of `as_mutable()` for the given fresh address |
| Cow.FailedClonePathEffect | copy_on_write.h:69 | when the clone throws, destroying `as_owned` leaves `ref_` null and the old block with one reference fewer |
| Cow.AcquiredThenFinished | copy_on_write.h:66-73 | both successful paths of `as_mutable()` end in its specified effect |
| Cow.CopyOnWrite.CopyAssign | copy_on_write.h:45 | the defaulted copy assignment is the shared `Ref` copy assignment: the block is aliased and gains one reference; no block is replaced |
| Cow.CopyOnWrite.MoveAssignAsWritten | copy_on_write.h:46 | the defaulted move assignment is the shared `Ref` move assignment as written: the ledger changes as `Ownership.MoveAssignAsWritten` says, so the target's released word ends up in the source (see Findings); no block is replaced |
| Cow.CopyOnWrite.MoveAssign | copy_on_write.h:46 | the defaulted move assignment as it is meant: the target takes the block, the source becomes null, only the target's old reference is released, and the invariant holds |
| Cow.CopyOnWrite.Destroy | copy_on_write.h:90 | the implicit destructor releases the wrapper's reference once; no block is replaced |
| Cow.CopyOnWrite.IsNull | copy_on_write.h:49-50 | `== nullptr` is true exactly when the wrapper's word is null |
| Cow.CopyOnWrite.Deref | copy_on_write.h:52 | `operator*` is the value in the wrapper's block |
| Cow.CopyOnWrite.AsMutable | copy_on_write.h:63-73 | the ledger changes as `as_mutable()` is specified, and the result is `None` exactly when the block is shared and the clone throws. Otherwise the result equals the value before the call, and the block it lives in is the one this wrapper solely owned or a fresh one. Every other block is an old one, unchanged or freed; a block at the offered address is a fresh object |
| Cow.CopyOnWrite.Acquire | copy_on_write.h:66-69 | `as_owned` is unique exactly when the claim succeeds; `owned` is that block or a fresh clone of it, or absent when the clone throws |
| Cow.CopyOnWrite.Finish | copy_on_write.h:70-73 | `ref_` takes `owned`'s block, the temporaries die, and the value returned is the one in the block `ref_` now holds |
| Cow.CopyOnWrite.Install | copy_on_write.h:71 | `ref_` takes `owned`'s block with no count change, and `owned` is gone; the move assignment runs as written, which does what is meant because `ref_` is null |
| Cow.CopyOnWrite.WithMove | copy_on_write.h:83-87 | `with() &&`: applies the mutator through `as_mutable()` and moves this wrapper into the result, writing only a block it solely owns or a fresh one; `None` exactly when the clone throws; no old block is replaced |
| Cow.CopyOnWrite.WithCopy | copy_on_write.h:77-80 | `with() const&` leaves the original's block, value and count as they were; the result solely owns a fresh block object holding the mutated copy; no old block is replaced; `None` and nothing changed when the clone throws |
| Cow.NewNull | copy_on_write.h:41 | the `nullptr` constructor: a wrapper holding null, with no count changed and no block touched |
| Cow.NewCopy | copy_on_write.h:43 | the defaulted copy constructor aliases the block, which gains one reference; the value is not copied |
| Cow.NewMoved | copy_on_write.h:44 | the defaulted move constructor takes the block and nulls the source, with no count change |
| Cow.Own | copy_on_write.h:67-69 | a claimed handle is moved into the unique `owned`; otherwise the value is cloned into a fresh block with count 1, or `None` when the clone throws |
| Cow.InPlace | copy_on_write.h:37-39 | the in-place constructor: one fresh block with count 1 holding the constructed value, held only by this wrapper, a fresh object with a fresh counter, and no other block touched; `None` and nothing changed when allocation or construction throws |

## Left out

- Atomics and memory ordering: the count is a plain integer and every operation is sequential, so concurrent use of aliases is not modelled.
- The allocator machinery (`allocator_traits`, `rebind_alloc`, the stored allocator, `Allocator()`). Allocation is an address parameter, and freeing removes the block.
- `T` is an opaque value type with `==`. Its constructors, destructors and copy constructor are not modelled beyond "the constructed value" and "construction throws" (an `init` or `alloc` of `None`).
- A mutator passed to `with` is a function `T -> T`; any other side effects it has are not modelled.
- `as_mutable()` returns the value that its `T&` refers to. The lifetime of that reference is not modelled.
- `operator->` (ref.h:81 and 123, copy_on_write.h:53) is not modelled separately. It is `operator*`.
- The `absl` types (`variant`, `optional`, `reference_wrapper`, `in_place`) are Dafny datatypes: `Option` and `View`.
- Template gates (`enable_if`, `static_assert`, `OwnershipTraits`) are left out. They become modelling assumptions:
  - a 64-bit word;
  - addresses even and non-zero;
  - a `unique` flag for the handle kind.
- Self-assignment is excluded by a "target is not the source" precondition on the copy assignments and on the `Ref` and `CopyOnWrite` move assignments. The `IntOrRef` move assignment is the exception: its swap makes `x = std::move(x)` a no-op, and the model admits that case. What the source does on the excluded inputs:
- Refs.Ref.CopyAssign: `x = x` on a block with count 2 or more gives the count back and is a no-op. With count 1 the block is freed, and then `Inc` runs through the null `buffer_` (ref.h:67-68).
- Refs.Ref.MoveAssign: `x = std::move(x)` on a unique handle, or on a shared one with count 1, frees the block and leaves `x` null (ref.h:73-74, 115-116).
- IntOrPtr.IntOrRef.CopyAssign: `x = x` is a no-op on a number. On a `Ref`, `Clear()` releases it and sets the word to 0, a null `Ref`; the copy then copy-constructs from that null `Ref`, whose assertion `other.buffer_ != nullptr` fails (int_or_ptr.h:55-58, ref.h:62 and 66).
- Cow.CopyOnWrite.CopyAssign: as `Refs.Ref.CopyAssign`; `Cow.CopyOnWrite.MoveAssign` and `Cow.CopyOnWrite.MoveAssignAsWritten` are as the `Ref` move assignments.
- Only `I = intptr_t` is modelled for `IntOrRef`.
- The enable_if of the widening `Ref` constructor (ref.h:176-177) is not reproduced; the constructor is modelled as its body says.
- The constructors of `Ref` are Dafny constructors. Those of `IntOrRef` and `CopyOnWrite` are module methods (`IntOrPtr.NewNumber` and the rest, `Cow.NewNull` and the rest) that set up the handle and then wrap it with a trivial constructor. Their contracts are those of the C++ constructors.
- The benchmark and the tests are not modelled; the tests served only as a statement of properties.
- ReferenceCounted.Refcount.Inc: the count is an unbounded integer. The source's counter is a `std::atomic<int_fast32_t>` (reference_counted.h:67), whose increment wraps after 2^31 - 1 references on a 32-bit `int_fast32_t`. The model does not capture that overflow.
- Refs.Ref.ClearAsWritten: promises only that the `Heap` mirrors its ledger, not the ledger invariant. The shared `Clear` as written leaves a released address in a handle whose block is still alive, and the invariant holds again only once that word is overwritten or discarded (`Ownership.ClearAsWrittenAgreesWhenDiscarded`).
- Refs.Ref.MoveAssignAsWritten: promises only that the `Heap` mirrors its ledger, because the as-written operation breaks the ledger invariant (see Findings). Its self-move is excluded as well; with count 2 or more the source drops the count by one while `x` keeps the address (ref.h:73-74).
- Cow.CopyOnWrite.MoveAssignAsWritten: promises only that the `Heap` mirrors its ledger, for the same reason. The wrapper's own `ref_ = std::move(...)` in `as_mutable()` (copy_on_write.h:71) assigns into a null `ref_`, where the as-written and intended versions agree (`Ownership.MoveAssignAsWrittenAgreesUnlessShared`).
- Cow.CopyOnWrite.AsMutable: requires a non-null `ref_`, because `AttemptToClaim` dereferences `buffer_` (ref.h:195); a wrapper from the `nullptr` constructor is outside this precondition.

## Findings

| source | as written | input that shows it | evidently intended | confidence | as-written member | corrected member |
|---|---|---|---|---|---|---|
| ref.h:71-76 | the shared move assignment calls `Clear()` (ref.h:91-96), which nulls `buffer_` only when `Dec` reports zero; the swap then gives the source the address whose reference was just released | a block held by two shared handles `a` and `b`, and a third handle `c` on another block: `a = std::move(c)` drops the count to 1 but hands the old address to `c`; destroying `c` then frees the block while `b` still points to it | `Clear()` always nulls `buffer_` (as the unique `Clear` does), so the source is left null and the count stays equal to the number of holders | not executed | Ownership.MoveAssignAsWrittenBreaksLedger | Ownership.MoveAssignKeepsValid |
| copy_on_write.h:46 | the defaulted move assignment of `CopyOnWrite` is the shared `Ref` move assignment of ref.h:71-76, with the same defect; `Ownership.MoveAssignAsWrittenBreaksLedger` applies to its ledger effect | wrappers `a` and `b` share a block with count 2 and `c` holds another block: `a = std::move(c)` drops the count to 1 but leaves the old address in `c`; destroying `c` frees the block `b` still reads | the target's old reference is released once, the target takes the source's block, and the source is left null | not executed | Cow.CopyOnWrite.MoveAssignAsWritten | Cow.CopyOnWrite.MoveAssign |
