/**
  ref.h: `Ref<T>` (unique, move-only) and `Ref<const T>` (shared, copyable),
  each a single pointer to a `Refcounted<T>` block, and `New<T>`.

  The memory the blocks live in is a `Heap`: the blocks that are alive, by
  address, and a ghost `Store` that records every live handle and its word.
  `Sync` says the ghost ledger describes the real objects; `Valid` adds the
  ledger invariant of module `Ownership`. Every operation is proved to change
  the ledger exactly as the matching `Ownership` function says, and the
  operations that are correct keep `Valid`.

  A `Ref` object is a handle variable; its `buffer` is the pointer's bits and
  `unique` tells `Ref<T>` from `Ref<const T>`. A handle is registered in the
  ledger by its constructor and removed by `Destroy` (its destructor).
*/
module Refs {
  import opened Options
  import opened Ownership
  import opened ReferenceCounted

  class Heap<T> {
    /** The live `Refcounted<T>` blocks, by address. */
    var blocks: map<int, Refcounted<T>>
    /** The ledger: the blocks' counts and values and every live handle. */
    ghost var store: Store<Ref<T>, T>

    /** The counters of the live blocks. */
    ghost function Counters(): set<Refcount>
      reads this
    {
      set a | a in blocks :: blocks[a].refcount
    }

    /** The counter of the block at `a`, if there is one: all that an operation
        on a handle holding `a` may change besides the heap itself. */
    ghost function CounterOf(a: int): set<Refcount>
      reads this
    {
      if a in blocks then {blocks[a].refcount} else {}
    }

    /** The block at `a`, if there is one. */
    ghost function BlockAt(a: int): set<Refcounted<T>>
      reads this
    {
      if a in blocks then {blocks[a]} else {}
    }

    /** The block at `a` if its count is one: the only block a handle on `a`
        may write into. */
    ghost function SoleBlockAt(a: int): set<Refcounted<T>>
      reads this, Counters()
    {
      if a in blocks && blocks[a].refcount.count == 1 then {blocks[a]} else {}
    }

    /** The ledger describes the real blocks and handles: one block object and
        one counter per address, with the recorded count and value, and every
        handle's `buffer` is its recorded word. */
    ghost predicate Sync()
      reads this, blocks.Values, Counters(), store.slots.Keys
    {
      && blocks.Keys == store.blocks.Keys
      && (forall a :: a in blocks ==>
            blocks[a].refcount.count == store.blocks[a].count && blocks[a].nested == store.blocks[a].nested)
      && (forall a, b :: a in blocks && b in blocks && a != b ==>
            blocks[a] != blocks[b] && blocks[a].refcount != blocks[b].refcount)
      && (forall r :: r in store.slots ==> r.buffer == store.slots[r].word && r.unique == store.slots[r].unique)
    }

    ghost predicate Valid()
      reads this, blocks.Values, Counters(), store.slots.Keys
    {
      Sync() && Ownership.Valid(store)
    }

    /** An empty heap. */
    constructor ()
      ensures Valid() && blocks == map[] && store == Store(map[], map[])
    {
      blocks := map[];
      store := Store(map[], map[]);
    }

    /** `Refcounted::New`: the allocator hands out `alloc` (`None`: it threw),
        and the block is constructed with the value `init` (`None`: `T`'s
        constructor threw, the memory is given back and the exception goes
        on). On success the new block's count is 1. */
    method NewBlock(alloc: Option<int>, init: Option<T>) returns (p: Option<int>)
      requires Sync()
      requires alloc.Some? ==> IsAddress(alloc.value) && alloc.value !in blocks
      modifies this
      ensures Sync() && store.slots == old(store.slots)
      ensures p.Some? <==> alloc.Some? && init.Some?
      ensures p.Some? ==> p == alloc && store == Allocate(old(store), p.value, init.value)
      ensures p.None? ==> store == old(store) && blocks == old(blocks)
      ensures p.Some? ==> && blocks == old(blocks)[p.value := blocks[p.value]]
                          && fresh(blocks[p.value]) && fresh(blocks[p.value].refcount)
    {
      if alloc.None? || init.None? {
        return None;
      }
      var block := new Refcounted(init.value);
      blocks := blocks[alloc.value := block];
      store := Allocate(store, alloc.value, init.value);
      p := alloc;
    }

    /** `SelfDelete`: the block at `a` is destroyed and its memory returned. */
    method SelfDelete(a: int)
      requires Sync() && a in blocks
      modifies this
      ensures Sync() && blocks == old(blocks) - {a}
      ensures store == old(store).(blocks := old(store.blocks) - {a})
    {
      blocks := blocks - {a};
      store := store.(blocks := store.blocks - {a});
    }

    /** `Refcount::Dec` on the block at `a`, then `SelfDelete` when it reports
        the last reference: the ledger's `Release`. */
    method Release(a: int, expectOne: bool)
      requires Sync() && a in blocks && store.blocks[a].count > 0
      modifies this, CounterOf(a)
      ensures Sync() && store == Ownership.Release(old(store), a)
      ensures Shrinks(old(blocks), blocks) && (a in blocks ==> blocks == old(blocks))
    {
      var zero := blocks[a].refcount.Dec(expectOne);
      store := store.(blocks := store.blocks[a := store.blocks[a].(count := blocks[a].refcount.count)]);
      if zero {
        SelfDelete(a);
        assert store.blocks == old(store.blocks) - {a};
      }
    }

    /** `Refcount::Inc` on the block at `a`: the ledger's `Retain`. */
    method Retain(a: int)
      requires Sync() && a in blocks
      modifies this, CounterOf(a)
      ensures Sync() && store == Ownership.Retain(old(store), a)
      ensures blocks == old(blocks)
    {
      blocks[a].refcount.Inc();
      store := Ownership.Retain(store, a);
    }

    /** Handle bookkeeping: a handle's lifetime ends and the ledger drops
        it; no block changes. */
    method Forget(r: Ref<T>)
      requires Sync() && r in store.slots
      modifies this
      ensures Sync() && blocks == old(blocks) && store == Remove(old(store), r)
    {
      store := Remove(store, r);
    }

    /** A write through the `T&` into the block at `a`: its value becomes
        `f` of what it was, and nothing else changes. */
    method Mutate(a: int, f: T -> T)
      requires Sync() && a in blocks
      modifies this, BlockAt(a)
      ensures Sync() && blocks == old(blocks)
      ensures store == old(store).(blocks := old(store.blocks)[a := old(store.blocks)[a].(nested := f(old(store.blocks)[a].nested))])
    {
      blocks[a].nested := f(blocks[a].nested);
      store := store.(blocks := store.blocks[a := store.blocks[a].(nested := f(store.blocks[a].nested))]);
    }
  }

  /** Every block left in `after` was in `before`, as the same object. */
  ghost predicate Shrinks<K, V>(before: map<K, V>, after: map<K, V>)
  {
    forall k :: k in after ==> k in before && after[k] == before[k]
  }

  /** The address an allocation was offered, as a set: the one place where an
      operation that may allocate can leave a new block. */
  function Requested(alloc: Option<int>): set<int>
  {
    if alloc.Some? then {alloc.value} else {}
  }

  class Ref<T> {
    /** The bits of `buffer_`. */
    var buffer: int
    /** `Ref<T>` rather than `Ref<const T>`. */
    const unique: bool

    /** `explicit Ref(Refcounted<T>*)`: a new handle adopting the reference
        that `w` carries, without touching any count. */
    constructor Adopt(heap: Heap<T>, w: int, unique: bool)
      requires heap.Sync()
      modifies heap
      ensures heap.Sync() && heap.blocks == old(heap.blocks)
      ensures heap.store == Put(old(heap.store), this, w, unique)
      ensures this.buffer == w && this.unique == unique
    {
      this.unique := unique;
      new;
      Set(heap, w);
    }

    /** The shared copy constructor: `buffer_` starts null, so the copy
        assignment it runs only aliases `other`'s block, which gains one
        reference. `other` must not be null. */
    constructor Copy(heap: Heap<T>, other: Ref<T>)
      requires heap.Valid() && other in heap.store.slots && !other.unique && IsAddress(other.buffer)
      modifies heap, heap.CounterOf(other.buffer)
      ensures heap.Valid() && heap.store == CopyRef(old(heap.store), this, other)
      ensures !unique && buffer == other.buffer && heap.blocks == old(heap.blocks)
    {
      unique := false;
      new;
      CopyRefKeepsValid(heap.store, this, other);
      heap.Retain(other.buffer);
      Set(heap, other.buffer);
    }

    /** The move constructor, of either kind: `buffer_` starts null, so the move
        assignment it runs takes `other`'s pointer, which must not be null, and
        leaves `other` null. */
    constructor Move(heap: Heap<T>, other: Ref<T>)
      requires heap.Valid() && other in heap.store.slots && other.buffer != NULL
      modifies heap, other
      ensures heap.Valid() && heap.store == Transfer(old(heap.store), this, other, other.unique, NULL)
      ensures unique == other.unique && buffer == old(other.buffer) && other.buffer == NULL
      ensures heap.blocks == old(heap.blocks)
    {
      unique := other.unique;
      new;
      TransferKeepsValid(heap.store, this, other, unique, NULL);
      var w := other.buffer;
      other.Set(heap, NULL);
      Set(heap, w);
    }

    /** Handle bookkeeping: `buffer_` is assigned `w`, and the ledger records
        it. */
    method Set(heap: Heap<T>, w: int)
      requires heap.Sync()
      modifies this, heap
      ensures buffer == w && heap.blocks == old(heap.blocks)
      ensures heap.Sync() && heap.store == Put(old(heap.store), this, w, unique)
    {
      buffer := w;
      heap.store := Put(heap.store, this, w, unique);
    }

    /** `Clear`, as it is meant: give up this handle's reference (deleting the
        block when it was the last one) and null `buffer_`. For a unique handle
        this is the source's own `Clear`, whose `IsOne` assertion holds
        because a unique handle is the only holder of its block. */
    method Clear(heap: Heap<T>)
      requires heap.Valid() && this in heap.store.slots && IsPointer(buffer)
      modifies this, heap, heap.CounterOf(buffer)
      ensures heap.Valid() && heap.store == Ownership.Clear(old(heap.store), this)
      ensures Shrinks(old(heap.blocks), heap.blocks) && buffer == NULL
      ensures old(buffer) == NULL ==> heap.blocks == old(heap.blocks)
    {
      ClearKeepsValid(heap.store, this);
      if buffer != NULL {
        var a := buffer;
        if unique {
          var one := heap.blocks[a].refcount.IsOne();
          assert one;
          heap.SelfDelete(a);
        } else {
          heap.Release(a, false);
        }
        Set(heap, NULL);
      }
    }

    /** The shared `Clear` as written: after `Dec`, `buffer_` is nulled only
        when the block was deleted, and otherwise keeps the released address.
        This keeps `Sync` but, on its own, not the ledger invariant. */
    method ClearAsWritten(heap: Heap<T>)
      requires heap.Valid() && this in heap.store.slots && !unique && IsPointer(buffer)
      modifies this, heap, heap.CounterOf(buffer)
      ensures heap.Sync() && heap.store == Ownership.ClearAsWritten(old(heap.store), this)
      ensures Shrinks(old(heap.blocks), heap.blocks) && (old(buffer) == NULL ==> heap.blocks == old(heap.blocks))
    {
      if buffer != NULL {
        var a := buffer;
        heap.Release(a, false);
        if a !in heap.blocks {
          Set(heap, NULL);
        }
      }
    }

    /** The destructor: `Clear` (as written, for a shared handle), and the
        variable is gone. The reference it held is released exactly once. */
    method Destroy(heap: Heap<T>)
      requires heap.Valid() && this in heap.store.slots && IsPointer(buffer)
      modifies this, heap, heap.CounterOf(buffer)
      ensures heap.Valid() && heap.store == Ownership.Destroy(old(heap.store), this)
      ensures this !in heap.store.slots && Shrinks(old(heap.blocks), heap.blocks)
      ensures old(buffer) == NULL ==> heap.blocks == old(heap.blocks)
    {
      DestroyKeepsValid(heap.store, this);
      ClearAsWrittenAgreesWhenDiscarded(heap.store, this, NULL, false);
      if unique {
        Clear(heap);
      } else {
        ClearAsWritten(heap);
      }
      heap.Forget(this);
    }

    /** The shared copy assignment: `Clear` as written, then alias `other`'s
        block, which gains one reference. `other` must not be null. */
    method CopyAssign(heap: Heap<T>, other: Ref<T>)
      requires heap.Valid() && this in heap.store.slots && other in heap.store.slots && this != other
      requires !unique && !other.unique && IsPointer(buffer) && IsAddress(other.buffer)
      modifies this, heap, heap.CounterOf(buffer), heap.CounterOf(other.buffer)
      ensures heap.Valid() && heap.store == Ownership.CopyAssign(old(heap.store), this, other)
      ensures buffer == other.buffer && Shrinks(old(heap.blocks), heap.blocks)
      ensures old(buffer) == NULL ==> heap.blocks == old(heap.blocks)
    {
      ghost var s := heap.store;
      CopyAssignKeepsValid(s, this, other);
      ClearKeepsOtherBlocks(s, this, other);
      ClearAsWrittenAgreesWhenDiscarded(s, this, other.buffer, false);
      ClearAsWritten(heap);
      heap.Retain(other.buffer);
      Set(heap, other.buffer);
    }

    /** The move assignment, as it is meant (and, for a unique handle, as
        written): `Clear`, then swap the null `buffer_` with `other`'s, which
        must not be null. */
    method MoveAssign(heap: Heap<T>, other: Ref<T>)
      requires heap.Valid() && this in heap.store.slots && other in heap.store.slots && this != other
      requires unique == other.unique && IsPointer(buffer) && other.buffer != NULL
      modifies this, other, heap, heap.CounterOf(buffer)
      ensures heap.Valid() && heap.store == Ownership.MoveAssign(old(heap.store), this, other)
      ensures buffer == old(other.buffer) && other.buffer == NULL && Shrinks(old(heap.blocks), heap.blocks)
      ensures old(buffer) == NULL ==> heap.blocks == old(heap.blocks)
    {
      MoveAssignKeepsValid(heap.store, this, other);
      Clear(heap);
      var w := other.buffer;
      other.Set(heap, NULL);
      Set(heap, w);
    }

    /** The shared move assignment as written: `Clear` as written, then
        `std::swap(buffer_, other.buffer_)`. The ledger follows the real
        objects (`Sync`), but see `Ownership.MoveAssignAsWrittenBreaksLedger`
        for what it does to the invariant. */
    method MoveAssignAsWritten(heap: Heap<T>, other: Ref<T>)
      requires heap.Valid() && this in heap.store.slots && other in heap.store.slots && this != other
      requires !unique && !other.unique && IsPointer(buffer) && other.buffer != NULL
      modifies this, other, heap, heap.CounterOf(buffer)
      ensures heap.Sync() && heap.store == Ownership.MoveAssignAsWritten(old(heap.store), this, other)
      ensures Shrinks(old(heap.blocks), heap.blocks) && (old(buffer) == NULL ==> heap.blocks == old(heap.blocks))
    {
      ClearAsWritten(heap);
      var mine, theirs := buffer, other.buffer;
      Set(heap, theirs);
      other.Set(heap, mine);
    }

    /** `operator*`: the value in the block the handle points to. */
    function Deref(heap: Heap<T>): (v: T)
      requires heap.Valid() && this in heap.store.slots && IsAddress(buffer)
      reads this, heap, heap.blocks.Values, heap.Counters(), heap.store.slots.Keys
      ensures v == Pointee(heap.store, this)
    {
      heap.blocks[buffer].nested
    }

    /** `move_buffer()`: clear `buffer_` and return what it held. The caller
        hands the reference on to a new handle. */
    method MoveBuffer(heap: Heap<T>) returns (w: int)
      requires heap.Sync()
      modifies this, heap
      ensures w == old(buffer) && buffer == NULL && heap.blocks == old(heap.blocks)
      ensures heap.Sync() && heap.store == Put(old(heap.store), this, NULL, unique)
    {
      w := buffer;
      Set(heap, NULL);
    }

    /** `Share()`: the unique handle moves its pointer (possibly null) into a
        new shared handle and is left null; no count changes. */
    method Share(heap: Heap<T>) returns (shared: Ref<T>)
      requires heap.Valid() && this in heap.store.slots && unique
      modifies this, heap
      ensures fresh(shared) && !shared.unique && shared.buffer == old(buffer) && buffer == NULL
      ensures heap.Valid() && heap.store == Ownership.Share(old(heap.store), shared, this)
      ensures heap.blocks == old(heap.blocks)
    {
      ghost var s := heap.store;
      var w := MoveBuffer(heap);
      shared := new Ref.Adopt(heap, w, false);
      ShareKeepsValid(s, shared, this);
    }

    /** `AttemptToClaim()`: the shared handle, which must not be null, moves
        its pointer into a new handle, which is unique exactly when the count
        is one (the handle was the block's only holder); the source is left
        null. */
    method AttemptToClaim(heap: Heap<T>) returns (claimed: Ref<T>)
      requires heap.Valid() && this in heap.store.slots && !unique && IsAddress(buffer)
      modifies this, heap
      ensures fresh(claimed) && claimed.buffer == old(buffer) && buffer == NULL
      ensures claimed.unique <==> Holders(old(heap.store.slots), old(buffer)) == {this}
      ensures heap.Valid() && heap.store == Ownership.AttemptToClaim(old(heap.store), claimed, this)
      ensures heap.blocks == old(heap.blocks)
    {
      ghost var s := heap.store;
      var one := heap.blocks[buffer].refcount.IsOne();
      var w := MoveBuffer(heap);
      claimed := new Ref.Adopt(heap, w, one);
      AttemptToClaimKeepsValid(s, claimed, this);
    }
  }

  /** `New<T>`: allocate a block (see `Heap.NewBlock`) and wrap it in a unique
      handle, its only holder. Nothing changes when allocation or construction
      throws. */
  method New<T>(heap: Heap<T>, alloc: Option<int>, init: Option<T>) returns (r: Option<Ref<T>>)
    requires heap.Valid()
    requires alloc.Some? ==> IsAddress(alloc.value) && alloc.value !in heap.blocks
    modifies heap
    ensures heap.Valid()
    ensures r.Some? <==> alloc.Some? && init.Some?
    ensures r.None? ==> heap.store == old(heap.store) && heap.blocks == old(heap.blocks)
    ensures r.Some? ==> alloc.value in heap.blocks
                        && heap.blocks == old(heap.blocks)[alloc.value := heap.blocks[alloc.value]]
                        && fresh(heap.blocks[alloc.value]) && fresh(heap.blocks[alloc.value].refcount)
    ensures r.Some? ==> && fresh(r.value) && r.value.unique && r.value.buffer == alloc.value
                        && heap.store == NewRef(old(heap.store), r.value, alloc.value, init.value)
                        && heap.store.blocks[alloc.value] == Block(1, init.value)
                        && Holders(heap.store.slots, alloc.value) == {r.value}
  {
    ghost var s := heap.store;
    var p := heap.NewBlock(alloc, init);
    if p.None? {
      return None;
    }
    var handle := new Ref.Adopt(heap, p.value, true);
    NewRefKeepsValid(s, handle, p.value, init.value);
    r := Some(handle);
  }

  /** The widening constructor `Ref<const T>(Ref<T>&&)`: the unique handle's
      pointer moves into a new shared handle, exactly like `Share()`. */
  method Widen<T>(heap: Heap<T>, src: Ref<T>) returns (shared: Ref<T>)
    requires heap.Valid() && src in heap.store.slots && src.unique
    modifies src, heap
    ensures fresh(shared) && !shared.unique && shared.buffer == old(src.buffer) && src.buffer == NULL
    ensures heap.Valid() && heap.store == Ownership.Share(old(heap.store), shared, src)
    ensures heap.blocks == old(heap.blocks)
  {
    shared := src.Share(heap);
  }
}
