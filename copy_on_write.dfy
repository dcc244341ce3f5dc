/**
  copy_on_write.h: `CopyOnWrite<T>`, a shared `Ref<const T>` whose value is
  copied only when a mutable reference is asked for and the block is shared.

  `as_mutable()` claims the block when this wrapper is its only holder, and
  otherwise clones the value into a fresh block; `with` writes through that
  reference. The ledger functions below say what each does to the `Store`,
  the lemmas prove the isolation the header promises, and the class is proved
  to follow the ledger functions.
*/
module Cow {
  import opened Options
  import opened Ownership
  import opened Refs

  // ---------------------------------------------------------------------------
  // The ledger
  // ---------------------------------------------------------------------------

  /** `as_mutable()` on the wrapper `c`, whose block is at `a`: a sole holder
      keeps its block; otherwise the value is cloned into a fresh block at the
      address the allocator hands out, `c` moves there and `a` loses one
      reference. When the allocation (`None`) or the copy throws, `c` is left
      null and `a` has still lost the reference. */
  function AsMutableEffect<H(==), T>(s: Store<H, T>, c: H, alloc: Option<int>): Store<H, T>
    requires c in s.slots && s.slots[c].word in s.blocks
  {
    var a := s.slots[c].word;
    if ClaimSucceeds(s, c) then s
    else match alloc
      case None => Put(Release(s, a), c, NULL, s.slots[c].unique)
      case Some(b) => Put(Allocate(Release(s, a), b, s.blocks[a].nested), c, b, s.slots[c].unique)
  }

  /** The mutator of `with`, applied through the reference to `c`'s value. */
  function WriteThrough<H(==), T>(s: Store<H, T>, c: H, f: T -> T): Store<H, T>
    requires c in s.slots
  {
    var a := s.slots[c].word;
    if a in s.blocks then s.(blocks := s.blocks[a := s.blocks[a].(nested := f(s.blocks[a].nested))])
    else s
  }

  /** A handle holding an address with another holder is not the only one. */
  lemma NotSole<H, T>(s: Store<H, T>, c: H, g: H)
    requires Valid(s) && c in s.slots && g in s.slots && c != g
    requires IsAddress(s.slots[c].word) && s.slots[g].word == s.slots[c].word
    ensures !ClaimSucceeds(s, c)
  {
    TwoHolders(s, c, g);
  }

  /** `as_mutable()` keeps the ledger. It claims exactly when `c` is its
      block's only holder, and then changes nothing. Otherwise the old block
      loses one reference and stays alive. On success `c` is the only holder
      of its block, which holds the value `c` saw before. */
  lemma AsMutableKeepsValid<H, T>(s: Store<H, T>, c: H, alloc: Option<int>)
    requires Valid(s) && c in s.slots && IsAddress(s.slots[c].word)
    requires alloc.Some? ==> IsAddress(alloc.value) && alloc.value !in s.blocks
    ensures var s' := AsMutableEffect(s, c, alloc); var a := s.slots[c].word;
            && Valid(s')
            && (ClaimSucceeds(s, c) <==> Holders(s.slots, a) == {c})
            && (ClaimSucceeds(s, c) ==> s' == s)
            && (!ClaimSucceeds(s, c) ==> a in s'.blocks && s'.blocks[a] == s.blocks[a].(count := s.blocks[a].count - 1))
            && (ClaimSucceeds(s, c) || alloc.Some? ==>
                  && s'.slots[c].word in s'.blocks && s'.blocks[s'.slots[c].word].count == 1
                  && Holders(s'.slots, s'.slots[c].word) == {c}
                  && Pointee(s', c) == Pointee(s, c))
            && (!ClaimSucceeds(s, c) && alloc.None? ==> s'.slots[c].word == NULL)
  {
    var a := s.slots[c].word;
    if Holders(s.slots, a) == {c} {
      assert |Holders(s.slots, a)| == 1;
    } else {
      var g :| g in Holders(s.slots, a) && g != c;
      NotSole(s, c, g);
      ClearKeepsValid(s, c);
      var cleared := Clear(s, c);
      if alloc.Some? {
        var b := alloc.value;
        AllocateForKeepsValid(cleared, c, b, s.blocks[a].nested, s.slots[c].unique);
        assert AsMutableEffect(s, c, alloc) == Put(Allocate(cleared, b, s.blocks[a].nested), c, b, s.slots[c].unique) by {
          var x := Slot(b, s.slots[c].unique);
          assert cleared.slots[c := x] == s.slots[c := x];
          assert Allocate(cleared, b, s.blocks[a].nested).blocks == Allocate(Release(s, a), b, s.blocks[a].nested).blocks;
        }
      }
    }
  }

  /** Isolation: `as_mutable()` on `c` changes no other handle, and every
      other handle still sees the value it saw. */
  lemma AsMutableIsolates<H, T>(s: Store<H, T>, c: H, alloc: Option<int>, g: H)
    requires Valid(s) && c in s.slots && IsAddress(s.slots[c].word)
    requires alloc.Some? ==> IsAddress(alloc.value) && alloc.value !in s.blocks
    requires g in s.slots && g != c && s.slots[g].word in s.blocks
    ensures var s' := AsMutableEffect(s, c, alloc);
            && g in s'.slots && s'.slots[g] == s.slots[g]
            && s.slots[g].word in s'.blocks && Pointee(s', g) == Pointee(s, g)
  {
    var a := s.slots[c].word;
    if s.slots[g].word == a {
      NotSole(s, c, g);
    }
    AsMutableKeepsValid(s, c, alloc);
  }

  /** After a successful `as_mutable()` a second one changes nothing, whatever
      the allocator would hand out: the wrapper is now the sole owner. */
  lemma AsMutableIdempotent<H, T>(s: Store<H, T>, c: H, alloc: Option<int>, again: Option<int>)
    requires Valid(s) && c in s.slots && IsAddress(s.slots[c].word)
    requires alloc.Some? ==> IsAddress(alloc.value) && alloc.value !in s.blocks
    requires ClaimSucceeds(s, c) || alloc.Some?
    ensures var s' := AsMutableEffect(s, c, alloc);
            && c in s'.slots && s'.slots[c].word in s'.blocks && ClaimSucceeds(s', c)
            && AsMutableEffect(s', c, again) == s'
  {
    AsMutableKeepsValid(s, c, alloc);
  }

  /** Writing through a handle's reference changes no handle and no count. */
  lemma WriteThroughKeepsValid<H, T>(s: Store<H, T>, c: H, f: T -> T)
    requires Valid(s) && c in s.slots
    ensures Valid(WriteThrough(s, c, f)) && WriteThrough(s, c, f).slots == s.slots
    ensures WriteThrough(s, c, f).blocks.Keys == s.blocks.Keys
  {
    var s' := WriteThrough(s, c, f);
    forall a | a in s'.blocks
      ensures 1 <= s'.blocks[a].count == |Holders(s'.slots, a)|
    {
      assert s'.blocks[a].count == s.blocks[a].count;
    }
  }

  /** Writing through a sole owner's reference changes its value to `f` of
      it, keeps the ledger, and no other handle sees the change. */
  lemma WriteThroughIsolated<H, T>(s: Store<H, T>, c: H, f: T -> T, g: H)
    requires Valid(s) && c in s.slots && s.slots[c].word in s.blocks
    requires Holders(s.slots, s.slots[c].word) == {c}
    requires g in s.slots && g != c && s.slots[g].word in s.blocks
    ensures Valid(WriteThrough(s, c, f)) && WriteThrough(s, c, f).slots == s.slots
    ensures Pointee(WriteThrough(s, c, f), c) == f(Pointee(s, c))
    ensures Pointee(WriteThrough(s, c, f), g) == Pointee(s, g)
  {
    WriteThroughKeepsValid(s, c, f);
    assert g !in Holders(s.slots, s.slots[c].word);
  }

  /** `with(...) const&` on `c`: the temporary copy `d` is cloned into the
      fresh block `b`, written through, and handed to the result `r`. The net
      effect is one new block holding `f` of the value, held by `r` alone; the
      original's handle, block, count and value are untouched. When the clone
      throws, nothing has changed at all. */
  lemma WithCopyEffect<H, T>(s: Store<H, T>, c: H, d: H, r: H, alloc: Option<int>, f: T -> T)
    requires Valid(s) && c in s.slots && !s.slots[c].unique && IsAddress(s.slots[c].word)
    requires d !in s.slots && r !in s.slots && (alloc.Some? ==> d != r)
    requires alloc.Some? ==> IsAddress(alloc.value) && alloc.value !in s.blocks
    ensures var s1 := CopyRef(s, d, c);
            && d in s1.slots && s1.slots[d].word in s1.blocks && !ClaimSucceeds(s1, d)
            && (alloc.None? ==> Destroy(AsMutableEffect(s1, d, alloc), d) == s)
            && (alloc.Some? ==>
                  Destroy(Transfer(WriteThrough(AsMutableEffect(s1, d, alloc), d, f), r, d, false, NULL), d)
                  == Put(Allocate(s, alloc.value, f(Pointee(s, c))), r, alloc.value, false))
  {
    var a := s.slots[c].word;
    var s1 := CopyRef(s, d, c);
    assert s1.blocks == s.blocks[a := s.blocks[a].(count := s.blocks[a].count + 1)];
    var s2 := AsMutableEffect(s1, d, alloc);
    assert Release(s1, a).blocks == s.blocks;
    if alloc.None? {
      assert Destroy(s2, d).slots == s.slots;
    } else {
      var b := alloc.value;
      var v := s.blocks[a].nested;
      assert s2.blocks == s.blocks[b := Block(1, v)];
      assert s2.slots == s.slots[d := Slot(b, false)];
      var s3 := WriteThrough(s2, d, f);
      assert s3.blocks == s.blocks[b := Block(1, f(v))];
      var moved := Transfer(s3, r, d, false, NULL);
      assert moved.slots == s.slots[d := Slot(NULL, false)][r := Slot(b, false)];
      assert Destroy(moved, d).slots == s.slots[r := Slot(b, false)];
    }
  }

  // ---------------------------------------------------------------------------
  // The steps of `as_mutable()`
  // ---------------------------------------------------------------------------

  /** `ref_ = std::move(owned).Share()` with `ref_` (`c`) null: `owned`
      (`o`) is shared into a temporary `sh`, which is move-assigned into `c`
      and dies at the end of the statement. Since `c` is null, the move
      assignment as written does what is meant. Net: `o`'s word moves to `c`. */
  lemma InstallEffect<H, T>(x: Store<H, T>, c: H, o: H, sh: H)
    requires Valid(x) && c in x.slots && o in x.slots && sh !in x.slots && c != o
    requires x.slots[c].word == NULL && !x.slots[c].unique
    ensures Valid(Share(x, sh, o))
    ensures Destroy(MoveAssign(Share(x, sh, o), c, sh), sh) == Transfer(x, c, o, false, NULL)
  {
    ShareKeepsValid(x, sh, o);
    var x1 := Share(x, sh, o);
    var x2 := MoveAssign(x1, c, sh);
    assert Clear(x1, c) == x1;
    assert ClearAsWritten(x2, sh) == x2;
    assert Destroy(x2, sh).slots == Transfer(x, c, o, false, NULL).slots;
  }

  /** What is left once `owned` (`o`, null after the move) dies: `c` holds its
      old word and `o` is gone. */
  lemma InstalledEffect<H, T>(x: Store<H, T>, c: H, o: H)
    requires o in x.slots && c != o
    ensures var y := Transfer(x, c, o, false, NULL);
            o in y.slots && Destroy(y, o) == Put(Remove(x, o), c, x.slots[o].word, false)
  {
    var y := Transfer(x, c, o, false, NULL);
    assert Destroy(y, o).slots == (x.slots - {o})[c := Slot(x.slots[o].word, false)];
  }

  /** The claim path: `AttemptToClaim` into `t`, moved into `owned` (`o`),
      then reseated into `c` and `t` destroyed, leaves the ledger as it was. */
  lemma ClaimPathEffect<H, T>(s: Store<H, T>, c: H, t: H, o: H)
    requires Valid(s) && c in s.slots && !s.slots[c].unique && IsAddress(s.slots[c].word)
    requires t !in s.slots && o !in s.slots && t != o && ClaimSucceeds(s, c)
    ensures var x := Transfer(AttemptToClaim(s, t, c), o, t, true, NULL);
            Destroy(Put(Remove(x, o), c, x.slots[o].word, false), t) == s
  {
    var s1 := AttemptToClaim(s, t, c);
    var x := Transfer(s1, o, t, true, NULL);
    var y := Put(Remove(x, o), c, x.slots[o].word, false);
    assert ClearAsWritten(y, t) == y;
    assert Destroy(y, t).slots == s.slots;
  }

  /** The clone path: `AttemptToClaim` into the shared `t`, a fresh unique
      `owned` (`o`) holding a copy at `b`, reseated into `c`, then `t`
      destroyed, releasing the old block: the ledger of `AsMutableEffect`. */
  lemma ClonePathEffect<H, T>(s: Store<H, T>, c: H, t: H, o: H, b: int)
    requires Valid(s) && c in s.slots && !s.slots[c].unique && IsAddress(s.slots[c].word)
    requires t !in s.slots && o !in s.slots && t != o && !ClaimSucceeds(s, c)
    requires IsAddress(b) && b !in s.blocks
    ensures var a := s.slots[c].word;
            var x := NewRef(AttemptToClaim(s, t, c), o, b, s.blocks[a].nested);
            var y := Put(Remove(x, o), c, x.slots[o].word, false);
            && t in y.slots && y.slots[t].word in y.blocks
            && Destroy(y, t) == AsMutableEffect(s, c, Some(b))
  {
    var a := s.slots[c].word;
    var s1 := AttemptToClaim(s, t, c);
    var x := NewRef(s1, o, b, s.blocks[a].nested);
    var y := Put(Remove(x, o), c, b, false);
    assert y.blocks == s.blocks[b := Block(1, s.blocks[a].nested)];
    assert y.slots == s.slots[c := Slot(b, false)][t := Slot(a, false)];
    assert ClearAsWritten(y, t) == Release(y, a);
    assert Release(y, a).blocks == Release(s, a).blocks[b := Block(1, s.blocks[a].nested)];
    assert s.slots[c := Slot(b, false)][t := Slot(a, false)] - {t} == s.slots[c := Slot(b, false)];
  }

  /** The failed clone: the shared `t` from `AttemptToClaim` is destroyed
      while the exception unwinds, releasing the old block; `c` stays null. */
  lemma FailedClonePathEffect<H, T>(s: Store<H, T>, c: H, t: H)
    requires Valid(s) && c in s.slots && !s.slots[c].unique && IsAddress(s.slots[c].word)
    requires t !in s.slots && !ClaimSucceeds(s, c)
    ensures Valid(AttemptToClaim(s, t, c))
    ensures Destroy(AttemptToClaim(s, t, c), t) == AsMutableEffect(s, c, None)
  {
    AttemptToClaimKeepsValid(s, t, c);
    var s1 := AttemptToClaim(s, t, c);
    assert Destroy(s1, t).slots == s.slots[c := Slot(NULL, false)];
  }

  /** The first half of `as_mutable()` on `c`: `AttemptToClaim` into `t`;
      a claimed `t` is moved into the unique `o`, otherwise `o` is a new
      unique handle on a copy of the value at the fresh address `b`. */
  function Acquired<H(==), T>(s: Store<H, T>, c: H, t: H, o: H, b: int): Store<H, T>
    requires c in s.slots && s.slots[c].word in s.blocks
  {
    var claimed := AttemptToClaim(s, t, c);
    if ClaimSucceeds(s, c) then Transfer(claimed, o, t, true, NULL)
    else NewRef(claimed, o, b, s.blocks[s.slots[c].word].nested)
  }

  /** Both halves of `as_mutable()` together, whichever path is taken: the
      second half (`ref_ = std::move(owned).Share()`, then `owned` and
      `as_owned` die) after the first yields `AsMutableEffect`. */
  lemma AcquiredThenFinished<H, T>(s: Store<H, T>, c: H, t: H, o: H, alloc: Option<int>)
    requires Valid(s) && c in s.slots && !s.slots[c].unique && IsAddress(s.slots[c].word)
    requires t !in s.slots && o !in s.slots && t != o
    requires alloc.Some? ==> IsAddress(alloc.value) && alloc.value !in s.blocks
    requires ClaimSucceeds(s, c) || alloc.Some?
    ensures var b := if alloc.Some? then alloc.value else NULL;
            var x := Acquired(s, c, t, o, b);
            && t in x.slots && o in x.slots && (IsAddress(x.slots[t].word) ==> x.slots[t].word in x.blocks)
            && Destroy(Put(Remove(x, o), c, x.slots[o].word, false), t) == AsMutableEffect(s, c, alloc)
  {
    if ClaimSucceeds(s, c) {
      ClaimPathEffect(s, c, t, o);
    } else {
      ClonePathEffect(s, c, t, o, alloc.value);
    }
  }

  // ---------------------------------------------------------------------------
  // The class
  // ---------------------------------------------------------------------------

  class CopyOnWrite<T> {
    /** `ref_`, a `Ref<const T>`. */
    const ref: Ref<T>

    /** The object around a handle already set up; the constructors of the
        source are the `New…` methods below. */
    constructor Wrap(ref: Ref<T>)
      ensures this.ref == ref
    {
      this.ref := ref;
    }

    /** The defaulted copy assignment: `Ref<const T>`'s. */
    method CopyAssign(heap: Heap<T>, that: CopyOnWrite<T>)
      requires heap.Valid() && ref in heap.store.slots && that.ref in heap.store.slots && ref != that.ref
      requires !ref.unique && !that.ref.unique && IsPointer(ref.buffer) && IsAddress(that.ref.buffer)
      modifies ref, heap, heap.CounterOf(ref.buffer), heap.CounterOf(that.ref.buffer)
      ensures heap.Valid() && heap.store == Ownership.CopyAssign(old(heap.store), ref, that.ref)
      ensures Shrinks(old(heap.blocks), heap.blocks) && (old(ref.buffer) == NULL ==> heap.blocks == old(heap.blocks))
    {
      ref.CopyAssign(heap, that.ref);
    }

    /** The defaulted move assignment: `Ref<const T>`'s, as written. The real
        objects and the ledger stay in step, but when this wrapper shares its
        block the released address ends up in `that`, which releases it again
        (`Ownership.MoveAssignAsWrittenBreaksLedger`); when this wrapper is
        null or the block's last holder it is `MoveAssign`
        (`Ownership.MoveAssignAsWrittenAgreesUnlessShared`). */
    method MoveAssignAsWritten(heap: Heap<T>, that: CopyOnWrite<T>)
      requires heap.Valid() && ref in heap.store.slots && that.ref in heap.store.slots && ref != that.ref
      requires !ref.unique && !that.ref.unique && IsPointer(ref.buffer) && that.ref.buffer != NULL
      modifies ref, that.ref, heap, heap.CounterOf(ref.buffer)
      ensures heap.Sync() && heap.store == Ownership.MoveAssignAsWritten(old(heap.store), ref, that.ref)
      ensures Shrinks(old(heap.blocks), heap.blocks) && (old(ref.buffer) == NULL ==> heap.blocks == old(heap.blocks))
    {
      ref.MoveAssignAsWritten(heap, that.ref);
    }

    /** The defaulted move assignment as it is meant (see
        `Refs.Ref.MoveAssign`): only this wrapper's old reference is released
        and `that` is left null. */
    method MoveAssign(heap: Heap<T>, that: CopyOnWrite<T>)
      requires heap.Valid() && ref in heap.store.slots && that.ref in heap.store.slots && ref != that.ref
      requires !ref.unique && !that.ref.unique && IsPointer(ref.buffer) && that.ref.buffer != NULL
      modifies ref, that.ref, heap, heap.CounterOf(ref.buffer)
      ensures heap.Valid() && heap.store == Ownership.MoveAssign(old(heap.store), ref, that.ref)
      ensures Shrinks(old(heap.blocks), heap.blocks) && (old(ref.buffer) == NULL ==> heap.blocks == old(heap.blocks))
    {
      ref.MoveAssign(heap, that.ref);
    }

    /** The defaulted destructor: `Ref<const T>`'s. */
    method Destroy(heap: Heap<T>)
      requires heap.Valid() && ref in heap.store.slots && IsPointer(ref.buffer)
      modifies ref, heap, heap.CounterOf(ref.buffer)
      ensures heap.Valid() && heap.store == Ownership.Destroy(old(heap.store), ref)
      ensures Shrinks(old(heap.blocks), heap.blocks) && (old(ref.buffer) == NULL ==> heap.blocks == old(heap.blocks))
    {
      ref.Destroy(heap);
    }

    /** `operator==(nullptr)`. */
    function IsNull(heap: Heap<T>): (r: bool)
      requires heap.Sync() && ref in heap.store.slots
      reads this, ref, heap, heap.blocks.Values, heap.Counters(), heap.store.slots.Keys
      ensures r <==> heap.store.slots[ref].word == NULL
    {
      ref.buffer == NULL
    }

    /** `operator*`: the value, which must exist. */
    function Deref(heap: Heap<T>): (v: T)
      requires heap.Valid() && ref in heap.store.slots && IsAddress(ref.buffer)
      reads this, ref, heap, heap.blocks.Values, heap.Counters(), heap.store.slots.Keys
      ensures v == Pointee(heap.store, ref)
    {
      ref.Deref(heap)
    }

    /** `as_mutable()`: claim the block through `AttemptToClaim` when this
        wrapper is its only holder, otherwise copy the value into a new block
        (`New<T>`), then share the owned handle back into `ref_`. Returns the
        value the returned reference refers to, or `None` when the copy's
        allocation threw, in which case `ref_` is left null. `ref_` must not be
        null. The block the reference points into is either the one this
        wrapper held, when it was the only holder, or a fresh one. */
    method AsMutable(heap: Heap<T>, alloc: Option<int>) returns (value: Option<T>)
      requires heap.Valid() && ref in heap.store.slots && !ref.unique && IsAddress(ref.buffer)
      requires alloc.Some? ==> IsAddress(alloc.value) && alloc.value !in heap.blocks
      modifies ref, heap, heap.CounterOf(ref.buffer)
      ensures heap.Valid() && heap.store == AsMutableEffect(old(heap.store), ref, alloc)
      ensures value.None? <==> !ClaimSucceeds(old(heap.store), ref) && alloc.None?
      ensures value.Some? ==> && IsAddress(ref.buffer) && ref.buffer in heap.blocks
                              && value.value == Pointee(old(heap.store), ref)
                              && fresh(heap.BlockAt(ref.buffer) - old(heap.SoleBlockAt(ref.buffer)))
      ensures Shrinks(old(heap.blocks), heap.blocks - Requested(alloc))
      ensures alloc.Some? && alloc.value in heap.blocks ==>
                alloc.value !in old(heap.blocks) && fresh(heap.blocks[alloc.value]) && fresh(heap.blocks[alloc.value].refcount)
    {
      ghost var s := heap.store;
      var asOwned, made := Acquire(heap, alloc);
      if made.None? {
        FailedClonePathEffect(s, ref, asOwned);
        asOwned.Destroy(heap);
        return None;
      }
      var owned := made.value;
      AcquiredThenFinished(s, ref, asOwned, owned, alloc);
      label acquired:
      var v := Finish(heap, asOwned, owned);
      assert heap.BlockAt(ref.buffer) <= old@acquired(heap.BlockAt(owned.buffer));
      value := Some(v);
    }

    /** The first half of `as_mutable()`: `AttemptToClaim()` into `as_owned`;
        a claimed handle is moved into the unique `owned`; a shared one is
        left alone and its value is copied into a new block
        (`New<T>(*as_owned)`), `None` when that throws. */
    method Acquire(heap: Heap<T>, alloc: Option<int>) returns (asOwned: Ref<T>, owned: Option<Ref<T>>)
      requires heap.Valid() && ref in heap.store.slots && !ref.unique && IsAddress(ref.buffer)
      requires alloc.Some? ==> IsAddress(alloc.value) && alloc.value !in heap.blocks
      modifies ref, heap
      ensures heap.Valid() && fresh(asOwned) && ref.buffer == NULL
      ensures asOwned.unique <==> ClaimSucceeds(old(heap.store), ref)
      ensures owned.None? <==> !asOwned.unique && alloc.None?
      ensures owned.None? ==> && heap.store == AttemptToClaim(old(heap.store), asOwned, ref)
                              && heap.blocks == old(heap.blocks) && asOwned.buffer == old(ref.buffer)
      ensures owned.Some? ==> && fresh(owned.value) && owned.value != asOwned
                              && heap.store == Acquired(old(heap.store), ref, asOwned, owned.value,
                                                        if alloc.Some? then alloc.value else NULL)
      ensures owned.Some? && asOwned.unique ==>
                && heap.blocks == old(heap.blocks) && owned.value.buffer == old(ref.buffer) && asOwned.buffer == NULL
      ensures owned.Some? && !asOwned.unique ==>
                && heap.blocks == old(heap.blocks)[alloc.value := heap.blocks[alloc.value]]
                && fresh(heap.blocks[alloc.value]) && fresh(heap.blocks[alloc.value].refcount)
                && owned.value.buffer == alloc.value && asOwned.buffer == old(ref.buffer)
      ensures owned.Some? ==> fresh(heap.BlockAt(owned.value.buffer) - old(heap.SoleBlockAt(ref.buffer)))
    {
      ghost var s := heap.store;
      asOwned := ref.AttemptToClaim(heap);
      AttemptToClaimKeepsValid(s, asOwned, ref);
      owned := Own(heap, asOwned, alloc);
    }

    /** The second half of `as_mutable()`: `ref_ = std::move(owned).Share()`,
        then `owned` and `as_owned` die at the end of the function, and
        `*ref_` is what the returned reference refers to. */
    method Finish(heap: Heap<T>, asOwned: Ref<T>, owned: Ref<T>) returns (value: T)
      requires heap.Valid() && ref in heap.store.slots && owned in heap.store.slots && asOwned in heap.store.slots
      requires ref != owned && ref != asOwned && owned != asOwned
      requires ref.buffer == NULL && !ref.unique && owned.unique && IsAddress(owned.buffer) && IsPointer(asOwned.buffer)
      modifies ref, owned, asOwned, heap, heap.CounterOf(asOwned.buffer)
      ensures heap.Valid()
      ensures heap.store == Ownership.Destroy(Put(Remove(old(heap.store), owned), ref, old(owned.buffer), false), asOwned)
      ensures ref.buffer == old(owned.buffer) && Shrinks(old(heap.blocks), heap.blocks)
      ensures IsAddress(ref.buffer) && ref.buffer in heap.blocks && value == Pointee(heap.store, ref)
      ensures heap.BlockAt(ref.buffer) <= old(heap.BlockAt(owned.buffer))
    {
      Install(heap, owned);
      asOwned.Destroy(heap);
      value := ref.Deref(heap);
    }

    /** `ref_ = std::move(owned).Share()` with `ref_` null: the shared
        temporary takes `owned`'s block, is moved into `ref_` and dies at the
        end of the statement; `owned`, now null, dies too. */
    method Install(heap: Heap<T>, owned: Ref<T>)
      requires heap.Valid() && ref in heap.store.slots && owned in heap.store.slots && ref != owned
      requires ref.buffer == NULL && !ref.unique && owned.unique && owned.buffer != NULL
      modifies ref, owned, heap
      ensures ref.buffer == old(owned.buffer)
      ensures heap.Valid() && heap.store == Put(Remove(old(heap.store), owned), ref, old(owned.buffer), false)
      ensures heap.blocks == old(heap.blocks)
    {
      ghost var x := heap.store;
      var shared := owned.Share(heap);
      InstallEffect(x, ref, owned, shared);
      InstalledEffect(x, ref, owned);
      MoveAssignAsWrittenAgreesUnlessShared(heap.store, ref, shared);
      MoveAssignKeepsValid(heap.store, ref, shared);
      assert heap.CounterOf(ref.buffer) == {};
      ref.MoveAssignAsWritten(heap, shared);
      assert heap.CounterOf(shared.buffer) == {};
      shared.Destroy(heap);
      assert heap.CounterOf(owned.buffer) == {};
      owned.Destroy(heap);
    }

    /** `with(mutator) &&`: write `f` of the value through `as_mutable()`,
        cloning only when the block is shared, and move this wrapper into the
        result. Only a block this wrapper solely owns, or a fresh one, is
        written. `None` when the clone's allocation threw. */
    method WithMove(heap: Heap<T>, alloc: Option<int>, f: T -> T) returns (r: Option<CopyOnWrite<T>>)
      requires heap.Valid() && ref in heap.store.slots && !ref.unique && IsAddress(ref.buffer)
      requires alloc.Some? ==> IsAddress(alloc.value) && alloc.value !in heap.blocks
      modifies ref, heap, heap.CounterOf(ref.buffer), heap.SoleBlockAt(ref.buffer)
      ensures heap.Valid()
      ensures r.None? <==> !ClaimSucceeds(old(heap.store), ref) && alloc.None?
      ensures r.None? ==> heap.store == AsMutableEffect(old(heap.store), ref, alloc)
      ensures r.Some? ==> fresh(r.value.ref) && ref.buffer == NULL
      ensures r.Some? ==> heap.store == Transfer(WriteThrough(AsMutableEffect(old(heap.store), ref, alloc), ref, f),
                                                 r.value.ref, ref, false, NULL)
      ensures Shrinks(old(heap.blocks), heap.blocks - Requested(alloc))
      ensures alloc.Some? && alloc.value in heap.blocks ==>
                alloc.value !in old(heap.blocks) && fresh(heap.blocks[alloc.value]) && fresh(heap.blocks[alloc.value].refcount)
    {
      ghost var s := heap.store;
      var value := AsMutable(heap, alloc);
      if value.None? {
        return None;
      }
      ghost var s1 := heap.store;
      WriteThroughKeepsValid(s1, ref, f);
      heap.Mutate(ref.buffer, f);
      assert heap.store == WriteThrough(s1, ref, f);
      var result := NewMoved(heap, this);
      r := Some(result);
    }

    /** `with(mutator) const&`: copy this wrapper, call `with &&` on the copy
        and return it. The result holds a new block with `f` of the value;
        this wrapper's block, count and value are untouched. `None` (and no
        change at all) when the clone's allocation threw. */
    method WithCopy(heap: Heap<T>, alloc: Option<int>, f: T -> T) returns (r: Option<CopyOnWrite<T>>)
      requires heap.Valid() && ref in heap.store.slots && !ref.unique && IsAddress(ref.buffer)
      requires alloc.Some? ==> IsAddress(alloc.value) && alloc.value !in heap.blocks
      modifies heap, heap.CounterOf(ref.buffer)
      ensures heap.Valid()
      ensures r.None? <==> alloc.None?
      ensures r.None? ==> heap.store == old(heap.store)
      ensures r.Some? ==> && fresh(r.value.ref)
                          && heap.store == Put(Allocate(old(heap.store), alloc.value, f(Pointee(old(heap.store), ref))),
                                               r.value.ref, alloc.value, false)
      ensures Shrinks(old(heap.blocks), heap.blocks - Requested(alloc))
      ensures alloc.Some? && alloc.value in heap.blocks ==>
                alloc.value !in old(heap.blocks) && fresh(heap.blocks[alloc.value]) && fresh(heap.blocks[alloc.value].refcount)
    {
      ghost var s := heap.store;
      var copy := NewCopy(heap, this);
      NotSole(heap.store, copy.ref, ref);
      assert heap.SoleBlockAt(copy.ref.buffer) == {};
      if alloc.None? {
        WithCopyEffect(s, ref, copy.ref, copy.ref, alloc, f);
      }
      r := copy.WithMove(heap, alloc, f);
      if r.Some? {
        WithCopyEffect(s, ref, copy.ref, r.value.ref, alloc, f);
      }
      copy.Destroy(heap);
    }
  }

  // ---------------------------------------------------------------------------
  // The constructors
  // ---------------------------------------------------------------------------

  /** `CopyOnWrite(nullptr)`: a wrapper holding no block. */
  method NewNull<T>(heap: Heap<T>) returns (r: CopyOnWrite<T>)
    requires heap.Valid()
    modifies heap
    ensures fresh(r) && fresh(r.ref) && !r.ref.unique && r.ref.buffer == NULL
    ensures heap.Valid() && heap.store == Put(old(heap.store), r.ref, NULL, false)
    ensures heap.blocks == old(heap.blocks)
  {
    ghost var s := heap.store;
    var ref := new Ref.Adopt(heap, NULL, false);
    AddKeepsValid(s, ref, NULL, false);
    r := new CopyOnWrite.Wrap(ref);
  }

  /** The defaulted copy constructor: the block, which must exist, gains one
      reference; the value is not copied. */
  method NewCopy<T>(heap: Heap<T>, that: CopyOnWrite<T>) returns (r: CopyOnWrite<T>)
    requires heap.Valid() && that.ref in heap.store.slots && !that.ref.unique && IsAddress(that.ref.buffer)
    modifies heap, heap.CounterOf(that.ref.buffer)
    ensures fresh(r) && fresh(r.ref) && !r.ref.unique && r.ref.buffer == that.ref.buffer
    ensures heap.Valid() && heap.store == CopyRef(old(heap.store), r.ref, that.ref)
    ensures heap.blocks == old(heap.blocks)
  {
    var ref := new Ref.Copy(heap, that.ref);
    r := new CopyOnWrite.Wrap(ref);
  }

  /** The defaulted move constructor: the block, which must exist, moves
      over and `that` is left null. */
  method NewMoved<T>(heap: Heap<T>, that: CopyOnWrite<T>) returns (r: CopyOnWrite<T>)
    requires heap.Valid() && that.ref in heap.store.slots && !that.ref.unique && that.ref.buffer != NULL
    modifies heap, that.ref
    ensures fresh(r) && fresh(r.ref) && !r.ref.unique && r.ref.buffer == old(that.ref.buffer) && that.ref.buffer == NULL
    ensures heap.Valid() && heap.store == Transfer(old(heap.store), r.ref, that.ref, false, NULL)
    ensures heap.blocks == old(heap.blocks)
  {
    var ref := new Ref.Move(heap, that.ref);
    r := new CopyOnWrite.Wrap(ref);
  }

  /** The branch in `as_mutable()` after `AttemptToClaim()`: a claimed
      `as_owned` is moved into the unique `owned`; a shared one is left alone
      and its value is copied into a new block (`New<T>(*as_owned)`), `None`
      when that throws. */
  method Own<T>(heap: Heap<T>, asOwned: Ref<T>, alloc: Option<int>) returns (owned: Option<Ref<T>>)
    requires heap.Valid() && asOwned in heap.store.slots && IsAddress(asOwned.buffer)
    requires alloc.Some? ==> IsAddress(alloc.value) && alloc.value !in heap.blocks
    modifies heap, asOwned
    ensures heap.Valid()
    ensures owned.None? <==> !asOwned.unique && alloc.None?
    ensures owned.None? ==> heap.store == old(heap.store) && heap.blocks == old(heap.blocks)
    ensures owned.Some? ==> fresh(owned.value) && owned.value.unique
    ensures owned.Some? && asOwned.unique ==>
              && heap.store == Transfer(old(heap.store), owned.value, asOwned, true, NULL)
              && heap.blocks == old(heap.blocks) && owned.value.buffer == old(asOwned.buffer) && asOwned.buffer == NULL
    ensures owned.Some? && !asOwned.unique ==>
              && heap.store == NewRef(old(heap.store), owned.value, alloc.value, Pointee(old(heap.store), asOwned))
              && heap.blocks == old(heap.blocks)[alloc.value := heap.blocks[alloc.value]]
              && fresh(heap.blocks[alloc.value]) && fresh(heap.blocks[alloc.value].refcount)
              && owned.value.buffer == alloc.value && asOwned.buffer == old(asOwned.buffer)
  {
    if asOwned.unique {
      var moved := new Ref.Move(heap, asOwned);
      owned := Some(moved);
    } else {
      var copy := asOwned.Deref(heap);
      owned := New(heap, alloc, Some(copy));
    }
  }

  /** `CopyOnWrite(absl::in_place, args...)`: `New<T>(args...).Share()`. The
      wrapper is the only holder of a fresh block with count 1 holding the
      constructed value; nothing changes when allocation or construction
      throws. */
  method InPlace<T>(heap: Heap<T>, alloc: Option<int>, init: Option<T>) returns (r: Option<CopyOnWrite<T>>)
    requires heap.Valid()
    requires alloc.Some? ==> IsAddress(alloc.value) && alloc.value !in heap.blocks
    modifies heap
    ensures heap.Valid()
    ensures r.Some? <==> alloc.Some? && init.Some?
    ensures r.None? ==> heap.store == old(heap.store) && heap.blocks == old(heap.blocks)
    ensures r.Some? ==> alloc.value in heap.blocks
                        && heap.blocks == old(heap.blocks)[alloc.value := heap.blocks[alloc.value]]
                        && fresh(heap.blocks[alloc.value]) && fresh(heap.blocks[alloc.value].refcount)
    ensures r.Some? ==> && fresh(r.value) && fresh(r.value.ref) && !r.value.ref.unique
                        && heap.store == Put(Allocate(old(heap.store), alloc.value, init.value), r.value.ref, alloc.value, false)
                        && heap.store.blocks[alloc.value] == Block(1, init.value)
                        && Holders(heap.store.slots, alloc.value) == {r.value.ref}
  {
    ghost var s := heap.store;
    var made := New(heap, alloc, init);
    if made.None? {
      return None;
    }
    var owned := made.value;
    var shared := owned.Share(heap);
    HandOver(Allocate(s, alloc.value, init.value), owned, alloc.value, true, shared, false);
    owned.Destroy(heap);
    AllocateForKeepsValid(s, shared, alloc.value, init.value, false);
    var wrapper := new CopyOnWrite.Wrap(shared);
    r := Some(wrapper);
  }
}
