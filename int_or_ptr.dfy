/**
  int_or_ptr.h: `IntOrValue<Ref<T>>`, a one-word union of an `intptr_t`
  number and a `Ref<T>`, and `IntOrRef<T>`, the class built on it.

  The word's low bit tells the two apart: a number `v` is stored as
  `(v << 1) | 1`, which is odd, and a `Ref` is stored as its pointer, which is
  even because allocations are aligned. The word is the `buffer` of a `Ref`
  handle (`cell`), so the ledger of module `Ownership` counts it as a holder
  exactly when it is an address.

  The queries are functions of the word and of the blocks it may point into;
  the constructors and assignments are methods that change the word in place.
*/
module IntOrPtr {
  import opened Options
  import opened Ownership
  import opened Refs

  // ---------------------------------------------------------------------------
  // The word
  // ---------------------------------------------------------------------------

  const TWO_TO_THE_64: int := 0x1_0000_0000_0000_0000

  /** The numbers whose encoding does not lose the word's top bit. */
  predicate Fits(v: int) { InWord(2 * v + 1) }

  /** Two's-complement truncation to one word, for the values a one-bit shift
      of a word can produce. */
  function Wrap(x: int): (r: int)
    requires 2 * WORD_MIN <= x <= 2 * WORD_MAX + 1
    ensures InWord(r) && (r == x || r == x - TWO_TO_THE_64 || r == x + TWO_TO_THE_64)
    ensures InWord(x) ==> r == x
  {
    if x > WORD_MAX then x - TWO_TO_THE_64
    else if x < WORD_MIN then x + TWO_TO_THE_64
    else x
  }

  /** `(value << 1) | 1`: the word holding the number `v`. The shift drops the
      top bit of the word. */
  function Encode(v: int): (w: int)
    requires InWord(v)
    ensures InWord(w) && HasNumber(w)
    ensures Fits(v) ==> w == 2 * v + 1
  {
    Wrap(2 * v + 1)
  }

  /** `has_number()`: the low bit (`number_ & 1`) is set. */
  predicate HasNumber(w: int) { w % 2 == 1 }

  /** `has_value()` / `has_ref()`: the low bit is clear. */
  predicate HasRef(w: int) { !HasNumber(w) }

  /** `number()`: the number the word holds (`number_ >> 1`), if it holds one. */
  function Number(w: int): (n: Option<int>)
    ensures n.Some? <==> HasNumber(w)
    ensures n.Some? ==> 2 * n.value + 1 == w
  {
    if HasNumber(w) then Some(w / 2) else None
  }

  /** A word the queries may look at: a number, or a pointer to a live block. */
  predicate Readable<T>(blocks: map<int, Block<T>>, w: int) { HasNumber(w) || w in blocks }

  /** `ref()`: the value the word's `Ref` points to, if it holds a `Ref`. */
  function RefOf<T>(blocks: map<int, Block<T>>, w: int): (r: Option<T>)
    requires Readable(blocks, w)
    ensures r.Some? <==> HasRef(w)
    ensures r.Some? ==> r.value == blocks[w].nested
  {
    if HasNumber(w) then None else Some(blocks[w].nested)
  }

  /** What a word holds, as `absl::variant<I, std::reference_wrapper<T>>`. */
  datatype View<T> = Num(n: int) | Pointee(v: T)

  /** `Variant()`: index 0 with the number when `ref()` is null, and index 1
      with the pointee otherwise. */
  function Variant<T>(blocks: map<int, Block<T>>, w: int): (r: View<T>)
    requires Readable(blocks, w)
    ensures r.Num? <==> HasNumber(w)
    ensures r.Num? ==> Number(w) == Some(r.n)
    ensures r.Pointee? ==> RefOf(blocks, w) == Some(r.v)
  {
    match RefOf(blocks, w)
    case None => Num(Number(w).value)
    case Some(v) => Pointee(v)
  }

  /** `operator==`: when this holds no `Ref`, compare the two `number()`s;
      otherwise the other must hold a `Ref` too, and the pointees are
      compared. It is equality of what the two words hold. */
  function Equal<T(==)>(blocks: map<int, Block<T>>, x: int, y: int): (r: bool)
    requires Readable(blocks, x) && Readable(blocks, y)
    ensures r <==> Variant(blocks, x) == Variant(blocks, y)
  {
    match RefOf(blocks, x)
    case None => Number(x) == Number(y)
    case Some(v) =>
      match RefOf(blocks, y)
      case None => false
      case Some(u) => v == u
  }

  /** `operator!=`: the negation of `operator==`. */
  function NotEqual<T(==)>(blocks: map<int, Block<T>>, x: int, y: int): (r: bool)
    requires Readable(blocks, x) && Readable(blocks, y)
    ensures r <==> Variant(blocks, x) != Variant(blocks, y)
  {
    !Equal(blocks, x, y)
  }

  // ---------------------------------------------------------------------------
  // Properties of the word
  // ---------------------------------------------------------------------------

  /** Encoding then decoding gives the number back exactly when its doubled
      value fits the word; otherwise the top bit is lost. */
  lemma EncodeRoundTrip(v: int)
    requires InWord(v)
    ensures Number(Encode(v)) == Some(v) <==> Fits(v)
    ensures !Fits(v) ==> Number(Encode(v)) == Some(if v < 0 then v + TWO_TO_THE_64 / 2 else v - TWO_TO_THE_64 / 2)
  {
    var w := Encode(v);
    if !Fits(v) {
      if 2 * v + 1 > WORD_MAX {
        assert w == 2 * v + 1 - TWO_TO_THE_64;
        assert w / 2 == v - TWO_TO_THE_64 / 2;
      } else {
        assert w == 2 * v + 1 + TWO_TO_THE_64;
        assert w / 2 == v + TWO_TO_THE_64 / 2;
      }
    }
  }

  /** Every word holding a number is the encoding of that number, which
      fits. */
  lemma DecodeRoundTrip(w: int)
    requires InWord(w) && HasNumber(w)
    ensures Fits(Number(w).value) && Encode(Number(w).value) == w
  {
  }

  /** The default word, `IntOrValue()`, is the number 0. */
  lemma DefaultIsZero()
    ensures Encode(0) == 1 && Number(1) == Some(0)
  {
  }

  /** A `Ref` is stored as an even address, so a word holding one has no
      number and `ref()` points at the block's value. */
  lemma AddressHoldsRef<T>(blocks: map<int, Block<T>>, w: int)
    requires IsAddress(w) && w in blocks
    ensures HasRef(w) && Number(w) == None
    ensures RefOf(blocks, w) == Some(blocks[w].nested) && Variant(blocks, w) == Pointee(blocks[w].nested)
  {
  }

  /** Two numbers are equal exactly when they are the same number, and a
      number never equals a `Ref`. */
  lemma EqualByCases<T>(blocks: map<int, Block<T>>, v: int, u: int, a: int)
    requires Fits(v) && Fits(u) && InWord(v) && InWord(u) && IsAddress(a) && a in blocks
    ensures Equal(blocks, Encode(v), Encode(u)) <==> v == u
    ensures !Equal(blocks, Encode(v), a) && !Equal(blocks, a, Encode(v))
  {
    assert Variant(blocks, Encode(v)) == Num(v);
    assert Variant(blocks, Encode(u)) == Num(u);
  }

  // ---------------------------------------------------------------------------
  // The ledger
  // ---------------------------------------------------------------------------

  /** The move constructor starts from the number 0 and swaps: that is handing
      the source's word to the new word and leaving the source the number 0. */
  lemma SwapIntoFresh<H, T>(s: Store<H, T>, d: H, e: H, unique: bool)
    requires e in s.slots && d !in s.slots
    ensures Swap(Put(s, d, Encode(0), unique), d, e) == Transfer(s, d, e, unique, Encode(0))
  {
    var x, y := Slot(s.slots[e].word, unique), Slot(Encode(0), s.slots[e].unique);
    assert s.slots[d := Slot(Encode(0), unique)][d := x][e := y] == s.slots[e := y][d := x];
  }

  /** The copy constructor starts from the number 0 and copy-assigns: that is
      aliasing the source's word. */
  lemma CopyIntoFresh<H, T>(s: Store<H, T>, d: H, e: H)
    requires Valid(s) && e in s.slots && d !in s.slots
    ensures Valid(Put(s, d, Encode(0), false))
    ensures CopyAssign(Put(s, d, Encode(0), false), d, e) == Alias(s, d, s.slots[e].word, false)
  {
    AddKeepsValid(s, d, Encode(0), false);
    var s0 := Put(s, d, Encode(0), false);
    var x := Slot(s.slots[e].word, false);
    assert ClearAsWritten(s0, d) == s0;
    assert s0.slots[d := x] == s.slots[d := x];
  }

  /** The widening constructor: a number is copied and the source keeps it;
      a `Ref` is moved, as by `Share()`, leaving the source's `Ref` null. */
  function Widening<H(==), T>(s: Store<H, T>, dst: H, src: H): Store<H, T>
    requires src in s.slots
  {
    var w := s.slots[src].word;
    if HasNumber(w) then Put(s, dst, w, false) else Share(s, dst, src)
  }

  /** Widening changes no count, keeps the ledger, and the new word holds what
      the source held. */
  lemma WideningKeepsValid<H, T>(s: Store<H, T>, dst: H, src: H)
    requires Valid(s) && src in s.slots && dst !in s.slots
    ensures Valid(Widening(s, dst, src)) && Widening(s, dst, src).blocks == s.blocks
    ensures Widening(s, dst, src).slots[dst] == Slot(s.slots[src].word, false)
    ensures HasNumber(s.slots[src].word) ==> Widening(s, dst, src).slots[src] == s.slots[src]
  {
    if HasNumber(s.slots[src].word) {
      AddKeepsValid(s, dst, s.slots[src].word, false);
    } else {
      ShareKeepsValid(s, dst, src);
    }
  }

  /** After a move assignment, the target's old `Ref` is released when the
      source, which now holds it, is destroyed, and not before. */
  lemma SwappedRefReleasedWithSource<H, T>(s: Store<H, T>, d: H, e: H)
    requires Valid(s) && d in s.slots && e in s.slots && d != e
    requires s.slots[d].unique == s.slots[e].unique
    ensures Swap(s, d, e).blocks == s.blocks
    ensures Destroy(Swap(s, d, e), e).blocks == Clear(s, d).blocks
  {
    SwapKeepsValid(s, d, e);
    var w := s.slots[d].word;
    if IsAddress(w) {
      assert Swap(s, d, e).slots[e].word == w;
      ClearAsWrittenAgreesWhenDiscarded(Swap(s, d, e), e, NULL, false);
    }
  }

  // ---------------------------------------------------------------------------
  // The class
  // ---------------------------------------------------------------------------

  /** An `IntOrRef<T>`; its `value_` is the `IntOrValue<Ref<T>>` whose word is
      the `buffer` of `cell`. `cell.unique` tells `IntOrRef<T>` (holding a
      `Ref<T>`) from `IntOrRef<const T>` (holding a `Ref<const T>`). */
  class IntOrRef<T> {
    const cell: Ref<T>

    /** The object around a word already set up; the constructors of the
        source are the `New…` methods below. */
    constructor Wrap(cell: Ref<T>)
      ensures this.cell == cell
    {
      this.cell := cell;
    }

    /** The move assignment: swap the two words. No count changes; the
        target's old `Ref` now lives in the source. Moving a word into
        itself swaps it with itself and changes nothing. */
    method MoveAssign(heap: Heap<T>, that: IntOrRef<T>)
      requires heap.Valid() && cell in heap.store.slots && that.cell in heap.store.slots
      requires cell.unique == that.cell.unique
      modifies heap, cell, that.cell
      ensures heap.Valid() && heap.store == Swap(old(heap.store), cell, that.cell)
      ensures cell == that.cell ==> heap.store == old(heap.store)
      ensures cell.buffer == old(that.cell.buffer) && that.cell.buffer == old(cell.buffer)
      ensures heap.blocks == old(heap.blocks)
    {
      SwapKeepsValid(heap.store, cell, that.cell);
      if cell == that.cell {
        SwapSelf(heap.store, cell);
      }
      var mine, theirs := cell.buffer, that.cell.buffer;
      cell.Set(heap, theirs);
      that.cell.Set(heap, mine);
    }

    /** `Clear()`: when the word holds a `Ref`, destroy it (releasing its
        reference) and store the number bits 0. A number is left as it is. */
    method Clear(heap: Heap<T>)
      requires heap.Valid() && cell in heap.store.slots
      modifies heap, cell, heap.CounterOf(cell.buffer)
      ensures heap.Valid() && heap.store == Ownership.Clear(old(heap.store), cell)
      ensures Shrinks(old(heap.blocks), heap.blocks) && (!IsAddress(old(cell.buffer)) ==> heap.blocks == old(heap.blocks))
    {
      ghost var s := heap.store;
      ClearKeepsValid(s, cell);
      if HasRef(cell.buffer) {
        NullAfterClear(s, cell);
        if cell.unique {
          cell.Clear(heap);
        } else {
          cell.ClearAsWritten(heap);
        }
        cell.Set(heap, 0);
      }
    }

    /** The copy assignment, for `IntOrRef<const T>`: `Clear()`, then copy the
        number bits or copy-construct the `Ref` in place, which must not be
        null and gains one reference. */
    method CopyAssign(heap: Heap<T>, that: IntOrRef<T>)
      requires heap.Valid() && cell in heap.store.slots && that.cell in heap.store.slots && cell != that.cell
      requires !cell.unique && !that.cell.unique && that.cell.buffer != NULL
      modifies heap, cell, heap.CounterOf(cell.buffer), heap.CounterOf(that.cell.buffer)
      ensures heap.Valid() && heap.store == Ownership.CopyAssign(old(heap.store), cell, that.cell)
      ensures cell.buffer == that.cell.buffer && Shrinks(old(heap.blocks), heap.blocks)
      ensures !IsAddress(old(cell.buffer)) ==> heap.blocks == old(heap.blocks)
    {
      ghost var s := heap.store;
      CopyAssignKeepsValid(s, cell, that.cell);
      ClearKeepsOtherBlocks(s, cell, that.cell);
      AliasAfterClear(s, cell, that.cell.buffer, false);
      Clear(heap);
      var w := that.cell.buffer;
      if HasRef(w) {
        heap.Retain(w);
      }
      cell.Set(heap, w);
    }

    /** The destructor: `Clear()`, and the word is gone. */
    method Destroy(heap: Heap<T>)
      requires heap.Valid() && cell in heap.store.slots
      modifies heap, cell, heap.CounterOf(cell.buffer)
      ensures heap.Valid() && heap.store == Ownership.Destroy(old(heap.store), cell)
      ensures Shrinks(old(heap.blocks), heap.blocks) && (!IsAddress(old(cell.buffer)) ==> heap.blocks == old(heap.blocks))
    {
      DestroyKeepsValid(heap.store, cell);
      ClearAsWrittenAgreesWhenDiscarded(heap.store, cell, NULL, false);
      Clear(heap);
      heap.Forget(cell);
    }

  }

  // ---------------------------------------------------------------------------
  // The constructors
  // ---------------------------------------------------------------------------

  /** `IntOrRef(I value)` and `IntOrValue(intptr_t)`: the word is the
      encoding of `v`, which holds a number. `IntOrRef()` is `v == 0`. */
  method NewNumber<T>(heap: Heap<T>, v: int, unique: bool) returns (r: IntOrRef<T>)
    requires heap.Valid() && InWord(v)
    modifies heap
    ensures fresh(r) && fresh(r.cell) && r.cell.unique == unique && r.cell.buffer == Encode(v)
    ensures heap.Valid() && heap.store == Put(old(heap.store), r.cell, Encode(v), unique)
    ensures heap.blocks == old(heap.blocks)
    ensures Fits(v) ==> Number(r.cell.buffer) == Some(v)
  {
    ghost var s := heap.store;
    var cell := new Ref.Adopt(heap, Encode(v), unique);
    AddKeepsValid(s, cell, Encode(v), unique);
    r := new IntOrRef.Wrap(cell);
  }

  /** `IntOrRef(Ref<T> ref)`: the `Ref`, which must not be null, is moved
      into the word; `ref` is left null and no count changes. */
  method NewFromRef<T>(heap: Heap<T>, ref: Ref<T>) returns (r: IntOrRef<T>)
    requires heap.Valid() && ref in heap.store.slots && IsAddress(ref.buffer)
    modifies heap, ref
    ensures fresh(r) && fresh(r.cell) && r.cell.unique == ref.unique && r.cell.buffer == old(ref.buffer)
    ensures ref.buffer == NULL && HasRef(r.cell.buffer)
    ensures heap.Valid() && heap.store == Transfer(old(heap.store), r.cell, ref, ref.unique, NULL)
    ensures heap.blocks == old(heap.blocks)
  {
    var cell := new Ref.Move(heap, ref);
    r := new IntOrRef.Wrap(cell);
  }

  /** The move constructor: start from the number 0 and swap, so the new word
      is the source's old word, the source holds the number 0, and no count
      changes. */
  method NewMoved<T>(heap: Heap<T>, that: IntOrRef<T>) returns (r: IntOrRef<T>)
    requires heap.Valid() && that.cell in heap.store.slots
    modifies heap, that.cell
    ensures fresh(r) && fresh(r.cell) && r.cell.unique == that.cell.unique
    ensures heap.Valid() && heap.store == Transfer(old(heap.store), r.cell, that.cell, that.cell.unique, Encode(0))
    ensures heap.blocks == old(heap.blocks)
  {
    ghost var s := heap.store;
    r := NewNumber(heap, 0, that.cell.unique);
    SwapIntoFresh(s, r.cell, that.cell, r.cell.unique);
    r.MoveAssign(heap, that);
  }

  /** The copy constructor, for `IntOrRef<const T>`: start from the number 0
      and copy-assign, so the new word is the source's word and a `Ref` gains
      one reference. A `Ref` held by the source must not be null. */
  method NewCopy<T>(heap: Heap<T>, that: IntOrRef<T>) returns (r: IntOrRef<T>)
    requires heap.Valid() && that.cell in heap.store.slots && !that.cell.unique && that.cell.buffer != NULL
    modifies heap, heap.CounterOf(that.cell.buffer)
    ensures fresh(r) && fresh(r.cell) && !r.cell.unique
    ensures heap.Valid() && heap.store == Alias(old(heap.store), r.cell, old(that.cell.buffer), false)
    ensures heap.blocks == old(heap.blocks)
  {
    ghost var s := heap.store;
    r := NewNumber(heap, 0, false);
    assert Encode(0) !in heap.blocks;
    CopyIntoFresh(s, r.cell, that.cell);
    r.CopyAssign(heap, that);
  }

  /** The widening constructor `IntOrRef<const T>(IntOrRef<T>&&)`: a number
      is copied, a `Ref` is moved into a `Ref<const T>`; no count changes. */
  method NewWidened<T>(heap: Heap<T>, src: IntOrRef<T>) returns (r: IntOrRef<T>)
    requires heap.Valid() && src.cell in heap.store.slots && src.cell.unique
    modifies heap, src.cell
    ensures fresh(r) && fresh(r.cell) && !r.cell.unique && r.cell.buffer == old(src.cell.buffer)
    ensures heap.Valid() && heap.store == Widening(old(heap.store), r.cell, src.cell)
    ensures heap.blocks == old(heap.blocks)
  {
    ghost var s := heap.store;
    var w := src.cell.buffer;
    var widened;
    if HasNumber(w) {
      widened := new Ref.Adopt(heap, Encode(Number(w).value), false);
    } else {
      widened := Refs.Widen(heap, src.cell);
    }
    WideningKeepsValid(s, widened, src.cell);
    r := new IntOrRef.Wrap(widened);
  }

  /** `New<T>`, converted to `Ref<const T>` when the element type is `const`:
      a handle of the given kind, the only holder of a fresh block. */
  method NewOfKind<T>(heap: Heap<T>, alloc: Option<int>, init: Option<T>, unique: bool) returns (r: Option<Ref<T>>)
    requires heap.Valid()
    requires alloc.Some? ==> IsAddress(alloc.value) && alloc.value !in heap.blocks
    modifies heap
    ensures heap.Valid()
    ensures r.Some? <==> alloc.Some? && init.Some?
    ensures r.None? ==> heap.store == old(heap.store) && heap.blocks == old(heap.blocks)
    ensures r.Some? ==> alloc.value in heap.blocks
                        && heap.blocks == old(heap.blocks)[alloc.value := heap.blocks[alloc.value]]
                        && fresh(heap.blocks[alloc.value]) && fresh(heap.blocks[alloc.value].refcount)
    ensures r.Some? ==> && fresh(r.value) && r.value.unique == unique && r.value.buffer == alloc.value
                        && heap.store == Put(Allocate(old(heap.store), alloc.value, init.value), r.value, alloc.value, unique)
  {
    ghost var s := heap.store;
    r := New(heap, alloc, init);
    if r.None? || unique {
      return;
    }
    ghost var withBlock := Allocate(s, alloc.value, init.value);
    var temporary := r.value;
    assert heap.store == Put(withBlock, temporary, alloc.value, true);
    var shared := Refs.Widen(heap, temporary);
    assert heap.store == Transfer(Put(withBlock, temporary, alloc.value, true), shared, temporary, false, NULL);
    HandOver(withBlock, temporary, alloc.value, true, shared, false);
    assert temporary.buffer == NULL && !IsAddress(temporary.buffer);
    temporary.Destroy(heap);
    assert heap.store == Put(withBlock, shared, alloc.value, false);
    r := Some(shared);
  }

  /** `IntOrRef(absl::in_place, args...)`: `New<T>` (see `NewOfKind`), then
      moved into the word. The result holds a `Ref` on a fresh block with
      count 1 holding the constructed value; nothing changes when allocation
      or construction throws. */
  method InPlace<T>(heap: Heap<T>, alloc: Option<int>, init: Option<T>, unique: bool) returns (r: Option<IntOrRef<T>>)
    requires heap.Valid()
    requires alloc.Some? ==> IsAddress(alloc.value) && alloc.value !in heap.blocks
    modifies heap
    ensures heap.Valid()
    ensures r.Some? <==> alloc.Some? && init.Some?
    ensures r.None? ==> heap.store == old(heap.store) && heap.blocks == old(heap.blocks)
    ensures r.Some? ==> alloc.value in heap.blocks
                        && heap.blocks == old(heap.blocks)[alloc.value := heap.blocks[alloc.value]]
                        && fresh(heap.blocks[alloc.value]) && fresh(heap.blocks[alloc.value].refcount)
    ensures r.Some? ==> && fresh(r.value) && fresh(r.value.cell) && r.value.cell.unique == unique
                        && heap.store == Put(Allocate(old(heap.store), alloc.value, init.value), r.value.cell, alloc.value, unique)
                        && RefOf(heap.store.blocks, r.value.cell.buffer) == Some(init.value)
  {
    ghost var s := heap.store;
    var p := NewOfKind(heap, alloc, init, unique);
    if p.None? {
      return None;
    }
    var ref := p.value;
    var result := NewFromRef(heap, ref);
    HandOver(Allocate(s, alloc.value, init.value), ref, alloc.value, unique, result.cell, unique);
    ref.Destroy(heap);
    r := Some(result);
  }
}
