/**
  The reference-counting ledger behind `Ref`, `IntOrRef` and `CopyOnWrite`.

  A `Store` is the part of memory the library is responsible for: the live
  `Refcounted<T>` blocks, by address, and every live handle variable with the
  one machine word it holds (`Ref::buffer_`, or the union word of an
  `IntOrValue`). The central invariant, `Valid`, says that the count stored in
  each block is the number of handles whose word is that block's address,
  that a block lives exactly as long as that number is positive, and that a
  unique `Ref<T>` is the only handle on its block.

  The functions below are the effect on the ledger of each operation of
  `ref.h`; the lemmas prove what the header promises about them. The classes
  in the other files are proved to change their ghost `Store` exactly as these
  functions say.
*/
module Ownership {

  // ---------------------------------------------------------------------------
  // Machine words
  // ---------------------------------------------------------------------------

  /** `intptr_t` on a 64-bit target. */
  const WORD_MIN: int := -0x8000_0000_0000_0000
  const WORD_MAX: int := 0x7FFF_FFFF_FFFF_FFFF

  predicate InWord(w: int) { WORD_MIN <= w <= WORD_MAX }

  /** The bits of `nullptr`. */
  const NULL: int := 0

  /** The bits of a pointer to an allocated block: not null and, because every
      allocation is at least 2-byte aligned, even. */
  predicate IsAddress(w: int) { w != NULL && w % 2 == 0 && InWord(w) }

  /** The bits of a pointer: null or an address. */
  predicate IsPointer(w: int) { w == NULL || IsAddress(w) }

  // ---------------------------------------------------------------------------
  // The ledger
  // ---------------------------------------------------------------------------

  /** A `Refcounted<T>` block: its reference count and the `nested` value. */
  datatype Block<T> = Block(count: int, nested: T)

  /** A handle variable: its word, and whether it is a unique `Ref<T>`
      (`OwnershipTraits::unique`) rather than a shared `Ref<const T>`. */
  datatype Slot = Slot(word: int, unique: bool)

  datatype Store<H(==), T> = Store(blocks: map<int, Block<T>>, slots: map<H, Slot>)

  /** The handles whose word is `a`. */
  ghost function Holders<H>(slots: map<H, Slot>, a: int): set<H>
  {
    set h | h in slots && slots[h].word == a
  }

  /** Every block's count is the number of its handles and is at least one, no
      handle holds a freed address, and a unique handle is alone on its block. */
  ghost predicate Valid<H, T>(s: Store<H, T>)
  {
    && (forall a :: a in s.blocks ==> IsAddress(a) && 1 <= s.blocks[a].count == |Holders(s.slots, a)|)
    && (forall h :: h in s.slots ==> InWord(s.slots[h].word))
    && (forall h :: h in s.slots && IsAddress(s.slots[h].word) ==> s.slots[h].word in s.blocks)
    && (forall h :: h in s.slots && s.slots[h].unique && IsAddress(s.slots[h].word) ==>
          s.blocks[s.slots[h].word].count == 1)
  }

  /** The value a handle on a live block dereferences to (`operator*`). */
  function Pointee<H(==), T>(s: Store<H, T>, h: H): T
    requires h in s.slots && s.slots[h].word in s.blocks
  {
    s.blocks[s.slots[h].word].nested
  }

  // ---------------------------------------------------------------------------
  // Building blocks
  // ---------------------------------------------------------------------------

  /** Handle `h` now holds `w`. */
  function Put<H(==), T>(s: Store<H, T>, h: H, w: int, unique: bool): Store<H, T>
  {
    s.(slots := s.slots[h := Slot(w, unique)])
  }

  /** Handle `h` goes out of scope. */
  function Remove<H(==), T>(s: Store<H, T>, h: H): Store<H, T>
  {
    s.(slots := s.slots - {h})
  }

  /** `Refcounted::New`: a block at `a` whose counter starts at 1. */
  function Allocate<H(==), T>(s: Store<H, T>, a: int, v: T): Store<H, T>
  {
    s.(blocks := s.blocks[a := Block(1, v)])
  }

  /** `Refcount::Inc` on the block at `a`. */
  function Retain<H(==), T>(s: Store<H, T>, a: int): Store<H, T>
    requires a in s.blocks
  {
    s.(blocks := s.blocks[a := s.blocks[a].(count := s.blocks[a].count + 1)])
  }

  /** `Refcount::Dec()` on the block at `a`, followed by `SelfDelete` when it
      reports that the count reached zero. */
  function Release<H(==), T>(s: Store<H, T>, a: int): Store<H, T>
    requires a in s.blocks
  {
    if s.blocks[a].count == 1 then s.(blocks := s.blocks - {a})
    else s.(blocks := s.blocks[a := s.blocks[a].(count := s.blocks[a].count - 1)])
  }

  // ---------------------------------------------------------------------------
  // The operations of ref.h
  // ---------------------------------------------------------------------------

  /** `New<T>`: a unique handle `h` on a fresh block at `a` holding `v`. */
  function NewRef<H(==), T>(s: Store<H, T>, h: H, a: int, v: T): Store<H, T>
  {
    Put(Allocate(s, a, v), h, a, true)
  }

  /** `Clear`, as it is meant: give up `h`'s reference, freeing the block if it
      was the last one, and null `h`. */
  function Clear<H(==), T>(s: Store<H, T>, h: H): Store<H, T>
    requires h in s.slots
    requires IsAddress(s.slots[h].word) ==> s.slots[h].word in s.blocks
  {
    var w := s.slots[h].word;
    if IsAddress(w) then Put(Release(s, w), h, NULL, s.slots[h].unique) else s
  }

  /** The shared `Clear` as written: `buffer_` is nulled only when the block was
      deleted, and otherwise keeps the released address. */
  function ClearAsWritten<H(==), T>(s: Store<H, T>, h: H): Store<H, T>
    requires h in s.slots
    requires IsAddress(s.slots[h].word) ==> s.slots[h].word in s.blocks
  {
    var w := s.slots[h].word;
    if !IsAddress(w) then s
    else if s.blocks[w].count == 1 then Put(Release(s, w), h, NULL, s.slots[h].unique)
    else Release(s, w)
  }

  /** The destructor: `Clear` as written, then the variable is gone. (On a
      unique handle the count is one, and both `Clear`s null the handle.) */
  function Destroy<H(==), T>(s: Store<H, T>, h: H): Store<H, T>
    requires h in s.slots
    requires IsAddress(s.slots[h].word) ==> s.slots[h].word in s.blocks
  {
    Remove(ClearAsWritten(s, h), h)
  }

  /** `dst` now holds `w`, taking a reference of its own when `w` is an address
      (a shared copy, or the copy of an integer's bits). */
  function Alias<H(==), T>(s: Store<H, T>, dst: H, w: int, unique: bool): Store<H, T>
    requires IsAddress(w) ==> w in s.blocks
  {
    Put(if IsAddress(w) then Retain(s, w) else s, dst, w, unique)
  }

  /** The shared copy constructor: a fresh `dst` aliases `src`'s block. */
  function CopyRef<H(==), T>(s: Store<H, T>, dst: H, src: H): Store<H, T>
    requires src in s.slots
    requires IsAddress(s.slots[src].word) ==> s.slots[src].word in s.blocks
  {
    Alias(s, dst, s.slots[src].word, false)
  }

  /** The shared copy assignment: `Clear()` as written, then alias `src`'s
      block. */
  function CopyAssign<H(==), T>(s: Store<H, T>, dst: H, src: H): Store<H, T>
    requires Valid(s) && dst in s.slots && src in s.slots && dst != src
  {
    ClearKeepsOtherBlocks(s, dst, src);
    Alias(ClearAsWritten(s, dst), dst, s.slots[src].word, false)
  }

  /** `move_buffer` into a new handle: `src`'s word is handed to `dst` with the
      given ownership kind, and `src` is left holding `rest` (`nullptr` after
      `absl::exchange`, the number 0 after an `IntOrValue` swap). No count
      changes. */
  function Transfer<H(==), T>(s: Store<H, T>, dst: H, src: H, unique: bool, rest: int): Store<H, T>
    requires src in s.slots
  {
    Put(Put(s, src, rest, s.slots[src].unique), dst, s.slots[src].word, unique)
  }

  /** The move assignment, as it is meant: `Clear()`, then swap the now null
      `buffer_` with `src`'s. */
  function MoveAssign<H(==), T>(s: Store<H, T>, dst: H, src: H): Store<H, T>
    requires Valid(s) && dst in s.slots && src in s.slots && dst != src
  {
    var s1 := Clear(s, dst);
    Transfer(s1, dst, src, s.slots[dst].unique, NULL)
  }

  /** The shared move assignment as written: `Clear()` (which may keep the
      released address), then `std::swap(buffer_, other.buffer_)`. */
  function MoveAssignAsWritten<H(==), T>(s: Store<H, T>, dst: H, src: H): Store<H, T>
    requires Valid(s) && dst in s.slots && src in s.slots && dst != src
  {
    var s1 := ClearAsWritten(s, dst);
    Put(Put(s1, dst, s.slots[src].word, s.slots[dst].unique), src, s1.slots[dst].word, s.slots[src].unique)
  }

  /** `Share()`: the unique `src` moves its block into a fresh shared `dst`. */
  function Share<H(==), T>(s: Store<H, T>, dst: H, src: H): Store<H, T>
    requires src in s.slots
  {
    Transfer(s, dst, src, false, NULL)
  }

  /** Whether `AttemptToClaim` on `h` yields a unique handle: `IsOne()`. */
  function ClaimSucceeds<H(==), T>(s: Store<H, T>, h: H): bool
    requires h in s.slots && s.slots[h].word in s.blocks
  {
    s.blocks[s.slots[h].word].count == 1
  }

  /** `AttemptToClaim()`: the shared `src` moves its block into a fresh `dst`,
      which is unique exactly when the count is one. */
  function AttemptToClaim<H(==), T>(s: Store<H, T>, dst: H, src: H): Store<H, T>
    requires src in s.slots && s.slots[src].word in s.blocks
  {
    Transfer(s, dst, src, ClaimSucceeds(s, src), NULL)
  }

  /** Swap the words of two handles of the same type (`IntOrValue`'s move
      assignment). */
  function Swap<H(==), T>(s: Store<H, T>, d: H, e: H): Store<H, T>
    requires d in s.slots && e in s.slots
  {
    Put(Put(s, d, s.slots[e].word, s.slots[d].unique), e, s.slots[d].word, s.slots[e].unique)
  }

  // ---------------------------------------------------------------------------
  // Counting holders
  // ---------------------------------------------------------------------------

  /** How the number of holders of `a` changes when one handle's slot is
      overwritten. */
  lemma HoldersAfterPut<H>(slots: map<H, Slot>, h: H, x: Slot, a: int)
    ensures |Holders(slots[h := x], a)| ==
            |Holders(slots, a)| - (if h in slots && slots[h].word == a then 1 else 0)
                                + (if x.word == a then 1 else 0)
  {
    var before, after := Holders(slots, a), Holders(slots[h := x], a);
    var rest := before - {h};
    assert |rest| == |before| - (if h in slots && slots[h].word == a then 1 else 0);
    if x.word == a {
      assert after == rest + {h};
    } else {
      assert after == rest;
    }
  }

  /** How the number of holders of `a` changes when one handle is removed. */
  lemma HoldersAfterRemove<H>(slots: map<H, Slot>, h: H, a: int)
    ensures |Holders(slots - {h}, a)| ==
            |Holders(slots, a)| - (if h in slots && slots[h].word == a then 1 else 0)
  {
    assert Holders(slots - {h}, a) == Holders(slots, a) - {h};
  }

  /** A block with a single holder has no other holder. */
  lemma OnlyHolder<H>(slots: map<H, Slot>, h: H, g: H, a: int)
    requires |Holders(slots, a)| == 1
    requires h in slots && slots[h].word == a && g in slots && slots[g].word == a
    ensures g == h
  {
    var others := Holders(slots, a) - {h};
    assert |others| == 0;
    assert g !in others;
  }

  /** Two distinct handles on one block hold two references. */
  lemma TwoHolders<H, T>(s: Store<H, T>, h: H, g: H)
    requires Valid(s) && h in s.slots && g in s.slots && h != g
    requires IsAddress(s.slots[h].word) && s.slots[g].word == s.slots[h].word
    ensures s.blocks[s.slots[h].word].count >= 2
  {
    var a := s.slots[h].word;
    if s.blocks[a].count < 2 {
      OnlyHolder(s.slots, h, g, a);
    }
  }

  /** Clearing one handle leaves every other handle's block alive. */
  lemma ClearKeepsOtherBlocks<H, T>(s: Store<H, T>, h: H, g: H)
    requires Valid(s) && h in s.slots && g in s.slots && h != g
    ensures IsAddress(s.slots[g].word) ==> s.slots[g].word in Clear(s, h).blocks
  {
    if IsAddress(s.slots[g].word) && s.slots[g].word == s.slots[h].word {
      TwoHolders(s, h, g);
    }
  }

  /** The as-written `Clear` differs from the intended one only in the word it
      leaves in `h`. When that word is overwritten next (copy assignment) or
      discarded (destructor), the two agree. */
  lemma ClearAsWrittenAgreesWhenDiscarded<H, T>(s: Store<H, T>, h: H, w: int, unique: bool)
    requires h in s.slots && (IsAddress(s.slots[h].word) ==> s.slots[h].word in s.blocks)
    ensures ClearAsWritten(s, h).blocks == Clear(s, h).blocks
    ensures Put(ClearAsWritten(s, h), h, w, unique) == Put(Clear(s, h), h, w, unique)
    ensures Remove(ClearAsWritten(s, h), h) == Remove(Clear(s, h), h)
  {
    var x := Slot(w, unique);
    assert Put(ClearAsWritten(s, h), h, w, unique).slots == s.slots[h := x];
    assert Put(Clear(s, h), h, w, unique).slots == s.slots[h := x];
    assert Remove(ClearAsWritten(s, h), h).slots == s.slots - {h};
    assert Remove(Clear(s, h), h).slots == s.slots - {h};
  }

  /** Hence aliasing a block right after either `Clear` has the same effect. */
  lemma AliasAfterClear<H, T>(s: Store<H, T>, h: H, w: int, unique: bool)
    requires h in s.slots && (IsAddress(s.slots[h].word) ==> s.slots[h].word in s.blocks)
    requires IsAddress(w) ==> w in Clear(s, h).blocks
    ensures Alias(ClearAsWritten(s, h), h, w, unique) == Alias(Clear(s, h), h, w, unique)
  {
    ClearAsWrittenAgreesWhenDiscarded(s, h, w, unique);
  }

  /** Storing null in a handle that either `Clear` has just cleared changes
      nothing more: both leave `h` null. */
  lemma NullAfterClear<H, T>(s: Store<H, T>, h: H)
    requires h in s.slots && (IsAddress(s.slots[h].word) ==> s.slots[h].word in s.blocks)
    requires IsPointer(s.slots[h].word)
    ensures Put(Clear(s, h), h, NULL, s.slots[h].unique) == Clear(s, h)
    ensures Put(ClearAsWritten(s, h), h, NULL, s.slots[h].unique) == Clear(s, h)
  {
    ClearAsWrittenAgreesWhenDiscarded(s, h, NULL, s.slots[h].unique);
    if s.slots[h].word == NULL {
      assert s.slots[h := Slot(NULL, s.slots[h].unique)] == s.slots;
    } else {
      var x := Slot(NULL, s.slots[h].unique);
      assert s.slots[h := x][h := x] == s.slots[h := x];
    }
  }

  // ---------------------------------------------------------------------------
  // The ledger is kept by every operation
  // ---------------------------------------------------------------------------

  /** A block is alive exactly when some handle holds it: it is freed exactly
      when its last handle lets go. */
  lemma AliveIffHeld<H, T>(s: Store<H, T>, a: int)
    requires Valid(s) && IsAddress(a)
    ensures a in s.blocks <==> Holders(s.slots, a) != {}
  {
    if Holders(s.slots, a) != {} {
      var h :| h in Holders(s.slots, a);
      assert s.slots[h].word == a;
    }
  }

  /** A handle that holds no address taking a freshly allocated block becomes
      its only holder, with count 1. */
  lemma AllocateForKeepsValid<H, T>(s: Store<H, T>, h: H, a: int, v: T, unique: bool)
    requires Valid(s) && IsAddress(a) && a !in s.blocks
    requires h in s.slots ==> !IsAddress(s.slots[h].word)
    ensures var s' := Put(Allocate(s, a, v), h, a, unique);
            Valid(s') && s'.blocks[a] == Block(1, v) && Holders(s'.slots, a) == {h}
  {
    var s' := Put(Allocate(s, a, v), h, a, unique);
    AliveIffHeld(s, a);
    assert Holders(s'.slots, a) == {h} by {
      assert Holders(s.slots, a) == {};
    }
    forall b | b in s'.blocks && b != a
      ensures 1 <= s'.blocks[b].count == |Holders(s'.slots, b)|
    {
      HoldersAfterPut(s.slots, h, Slot(a, unique), b);
    }
  }

  /** `New<T>` yields a unique handle that is its block's only holder. */
  lemma NewRefKeepsValid<H, T>(s: Store<H, T>, h: H, a: int, v: T)
    requires Valid(s) && h !in s.slots && IsAddress(a) && a !in s.blocks
    ensures Valid(NewRef(s, h, a, v))
    ensures NewRef(s, h, a, v).blocks[a] == Block(1, v) && Holders(NewRef(s, h, a, v).slots, a) == {h}
  {
    AllocateForKeepsValid(s, h, a, v, true);
  }

  /** `Clear` releases exactly one reference: the count of `h`'s block drops by
      one, the block is freed exactly when `h` was its last holder, `h` is
      null, and the ledger still balances. */
  lemma ClearKeepsValid<H, T>(s: Store<H, T>, h: H)
    requires Valid(s) && h in s.slots
    ensures Valid(Clear(s, h))
    ensures Clear(s, h).slots[h].word == (if IsAddress(s.slots[h].word) then NULL else s.slots[h].word)
    ensures IsAddress(s.slots[h].word) ==>
              var a := s.slots[h].word;
              && (a !in Clear(s, h).blocks <==> Holders(s.slots, a) == {h})
              && (a in Clear(s, h).blocks ==> Clear(s, h).blocks[a] == s.blocks[a].(count := s.blocks[a].count - 1))
  {
    var w := s.slots[h].word;
    if IsAddress(w) {
      var s' := Clear(s, h);
      var x := Slot(NULL, s.slots[h].unique);
      assert s'.slots == s.slots[h := x];
      forall a | a in s'.blocks
        ensures 1 <= s'.blocks[a].count == |Holders(s'.slots, a)|
      {
        HoldersAfterPut(s.slots, h, x, a);
      }
      forall g | g in s'.slots && IsAddress(s'.slots[g].word)
        ensures s'.slots[g].word in s'.blocks
      {
        if s.slots[g].word == w && s.blocks[w].count == 1 {
          OnlyHolder(s.slots, h, g, w);
        }
      }
      forall g | g in s'.slots && s'.slots[g].unique && IsAddress(s'.slots[g].word)
        ensures s'.blocks[s'.slots[g].word].count == 1
      {
        if s.slots[g].word == w {
          TwoHolders(s, h, g);
        }
      }
      if Holders(s.slots, w) == {h} {
        assert |Holders(s.slots, w)| == 1;
      } else {
        var g :| g in Holders(s.slots, w) && g != h;
        TwoHolders(s, h, g);
      }
    }
  }

  /** A handle that holds no address can go out of scope. */
  lemma RemoveKeepsValid<H, T>(s: Store<H, T>, h: H)
    requires Valid(s) && h in s.slots && !IsAddress(s.slots[h].word)
    ensures Valid(Remove(s, h))
  {
    forall a | a in s.blocks
      ensures |Holders(Remove(s, h).slots, a)| == |Holders(s.slots, a)|
    {
      HoldersAfterRemove(s.slots, h, a);
    }
  }

  /** The destructor keeps the ledger: the reference is released once. */
  lemma DestroyKeepsValid<H, T>(s: Store<H, T>, h: H)
    requires Valid(s) && h in s.slots
    ensures Valid(Destroy(s, h)) && h !in Destroy(s, h).slots
  {
    ClearAsWrittenAgreesWhenDiscarded(s, h, NULL, false);
    ClearKeepsValid(s, h);
    RemoveKeepsValid(Clear(s, h), h);
  }

  /** A new handle that holds no address takes no reference. */
  lemma AddKeepsValid<H, T>(s: Store<H, T>, h: H, w: int, unique: bool)
    requires Valid(s) && h !in s.slots && !IsAddress(w) && InWord(w)
    ensures Valid(Put(s, h, w, unique)) && Put(s, h, w, unique).blocks == s.blocks
  {
    forall a | a in s.blocks
      ensures |Holders(Put(s, h, w, unique).slots, a)| == |Holders(s.slots, a)|
    {
      HoldersAfterPut(s.slots, h, Slot(w, unique), a);
    }
  }

  /** Moving the word of a temporary handle `t` into a fresh `d` and then
      destroying the emptied temporary leaves only `d`, holding the word. */
  lemma HandOver<H, T>(s: Store<H, T>, t: H, w: int, tUnique: bool, d: H, unique: bool)
    requires t !in s.slots && d !in s.slots && d != t
    ensures Destroy(Transfer(Put(s, t, w, tUnique), d, t, unique, NULL), t) == Put(s, d, w, unique)
  {
    var moved := Transfer(Put(s, t, w, tUnique), d, t, unique, NULL);
    assert ClearAsWritten(moved, t) == moved;
    assert moved.slots - {t} == s.slots[d := Slot(w, unique)];
  }

  /** Aliasing: a handle that held no address takes the word of the shared
      handle `src`, and the count of that block goes up by exactly one. */
  lemma AliasKeepsValid<H, T>(s: Store<H, T>, dst: H, src: H)
    requires Valid(s) && src in s.slots && !s.slots[src].unique && dst != src
    requires dst in s.slots ==> !IsAddress(s.slots[dst].word)
    ensures var w := s.slots[src].word; var s' := Alias(s, dst, w, false);
            && Valid(s')
            && (IsAddress(w) ==> s'.blocks[w] == s.blocks[w].(count := s.blocks[w].count + 1))
            && (!IsAddress(w) ==> s'.blocks == s.blocks)
  {
    var w := s.slots[src].word;
    var s' := Alias(s, dst, w, false);
    forall a | a in s'.blocks
      ensures 1 <= s'.blocks[a].count == |Holders(s'.slots, a)|
    {
      HoldersAfterPut(s.slots, dst, Slot(w, false), a);
    }
    forall g | g in s'.slots && s'.slots[g].unique && IsAddress(s'.slots[g].word)
      ensures s'.blocks[s'.slots[g].word].count == 1
    {
      if s'.slots[g].word == w {
        TwoHolders(s, src, g);
      }
    }
  }

  /** The shared copy constructor aliases the same block, adds one to its count
      and leaves the pointee as it was. */
  lemma CopyRefKeepsValid<H, T>(s: Store<H, T>, dst: H, src: H)
    requires Valid(s) && src in s.slots && !s.slots[src].unique && dst !in s.slots
    requires IsAddress(s.slots[src].word)
    ensures Valid(CopyRef(s, dst, src))
    ensures var s' := CopyRef(s, dst, src); var a := s.slots[src].word;
            && s'.slots[dst].word == a && s'.slots[src] == s.slots[src]
            && s'.blocks[a] == s.blocks[a].(count := s.blocks[a].count + 1)
  {
    AliasKeepsValid(s, dst, src);
  }

  /** The shared copy assignment keeps the ledger: `dst` ends on `src`'s block,
      with one more reference to it and one fewer to `dst`'s old block. */
  lemma CopyAssignKeepsValid<H, T>(s: Store<H, T>, dst: H, src: H)
    requires Valid(s) && dst in s.slots && src in s.slots && dst != src && !s.slots[src].unique
    ensures Valid(CopyAssign(s, dst, src))
    ensures CopyAssign(s, dst, src).slots[dst].word == s.slots[src].word
  {
    ClearKeepsValid(s, dst);
    ClearKeepsOtherBlocks(s, dst, src);
    ClearAsWrittenAgreesWhenDiscarded(s, dst, s.slots[src].word, false);
    AliasKeepsValid(Clear(s, dst), dst, src);
  }

  /** Handing a word from `src` to a `dst` that held no address keeps the
      ledger, provided a unique `dst` is the block's only holder. */
  lemma TransferKeepsValid<H, T>(s: Store<H, T>, dst: H, src: H, unique: bool, rest: int)
    requires Valid(s) && src in s.slots && dst != src
    requires dst in s.slots ==> !IsAddress(s.slots[dst].word)
    requires !IsAddress(rest) && InWord(rest)
    requires unique && IsAddress(s.slots[src].word) ==> s.blocks[s.slots[src].word].count == 1
    ensures Valid(Transfer(s, dst, src, unique, rest))
    ensures Transfer(s, dst, src, unique, rest).blocks == s.blocks
  {
    var w := s.slots[src].word;
    var s1 := Put(s, src, rest, s.slots[src].unique);
    var s' := Transfer(s, dst, src, unique, rest);
    forall a | a in s'.blocks
      ensures 1 <= s'.blocks[a].count == |Holders(s'.slots, a)|
    {
      HoldersAfterPut(s.slots, src, Slot(rest, s.slots[src].unique), a);
      HoldersAfterPut(s1.slots, dst, Slot(w, unique), a);
    }
  }

  /** The move assignment, as it is meant, keeps the ledger: `dst` takes
      `src`'s block, `src` is null, and only `dst`'s old reference is
      released. */
  lemma MoveAssignKeepsValid<H, T>(s: Store<H, T>, dst: H, src: H)
    requires Valid(s) && dst in s.slots && src in s.slots && dst != src
    requires s.slots[dst].unique == s.slots[src].unique
    ensures Valid(MoveAssign(s, dst, src))
    ensures MoveAssign(s, dst, src).slots[dst] == s.slots[src]
    ensures MoveAssign(s, dst, src).slots[src].word == NULL
    ensures MoveAssign(s, dst, src).blocks == Clear(s, dst).blocks
  {
    ClearKeepsValid(s, dst);
    var s1 := Clear(s, dst);
    TransferKeepsValid(s1, dst, src, s.slots[dst].unique, NULL);
  }

  /** `Share()` moves the block into a shared handle with the count unchanged
      and leaves the unique source null. */
  lemma ShareKeepsValid<H, T>(s: Store<H, T>, dst: H, src: H)
    requires Valid(s) && src in s.slots && dst !in s.slots
    ensures Valid(Share(s, dst, src))
    ensures Share(s, dst, src).blocks == s.blocks
    ensures Share(s, dst, src).slots[dst] == Slot(s.slots[src].word, false)
    ensures Share(s, dst, src).slots[src].word == NULL
  {
    TransferKeepsValid(s, dst, src, false, NULL);
  }

  /** `AttemptToClaim()` succeeds exactly when the source is the block's only
      holder; either way the block and its count are unchanged and the source
      is null. */
  lemma AttemptToClaimKeepsValid<H, T>(s: Store<H, T>, dst: H, src: H)
    requires Valid(s) && src in s.slots && dst !in s.slots && IsAddress(s.slots[src].word)
    ensures ClaimSucceeds(s, src) <==> Holders(s.slots, s.slots[src].word) == {src}
    ensures Valid(AttemptToClaim(s, dst, src))
    ensures AttemptToClaim(s, dst, src).blocks == s.blocks
    ensures AttemptToClaim(s, dst, src).slots[dst] == Slot(s.slots[src].word, ClaimSucceeds(s, src))
    ensures AttemptToClaim(s, dst, src).slots[src].word == NULL
  {
    var a := s.slots[src].word;
    if Holders(s.slots, a) == {src} {
      assert |Holders(s.slots, a)| == 1;
    } else {
      var g :| g in Holders(s.slots, a) && g != src;
      TwoHolders(s, src, g);
    }
    TransferKeepsValid(s, dst, src, ClaimSucceeds(s, src), NULL);
  }

  /** Swapping a handle's word with itself (`x = std::move(x)` on an
      `IntOrValue`) changes nothing. */
  lemma SwapSelf<H, T>(s: Store<H, T>, h: H)
    requires h in s.slots
    ensures Swap(s, h, h) == s
  {
    assert Swap(s, h, h).slots == s.slots;
  }

  /** Swapping the words of two handles of one type keeps the ledger and
      changes no count. */
  lemma SwapKeepsValid<H, T>(s: Store<H, T>, d: H, e: H)
    requires Valid(s) && d in s.slots && e in s.slots
    requires s.slots[d].unique == s.slots[e].unique
    ensures Valid(Swap(s, d, e))
    ensures Swap(s, d, e).blocks == s.blocks
    ensures Swap(s, d, e).slots[d] == s.slots[e] && Swap(s, d, e).slots[e] == s.slots[d]
  {
    if d == e {
      SwapSelf(s, d);
      return;
    }
    var s1 := Put(s, d, s.slots[e].word, s.slots[d].unique);
    var s' := Swap(s, d, e);
    forall a | a in s'.blocks
      ensures 1 <= s'.blocks[a].count == |Holders(s'.slots, a)|
    {
      HoldersAfterPut(s.slots, d, Slot(s.slots[e].word, s.slots[d].unique), a);
      HoldersAfterPut(s1.slots, e, Slot(s.slots[d].word, s.slots[e].unique), a);
    }
  }

  // ---------------------------------------------------------------------------
  // The shared move assignment as written
  // ---------------------------------------------------------------------------

  /** When the block of the assigned-to shared handle has another holder, the
      move assignment as written leaves that block with one reference fewer
      than it has holders: the released address is swapped into `src`, which
      will release it a second time. */
  lemma MoveAssignAsWrittenBreaksLedger<H, T>(s: Store<H, T>, dst: H, src: H)
    requires Valid(s) && dst in s.slots && src in s.slots && dst != src
    requires IsAddress(s.slots[dst].word) && s.blocks[s.slots[dst].word].count >= 2
    ensures var s' := MoveAssignAsWritten(s, dst, src); var a := s.slots[dst].word;
            a in s'.blocks && s'.blocks[a].count == |Holders(s'.slots, a)| - 1
    ensures !Valid(MoveAssignAsWritten(s, dst, src))
  {
    var a, b := s.slots[dst].word, s.slots[src].word;
    var s1 := ClearAsWritten(s, dst);
    assert s1.slots == s.slots && s1.slots[dst].word == a;
    var slots2 := s.slots[dst := Slot(b, s.slots[dst].unique)];
    var s' := MoveAssignAsWritten(s, dst, src);
    assert s'.slots == slots2[src := Slot(a, s.slots[src].unique)];
    HoldersAfterPut(s.slots, dst, Slot(b, s.slots[dst].unique), a);
    HoldersAfterPut(slots2, src, Slot(a, s.slots[src].unique), a);
  }

  /** Otherwise the two agree: when `dst` is null, or is the last holder of its
      block, `Clear` as written nulls `buffer_` before the swap. With
      `MoveAssignAsWrittenBreaksLedger` this says the defect shows exactly
      when the assigned-to handle shares its block. */
  lemma MoveAssignAsWrittenAgreesUnlessShared<H, T>(s: Store<H, T>, dst: H, src: H)
    requires Valid(s) && dst in s.slots && src in s.slots && dst != src
    requires IsPointer(s.slots[dst].word)
    requires IsAddress(s.slots[dst].word) ==> s.blocks[s.slots[dst].word].count == 1
    ensures MoveAssignAsWritten(s, dst, src) == MoveAssign(s, dst, src)
  {
    var s1 := Clear(s, dst);
    assert ClearAsWritten(s, dst) == s1 && s1.slots[dst].word == NULL;
    assert MoveAssignAsWritten(s, dst, src).slots == MoveAssign(s, dst, src).slots;
  }

  /** The concrete case: handles 1 and 2 share the block at address 2, handle 3
      owns the block at address 4. After `h1 = std::move(h3)` and the
      destruction of `h3`, the block at 2 is freed while handle 2 still points
      at it. */
  lemma AliasedMoveAssignFreesLiveBlock()
    ensures var s := Store(map[2 := Block(2, 'x'), 4 := Block(1, 'y')],
                           map[1 := Slot(2, false), 2 := Slot(2, false), 3 := Slot(4, false)]);
            && Valid(s)
            && var t := Destroy(MoveAssignAsWritten(s, 1, 3), 3);
            && 2 !in t.blocks && 2 in t.slots && t.slots[2].word == 2
  {
    var s := Store(map[2 := Block(2, 'x'), 4 := Block(1, 'y')],
                   map[1 := Slot(2, false), 2 := Slot(2, false), 3 := Slot(4, false)]);
    assert Holders(s.slots, 2) == {1, 2};
    assert Holders(s.slots, 4) == {3};
    assert Valid(s);
  }

}
