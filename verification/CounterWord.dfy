/**
  The 32-bit words of blocks and links, as bit vectors. The word of a block holds the lock bit (31),
  the tag of the link union (30) and, in the low thirty bits, the reference counter. The word of a
  link holds the availability bit (31) and the index of a slot.
 */
module CounterWord {

  type Word = bv32

  function Half(x: Word): Word { x >> 1 }
  predicate Odd(x: Word) { x & 1 == 1 }
  function Succ(x: Word): Word { x + 1 }
  function Pred(x: Word): Word { x - 1 }

  /** The number that a word stands for, read bit by bit. */
  function Value(x: Word): nat
    decreases x
  {
    if x == 0 then 0 else 2 * Value(Half(x)) + if Odd(x) then 1 else 0
  }

  lemma ValueStep(x: Word)
    ensures Value(x) == 2 * Value(Half(x)) + if Odd(x) then 1 else 0
    ensures x != 0 ==> Value(Half(x)) < Value(x)
  {
    if x != 0 {
      ValuePositive(x);
    }
  }

  lemma {:induction false} ValuePositive(x: Word)
    requires x != 0
    ensures Value(x) > 0
    decreases x
  {
    if !Odd(x) {
      ValuePositive(Half(x));
    }
  }

  lemma OddStep(x: Word)
    requires Odd(x) && x != 0xFFFF_FFFF
    ensures Half(Succ(x)) == Succ(Half(x)) && !Odd(Succ(x))
  {
  }

  lemma HalfNotFull(x: Word)
    ensures Half(x) != 0xFFFF_FFFF
  {
  }

  lemma EvenStep(x: Word)
    requires !Odd(x)
    ensures Half(Succ(x)) == Half(x) && Odd(Succ(x))
  {
  }

  lemma OddIsPositive(x: Word)
    requires Odd(x)
    ensures x != 0
  {
  }

  lemma {:induction false} ValueIncrement(x: Word)
    requires x != 0xFFFF_FFFF
    ensures Value(Succ(x)) == Value(x) + 1
    decreases Value(x)
  {
    hide Value, Half, Odd, Succ;
    ValueStep(x);
    ValueStep(Succ(x));
    if Odd(x) {
      OddIsPositive(x);
      OddStep(x);
      HalfNotFull(x);
      ValueIncrement(Half(x));
    } else {
      EvenStep(x);
    }
  }

  lemma OneLess(x: Word)
    requires x != 0
    ensures Pred(x) != 0xFFFF_FFFF && Succ(Pred(x)) == x
  {
  }

  lemma ValueDecrement(x: Word)
    requires x != 0
    ensures Value(Pred(x)) == Value(x) - 1
  {
    hide Value, Succ, Pred;
    OneLess(x);
    ValueIncrement(Pred(x));
  }

  /** The bits of `x` are among those of `y`. */
  predicate Within(x: Word, y: Word) { x & y == x }

  lemma WithinHalf(x: Word, y: Word)
    requires Within(x, y)
    ensures Within(Half(x), Half(y)) && (Odd(x) ==> Odd(y))
  {
  }

  lemma SameHalves(x: Word, y: Word)
    requires Half(x) == Half(y) && Odd(x) == Odd(y)
    ensures x == y
  {
  }

  lemma WithinZero(x: Word)
    requires Within(x, 0)
    ensures x == 0
  {
  }

  lemma {:induction false} ValueWithin(x: Word, y: Word)
    requires Within(x, y)
    ensures Value(x) <= Value(y) && (Value(x) == Value(y) ==> x == y)
    decreases Value(y)
  {
    hide Value, Half, Odd, Within;
    if y == 0 {
      WithinZero(x);
    } else {
      ValueStep(x);
      ValueStep(y);
      WithinHalf(x, y);
      ValueWithin(Half(x), Half(y));
      if Value(x) == Value(y) {
        SameHalves(x, y);
      }
    }
  }

  lemma ValueOfOnes()
    ensures Value(0x3FFF_FFFF) == 0x3FFF_FFFF
  {
    assert Value(0x3) == 0x3;
    assert Value(0xF) == 0xF;
    assert Value(0x3F) == 0x3F;
    assert Value(0xFF) == 0xFF;
    assert Value(0x3FF) == 0x3FF;
    assert Value(0xFFF) == 0xFFF;
    assert Value(0x3FFF) == 0x3FFF;
    assert Value(0xFFFF) == 0xFFFF;
    assert Value(0x3_FFFF) == 0x3_FFFF;
    assert Value(0xF_FFFF) == 0xF_FFFF;
    assert Value(0x3F_FFFF) == 0x3F_FFFF;
    assert Value(0xFF_FFFF) == 0xFF_FFFF;
    assert Value(0x3FF_FFFF) == 0x3FF_FFFF;
    assert Value(0xFFF_FFFF) == 0xFFF_FFFF;
  }

  // ----- The word of a block -----

  const LOCK_MASK: Word := 0x8000_0000
  const SINGLE_MASK: Word := 0x4000_0000
  const COUNTER_MASK: Word := !(LOCK_MASK | SINGLE_MASK)
  const MAX_REFS: nat := 0x3FFF_FFFF

  predicate Locked(w: Word) {
    w & LOCK_MASK != 0
  }

  predicate Single(w: Word) {
    w & SINGLE_MASK != 0
  }

  function Counter(w: Word): Word { w & COUNTER_MASK }

  function Refs(w: Word): nat {
    Value(Counter(w))
  }

  function WithLock(w: Word): Word { w | LOCK_MASK }
  function WithoutLock(w: Word): Word { w & !LOCK_MASK }

  function WithSingle(w: Word): Word { w | SINGLE_MASK }
  function WithoutSingle(w: Word): Word { w & !SINGLE_MASK }

  /** refcouner_inc */
  function Increment(w: Word): Word {
    ((LOCK_MASK | SINGLE_MASK) & w) | Succ(Counter(w))
  }

  /** refcouner_dec: a counter of zero wraps to all ones and floods the flag bits. */
  function Decrement(w: Word): Word {
    ((LOCK_MASK | SINGLE_MASK) & w) | Pred(Counter(w))
  }

  lemma Masks()
    ensures COUNTER_MASK == 0x3FFF_FFFF
  {
  }

  lemma LockBits(w: Word)
    ensures Locked(WithLock(w)) && !Locked(WithoutLock(w))
  {
  }

  lemma LockKeepsTag(w: Word)
    ensures Single(WithLock(w)) == Single(w) && Single(WithoutLock(w)) == Single(w)
  {
  }

  lemma LockKeepsCounter(w: Word)
    ensures Counter(WithLock(w)) == Counter(w)
  {
  }

  lemma UnlockKeepsCounter(w: Word)
    ensures Counter(WithoutLock(w)) == Counter(w)
  {
  }

  lemma LockIsolated(w: Word)
    ensures Locked(WithLock(w)) && Single(WithLock(w)) == Single(w) && Refs(WithLock(w)) == Refs(w)
    ensures !Locked(WithoutLock(w)) && Single(WithoutLock(w)) == Single(w) && Refs(WithoutLock(w)) == Refs(w)
  {
    hide Locked, Single, Counter, Value, WithLock, WithoutLock;
    LockBits(w);
    LockKeepsTag(w);
    LockKeepsCounter(w);
    UnlockKeepsCounter(w);
  }

  lemma SingleBits(w: Word)
    ensures Single(WithSingle(w)) && !Single(WithoutSingle(w))
  {
  }

  lemma SingleKeepsLock(w: Word)
    ensures Locked(WithSingle(w)) == Locked(w) && Locked(WithoutSingle(w)) == Locked(w)
  {
  }

  lemma SingleKeepsCounter(w: Word)
    ensures Counter(WithSingle(w)) == Counter(w)
  {
  }

  lemma MultiKeepsCounter(w: Word)
    ensures Counter(WithoutSingle(w)) == Counter(w)
  {
  }

  lemma SingleIsolated(w: Word)
    ensures Single(WithSingle(w)) && Locked(WithSingle(w)) == Locked(w) && Refs(WithSingle(w)) == Refs(w)
    ensures !Single(WithoutSingle(w)) && Locked(WithoutSingle(w)) == Locked(w)
         && Refs(WithoutSingle(w)) == Refs(w)
  {
    hide Locked, Single, Counter, Value, WithSingle, WithoutSingle;
    SingleBits(w);
    SingleKeepsLock(w);
    SingleKeepsCounter(w);
    MultiKeepsCounter(w);
  }

  lemma IncrementKeepsFlags(w: Word)
    requires Counter(w) != COUNTER_MASK
    ensures Locked(Increment(w)) == Locked(w) && Single(Increment(w)) == Single(w)
  {
  }

  lemma IncrementCounts(w: Word)
    ensures Counter(w) != COUNTER_MASK ==> Counter(Increment(w)) == Succ(Counter(w))
    ensures Counter(w) == COUNTER_MASK ==> Counter(Increment(w)) == 0
  {
  }

  lemma DecrementKeepsFlags(w: Word)
    requires Counter(w) != 0
    ensures Locked(Decrement(w)) == Locked(w) && Single(Decrement(w)) == Single(w)
  {
  }

  lemma DecrementCounts(w: Word)
    ensures Counter(w) != 0 ==> Counter(Decrement(w)) == Pred(Counter(w))
    ensures Counter(w) == 0 ==> Counter(Decrement(w)) == COUNTER_MASK
  {
  }

  lemma CounterWithin(w: Word)
    ensures Within(Counter(w), COUNTER_MASK) && Counter(w) != 0xFFFF_FFFF
  {
  }

  lemma ValueOfZero()
    ensures Value(0) == 0
  {
  }

  lemma RefsLimit(w: Word)
    ensures Refs(w) <= MAX_REFS && (Refs(w) == MAX_REFS <==> Counter(w) == COUNTER_MASK)
    ensures Refs(w) == 0 <==> Counter(w) == 0
  {
    hide Value, Counter, Within;
    CounterWithin(w);
    Masks();
    ValueOfOnes();
    ValueWithin(Counter(w), COUNTER_MASK);
    ValueOfZero();
    if Counter(w) != 0 {
      ValuePositive(Counter(w));
    }
  }

  /** Taking a reference disturbs neither lock nor tag and counts one up exactly while the counter is
      not full. */
  lemma IncrementIsolated(w: Word)
    ensures Refs(w) < MAX_REFS <==>
      Locked(Increment(w)) == Locked(w) && Single(Increment(w)) == Single(w) && Refs(Increment(w)) == Refs(w) + 1
  {
    hide Locked, Single, Counter, Value, Increment, Within, Succ;
    RefsLimit(w);
    IncrementCounts(w);
    CounterWithin(w);
    ValueOfZero();
    if Counter(w) != COUNTER_MASK {
      IncrementKeepsFlags(w);
      ValueIncrement(Counter(w));
    }
  }

  /** Dropping a reference disturbs neither lock nor tag and counts one down exactly while there is one. */
  lemma DecrementIsolated(w: Word)
    ensures Refs(w) > 0 <==>
      Locked(Decrement(w)) == Locked(w) && Single(Decrement(w)) == Single(w) && Refs(Decrement(w)) == Refs(w) - 1
  {
    hide Locked, Single, Counter, Value, Decrement, Pred;
    RefsLimit(w);
    DecrementCounts(w);
    if Counter(w) != 0 {
      DecrementKeepsFlags(w);
      ValueDecrement(Counter(w));
    }
  }

  // ----- The word of a link -----

  const LOCAL_MASK: Word := 0x8000_0000
  const INDEX_MASK: Word := 0x7FFF_FFFF

  predicate IsLocal(w: Word) { w & LOCAL_MASK != 0 }
  function Index(w: Word): Word { w & INDEX_MASK }
  function Available(w: Word): Word { w | LOCAL_MASK }
  function Unavailable(w: Word): Word { w & INDEX_MASK }

  /** A link that is marked as available still tells its index exactly while the index leaves the upper
      bit free. */
  lemma PackedIndex(index: Word)
    ensures Index(Available(index)) == index <==> !IsLocal(index)
  {
  }

  /** Marking sets and clears the upper bit and leaves the index of the link alone. */
  lemma MarkIsolated(w: Word)
    ensures IsLocal(Available(w)) && !IsLocal(Unavailable(w))
    ensures Index(Available(w)) == Index(w) && Index(Unavailable(w)) == Index(w)
  {
    hide IsLocal, Index, Available, Unavailable;
    MarkBits(w);
    MarkKeepsIndex(w);
    UnmarkKeepsIndex(w);
  }

  lemma MarkBits(w: Word)
    ensures IsLocal(Available(w)) && !IsLocal(Unavailable(w))
  {
  }

  lemma MarkKeepsIndex(w: Word)
    ensures Index(Available(w)) == Index(w)
  {
  }

  lemma UnmarkKeepsIndex(w: Word)
    ensures Index(Unavailable(w)) == Index(w)
  {
  }
}
