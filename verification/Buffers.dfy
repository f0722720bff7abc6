/** How the input buffer of a multi-part signature grows. */
module Buffers {
  import opened Bytes
  import opened Pkcs11
  import opened Runs
  import opened MultiPart

  // ----- the doubling loop on 64-bit sizes -----

  /** The capacity after n doublings, wrapping at 64 bits. */
  function Doubled(cap: nat, n: nat): nat {
    if n == 0 then cap else 2 * Doubled(cap, n - 1) % ULONG_LIMIT
  }

  lemma {:induction false} Power2Monotone(k: nat, m: nat)
    requires k <= m
    ensures Power2(k) <= Power2(m)
    decreases m - k
  {
    if k < m {
      Power2Monotone(k + 1, m);
      assert Power2(k + 1) == 2 * Power2(k);
    }
  }

  lemma TimesByte(k: nat)
    ensures Power2(k + 8) == 256 * Power2(k)
  {
    assert Power2(k + 2) == 4 * Power2(k) && Power2(k + 4) == 4 * Power2(k + 2);
    assert Power2(k + 6) == 4 * Power2(k + 4) && Power2(k + 8) == 4 * Power2(k + 6);
  }

  lemma LargestCapacity()
    ensures FIRST_CAPACITY * Power2(55) == MAX_NEED
  {
    assert Power2(0) == 1 && Power2(7) == 128;
    TimesByte(7);
    TimesByte(15);
    TimesByte(23);
    TimesByte(31);
    TimesByte(39);
    TimesByte(47);
  }

  lemma {:induction false} DoublingWraps(k: nat, n: nat)
    requires k <= 55
    ensures Doubled(FIRST_CAPACITY * Power2(k), n) == if k + n <= 55 then FIRST_CAPACITY * Power2(k + n) else 0
  {
    if n > 0 {
      DoublingWraps(k, n - 1);
      LargestCapacity();
      if k + n <= 55 {
        Power2Monotone(k + n, 55);
        DoubleOnce(FIRST_CAPACITY * Power2(k + n - 1));
        assert Power2(k + n) == 2 * Power2(k + n - 1);
      } else {
        DoubleOnce(Doubled(FIRST_CAPACITY * Power2(k), n - 1));
      }
    }
  }

  lemma DoubleOnce(cap: nat)
    ensures cap < MAX_NEED ==> 2 * cap % ULONG_LIMIT == 2 * cap
    ensures cap == MAX_NEED || cap == 0 ==> 2 * cap % ULONG_LIMIT == 0
  {
  }

  /** Starting from a capacity that the module can have, the doubling loop reaches what
      is needed if and only if that is at most 2^63; beyond, it wraps to zero and stays. */
  lemma DoublingEnds(k: nat, need: nat)
    requires k <= 55 && need > 0
    ensures (exists n: nat :: Doubled(FIRST_CAPACITY * Power2(k), n) >= need) <==> need <= MAX_NEED
  {
    LargestCapacity();
    DoublingWraps(k, 55 - k);
    forall n: nat
      ensures Doubled(FIRST_CAPACITY * Power2(k), n) <= MAX_NEED
    {
      DoublingWraps(k, n);
      if k + n <= 55 {
        Power2Monotone(k + n, 55);
      }
    }
  }

  // ----- which updates are in order -----

  /** The sum of two sizes as the C code computes it. */
  function WrappedSum(a: nat, b: nat): nat {
    (a + b) % ULONG_LIMIT
  }

  /** The capacity that the loop starts from. */
  function FirstTry(cap: nat): nat {
    if cap > 0 then 2 * cap % ULONG_LIMIT else FIRST_CAPACITY
  }

  /** C_SignUpdate with 64-bit sizes: whether the loop ends, if it is entered, and the bytes
      then fit the capacity that they are copied to. */
  ghost predicate UpdateInOrder(cap: nat, len: nat, part: nat) {
    var need := WrappedSum(len, part);
    if need <= cap then len + part <= cap
    else exists n: nat :: IsLoopEnd(FirstTry(cap), need, n) && len + part <= Doubled(FirstTry(cap), n)
  }

  /** The loop ends after n doublings and not before. */
  ghost predicate IsLoopEnd(start: nat, need: nat, n: nat) {
    Doubled(start, n) >= need && forall m: nat | m < n :: Doubled(start, m) < need
  }

  /** A capacity that the module can have. */
  ghost predicate CapacityReached(cap: nat) {
    cap == 0 || exists k: nat :: k <= 55 && cap == FIRST_CAPACITY * Power2(k)
  }

  lemma DoubledIsSmall(cap: nat, n: nat)
    requires CapacityReached(cap)
    ensures Doubled(FirstTry(cap), n) <= MAX_NEED
  {
    LargestCapacity();
    if cap == 0 {
      assert Power2(0) == 1;
      SmallFrom(0, n);
    } else {
      var k: nat :| k <= 55 && cap == FIRST_CAPACITY * Power2(k);
      SmallFrom(k, n + 1);
      StartLater(cap, n);
    }
  }

  lemma SmallFrom(k: nat, n: nat)
    requires k <= 55
    ensures Doubled(FIRST_CAPACITY * Power2(k), n) <= MAX_NEED
  {
    LargestCapacity();
    DoublingWraps(k, n);
    if k + n <= 55 {
      Power2Monotone(k + n, 55);
    }
  }

  lemma {:induction false} StartLater(cap: nat, n: nat)
    ensures Doubled(2 * cap % ULONG_LIMIT, n) == Doubled(cap, n + 1)
  {
    if n > 0 {
      StartLater(cap, n - 1);
    }
  }

  /** The first number of doublings that is enough, if any is. */
  lemma {:induction false} FirstEnd(start: nat, need: nat, n: nat) returns (e: nat)
    requires Doubled(start, n) >= need
    ensures IsLoopEnd(start, need, e)
  {
    if m: nat :| m < n && Doubled(start, m) >= need {
      e := FirstEnd(start, need, m);
    } else {
      e := n;
    }
  }

  lemma PowerOfNothing()
    ensures Power2(0) == 1
  {
  }

  lemma ReachesNeed(cap: nat, need: nat)
    requires CapacityReached(cap) && cap < need <= MAX_NEED
    ensures exists n: nat :: Doubled(FirstTry(cap), n) >= need
  {
    hide Doubled, Power2;
    LargestCapacity();
    if cap == 0 {
      PowerOfNothing();
      DoublingWraps(0, 55);
      assert Doubled(FirstTry(cap), 55) >= need;
    } else {
      var k: nat :| k <= 55 && cap == FIRST_CAPACITY * Power2(k);
      assert k < 55;
      DoublingWraps(k, 55 - k);
      StartLater(cap, 54 - k);
      assert Doubled(FirstTry(cap), 54 - k) >= need;
    }
  }

  /** An update ends and stays within its buffer exactly when the whole input is at most
      2^63 bytes. Above that the loop does not end; from 2^64 on the sum wraps as well, the
      buffer stays too small, and the copy goes beyond it. */
  lemma UpdateInOrderExactly(cap: nat, len: nat, part: nat)
    requires CapacityReached(cap) && len <= cap && part < ULONG_LIMIT
    ensures UpdateInOrder(cap, len, part) <==> len + part <= MAX_NEED
  {
    hide Doubled, CapacityReached;
    CapacityIsSmall(cap);
    forall n: nat
      ensures Doubled(FirstTry(cap), n) <= MAX_NEED
    {
      DoubledIsSmall(cap, n);
    }
    var need := WrappedSum(len, part);
    if len + part <= MAX_NEED && need > cap {
      assert need == len + part;
      ReachesNeed(cap, need);
      var n: nat :| Doubled(FirstTry(cap), n) >= need;
      var e := FirstEnd(FirstTry(cap), need, n);
      assert IsLoopEnd(FirstTry(cap), need, e);
    }
  }

  lemma CapacityIsSmall(cap: nat)
    requires CapacityReached(cap)
    ensures cap <= MAX_NEED
  {
    if cap > 0 {
      var k: nat :| k <= 55 && cap == FIRST_CAPACITY * Power2(k);
      LargestCapacity();
      Power2Monotone(k, 55);
    }
  }

  // ----- the cost of growing -----

  /** The capacity after adding the chunks to a buffer of len bytes. */
  function FinalCapacity(cap: nat, len: nat, chunks: seq<seq<byte>>): nat
    decreases |chunks|
  {
    if chunks == [] then cap
    else
      var need := len + |chunks[0]|;
      FinalCapacity(if need > cap then Grow(cap, need) else cap, need, chunks[1..])
  }

  /** The bytes that the reallocations move, each moving a whole buffer. */
  function Moved(cap: nat, len: nat, chunks: seq<seq<byte>>): nat
    decreases |chunks|
  {
    if chunks == [] then 0
    else
      var need := len + |chunks[0]|;
      if need > cap then cap + Moved(Grow(cap, need), need, chunks[1..]) else Moved(cap, need, chunks[1..])
  }

  /** All reallocations together move fewer bytes than the last buffer holds. */
  lemma {:induction false} MovedBelowCapacity(cap: nat, len: nat, chunks: seq<seq<byte>>)
    ensures Moved(cap, len, chunks) + cap <= FinalCapacity(cap, len, chunks)
    ensures cap == 0 && FinalCapacity(cap, len, chunks) > 0
            ==> Moved(cap, len, chunks) < FinalCapacity(cap, len, chunks)
    decreases |chunks|
  {
    if chunks != [] {
      var need := len + |chunks[0]|;
      if need > cap {
        MovedBelowCapacity(Grow(cap, need), need, chunks[1..]);
      } else {
        MovedBelowCapacity(cap, need, chunks[1..]);
      }
    }
  }

  /** That capacity is the one the module ends up with. */
  lemma {:induction false} UpdatesCapacity(env: Env, w: World, h: nat, chunks: seq<seq<byte>>)
    requires Inv(w) && NoAllocFailure(env)
    requires OpOf(w, h).Some? && OpOf(w, h).value.Active?
    ensures var op' := OpOf(Run(env, w, Updates(h, chunks)), h);
            && op'.Some? && op'.value.Active?
            && op'.value.cap == FinalCapacity(OpOf(w, h).value.cap, |OpOf(w, h).value.input|, chunks)
    decreases |chunks|
  {
    hide Inv, Step, Grow, OpOf, NoAllocFailure;
    if chunks != [] {
      var c, rest := SignUpdate(h, chunks[0]), Updates(h, chunks[1..]);
      assert Updates(h, chunks)[0] == c && Updates(h, chunks)[1..] == rest;
      UpdateCapacity(env, w, h, chunks[0]);
      StepKeepsInv(env, w, c);
      UpdatesCapacity(env, Step(env, w, c).w, h, chunks[1..]);
    }
  }

  lemma UpdateCapacity(env: Env, w: World, h: nat, part: seq<byte>)
    requires Inv(w) && NoAllocFailure(env)
    requires OpOf(w, h).Some? && OpOf(w, h).value.Active?
    ensures var op, op' := OpOf(w, h).value, OpOf(Step(env, w, SignUpdate(h, part)).w, h);
            var need := |op.input| + |part|;
            && op'.Some? && op'.value.Active? && |op'.value.input| == need
            && op'.value.cap == if need > op.cap then Grow(op.cap, need) else op.cap
  {
    var c := SignUpdate(h, part);
    var i, w' := FindSession(w.slots, h), Step(env, w, c).w;
    assert env.alloc(w.io.allocs);
    StepKeepsInv(env, w, c);
    SigningChangesOnlyOp(env, w, c);
    OnlyOpFinds(w, w', h);
  }
}
