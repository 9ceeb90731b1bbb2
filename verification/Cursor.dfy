/**
 The policy cursor: an 8-bit signed index that is incremented and then reset to
 zero when it meets the policy length narrowed to eight bits.
 */
module Cursor {
  import opened Common

  /** The cursor after one more failure. */
  function Advance(cursor: Int8, len: nat): Int8
  {
    var next := ToInt8(cursor + 1);
    if next == ToInt8(len) then 0 else next
  }

  /** The index a query reads to predict the next action. The sum is an `int`, so it does not wrap. */
  function PeekIndex(cursor: Int8, len: nat): Int8
  {
    if cursor + 1 >= ToInt8(len) then 0 else ToInt8(cursor + 1)
  }

  /** The cursor after `n` failures, counted from the fresh value -1. */
  function CursorAfter(len: nat, n: nat): Int8
  {
    if n == 0 then -1 else Advance(CursorAfter(len, n - 1), len)
  }

  /** The policy lengths whose narrowing to eight bits still closes the ring. */
  predicate ClosesRing(len: nat)
  {
    1 <= RingSize(len) <= 128
  }

  /** A read through `cursor` stays inside a policy of length `len`. */
  predicate InPolicy(cursor: Int8, len: nat)
  {
    0 <= cursor < len
  }

  /** Quotient and remainder are unique. */
  lemma RemainderIs(x: int, m: int, q: int, r: int)
    requires x == m * q + r && 0 <= r < m
    ensures x % m == r
  {
    var q', r' := x / m, x % m;
    var d := q - q';
    assert m * d == r' - r by {
      assert m * d == m * q - m * q';
    }
    if d >= 1 {
      Scale(m, 1, d);
    } else if d <= -1 {
      Scale(m, d, -1);
    }
  }

  lemma Scale(m: int, a: int, b: int)
    requires 0 <= m && a <= b
    ensures m * a <= m * b
  {
  }

  lemma ModSuccessor(k: nat, m: nat)
    requires m > 0
    ensures (k + 1) % m == if k % m + 1 == m then 0 else k % m + 1
  {
    var q, r := k / m, k % m;
    if r + 1 == m {
      assert k + 1 == m * (q + 1) + 0;
      RemainderIs(k + 1, m, q + 1, 0);
    } else {
      RemainderIs(k + 1, m, q, r + 1);
    }
  }

  /** The number of positions a closed ring has. */
  function RingSize(len: nat): nat
  {
    len % 256
  }

  /** Incrementing an 8-bit cursor wraps at 127 only. */
  lemma NarrowSuccessor(cursor: Int8)
    ensures ToInt8(cursor + 1) == if cursor == 127 then -128 else cursor + 1
  {
  }

  /** One step inside a closed ring. */
  lemma AdvanceInRing(cursor: Int8, len: nat)
    requires ClosesRing(len) && -1 <= cursor < RingSize(len)
    ensures Advance(cursor, len) == if cursor + 1 == RingSize(len) then 0 else cursor + 1
  {
    NarrowSuccessor(cursor);
  }

  /** One step when the ring does not close. */
  lemma AdvanceRunaway(cursor: Int8, len: nat)
    requires len > 0 && !ClosesRing(len) && -1 <= cursor
    ensures Advance(cursor, len) == if cursor == 127 then -128 else cursor + 1
  {
    NarrowSuccessor(cursor);
  }

  /** When the ring closes, the cursor is the number of earlier failures modulo the ring size. */
  lemma {:induction false} RingForm(len: nat, n: nat)
    requires ClosesRing(len) && n >= 1
    ensures CursorAfter(len, n) == (n - 1) % RingSize(len)
    ensures 0 <= CursorAfter(len, n) < RingSize(len)
    ensures InPolicy(CursorAfter(len, n), len)
  {
    var m := RingSize(len);
    if n == 1 {
      AdvanceInRing(-1, len);
      RemainderIs(0, m, 0, 0);
    } else {
      RingForm(len, n - 1);
      AdvanceInRing(CursorAfter(len, n - 1), len);
      ModSuccessor(n - 2, m);
    }
  }

  /** When it does not close, the cursor counts straight up and leaves the policy at the 129th failure. */
  lemma {:induction false} RunawayForm(len: nat, n: nat)
    requires len > 0 && !ClosesRing(len) && 1 <= n <= 129
    ensures CursorAfter(len, n) == if n <= 128 then n - 1 else -128
    ensures InPolicy(CursorAfter(len, n), len) <==> n <= 128
  {
    if n > 1 {
      RunawayForm(len, n - 1);
    }
    AdvanceRunaway(CursorAfter(len, n - 1), len);
  }

  /** Up to length 128 the ring is the whole policy. */
  lemma WholeRingForm(len: nat, n: nat)
    requires 1 <= len <= 128 && n >= 1
    ensures CursorAfter(len, n) == (n - 1) % len
  {
    RingForm(len, n);
    assert RingSize(len) == len;
  }

  /** The failure after `n` defined ones leaves the policy iff it is the 129th off a closed ring. */
  lemma NextLeavesIff(len: nat, n: nat)
    requires len > 0 && (ClosesRing(len) || n <= 128)
    ensures !InPolicy(Advance(CursorAfter(len, n), len), len) <==> n >= 128 && !ClosesRing(len)
  {
    if ClosesRing(len) {
      RingForm(len, n + 1);
    } else {
      RunawayForm(len, n + 1);
    }
  }

  /** Exact bound of the 8-bit arithmetic: every failure reads inside the policy iff the ring closes. */
  lemma InPolicyForeverIff(len: nat)
    ensures (forall n: nat | n >= 1 :: InPolicy(CursorAfter(len, n), len)) <==> ClosesRing(len)
  {
    if ClosesRing(len) {
      forall n: nat | n >= 1 ensures InPolicy(CursorAfter(len, n), len) {
        RingForm(len, n);
      }
    } else if len == 0 {
      assert !InPolicy(CursorAfter(len, 1), len);
    } else {
      RunawayForm(len, 129);
      assert !InPolicy(CursorAfter(len, 129), len);
    }
  }

  /** Some failure of a long enough run applies position `i`. */
  ghost predicate Visited(len: nat, i: int)
  {
    exists n: nat :: n >= 1 && CursorAfter(len, n) == i
  }

  /** Which positions are ever applied: exactly the first `len % 256`. */
  lemma VisitsExactly(len: nat, i: int)
    requires ClosesRing(len)
    ensures Visited(len, i) <==> 0 <= i < RingSize(len)
  {
    if 0 <= i < RingSize(len) {
      RingForm(len, i + 1);
      RemainderIs(i, RingSize(len), 0, i);
      assert CursorAfter(len, i + 1) == i;
    } else {
      forall n: nat | n >= 1 ensures CursorAfter(len, n) != i {
        RingForm(len, n);
      }
    }
  }

  /** The policy is walked in full, and never left, for the lengths 1 to 128 and no others. */
  lemma WalksWholePolicyIff(len: nat)
    requires len > 0
    ensures (&& (forall n: nat | n >= 1 :: InPolicy(CursorAfter(len, n), len))
             && (forall i | 0 <= i < len :: Visited(len, i)))
            <==> len <= 128
  {
    InPolicyForeverIff(len);
    if len <= 128 {
      forall i | 0 <= i < len ensures Visited(len, i) {
        VisitsExactly(len, i);
      }
    } else if ClosesRing(len) {
      var i := RingSize(len);
      VisitsExactly(len, i);
      assert !Visited(len, i);
    }
  }

  /** A failure run stays defined for every count up to `n` iff the ring closes or `n` is at most 128. */
  lemma InPolicyUpToIff(len: nat, n: nat)
    requires len > 0
    ensures (forall j: nat | 1 <= j <= n :: InPolicy(CursorAfter(len, j), len)) <==> ClosesRing(len) || n <= 128
  {
    if ClosesRing(len) || n <= 128 {
      forall j: nat | 1 <= j <= n ensures InPolicy(CursorAfter(len, j), len) {
        if ClosesRing(len) { RingForm(len, j); } else { RunawayForm(len, j); }
      }
    } else {
      RunawayForm(len, 129);
      assert !InPolicy(CursorAfter(len, 129), len);
    }
  }

  /** The lengths a query can tell from the narrowed length. */
  predicate PeekSeesRing(len: nat)
  {
    1 <= RingSize(len) <= 127
  }

  /** A query looks where the next failure will for those lengths, and at position 0 for all others. */
  lemma PeekForm(len: nat, n: nat)
    requires len > 0 && (ClosesRing(len) || n <= 128)
    ensures PeekIndex(CursorAfter(len, n), len) == if PeekSeesRing(len) then CursorAfter(len, n + 1) else 0
  {
    if n > 0 {
      if ClosesRing(len) {
        RingForm(len, n);
        AdvanceInRing(CursorAfter(len, n), len);
      } else {
        RunawayForm(len, n);
      }
    }
  }

  /** The query predicts every defined failure of a policy iff its length is seen or its first 128 actions agree. */
  lemma PeekAlwaysRightIff(policy: seq<Action>)
    requires policy != []
    ensures (forall n: nat | ClosesRing(|policy|) || n < 128 :: PeekRight(policy, n))
            <==> PeekSeesRing(|policy|) || (|policy| >= 128 && forall i | 0 <= i < 128 :: policy[i] == policy[0])
  {
    var len := |policy|;
    if PeekSeesRing(len) || (len >= 128 && forall i | 0 <= i < 128 :: policy[i] == policy[0]) {
      forall n: nat | ClosesRing(len) || n < 128 ensures PeekRight(policy, n) {
        PeekRightIff(policy, n);
      }
    } else {
      assert len >= 128;
      var i :| 0 <= i < 128 && policy[i] != policy[0];
      PeekRightIff(policy, i);
      EarlyPosition(len, i);
      assert !PeekRight(policy, i);
    }
  }

  lemma PeekRightIff(policy: seq<Action>, n: nat)
    requires policy != [] && (ClosesRing(|policy|) || n < 128)
    ensures InPolicy(CursorAfter(|policy|, n + 1), |policy|)
    ensures PeekRight(policy, n)
            <==> PeekSeesRing(|policy|) || policy[CursorAfter(|policy|, n + 1)] == policy[0]
  {
    NextInPolicy(|policy|, n);
    PeekForm(|policy|, n);
  }

  /** When a query cannot see the ring, the first 128 failures apply positions 0 to 127 in order. */
  lemma EarlyPosition(len: nat, i: nat)
    requires len > 0 && !PeekSeesRing(len) && i < 128
    ensures CursorAfter(len, i + 1) == i
  {
    if ClosesRing(len) {
      RingForm(len, i + 1);
      RemainderIs(i, RingSize(len), 0, i);
    } else {
      RunawayForm(len, i + 1);
    }
  }

  lemma NextInPolicy(len: nat, n: nat)
    requires len > 0 && (ClosesRing(len) || n < 128)
    ensures InPolicy(CursorAfter(len, n + 1), len)
  {
    if ClosesRing(len) { RingForm(len, n + 1); } else { RunawayForm(len, n + 1); }
  }

  /** After `n` failures, the predicted action is the one the next failure applies. */
  ghost predicate PeekRight(policy: seq<Action>, n: nat)
  {
    var peek, next := PeekIndex(CursorAfter(|policy|, n), |policy|), CursorAfter(|policy|, n + 1);
    InPolicy(peek, |policy|) && InPolicy(next, |policy|) && policy[peek] == policy[next]
  }
}
