/** The bounded history kept by the state holder and by the bridge's event
    history: a fixed-capacity deque that, when full, drops its front element
    before pushing the new one at the back. */
module Deques {

  /** Reference definition: the last `n` elements of `s`, or all of `s` when
      it is shorter. */
  function LastN<T>(s: seq<T>, n: nat): seq<T>
  {
    if |s| <= n then s else s[|s| - n..]
  }

  /** One `pop_front`-if-full followed by `push_back`. */
  function PushBounded<T>(h: seq<T>, x: T, capacity: nat): (r: seq<T>)
    requires 0 < capacity && |h| <= capacity
    ensures |r| <= capacity && |r| == if |h| == capacity then capacity else |h| + 1
    ensures r[|r| - 1] == x
    ensures r == LastN(h + [x], capacity)
  {
    if |h| == capacity then h[1..] + [x] else h + [x]
  }

  /** The history after pushing every element of `xs`, oldest first. */
  function PushAll<T>(h: seq<T>, xs: seq<T>, capacity: nat): (r: seq<T>)
    requires 0 < capacity && |h| <= capacity
    ensures |r| <= capacity
    decreases |xs|
  {
    if xs == [] then h else PushAll(PushBounded(h, xs[0], capacity), xs[1..], capacity)
  }

  /** Keeping the last `n` of a sequence and then extending it keeps the same
      last `n` as extending first. */
  lemma {:induction false} LastNAbsorbs<T>(s: seq<T>, t: seq<T>, n: nat)
    ensures LastN(LastN(s, n) + t, n) == LastN(s + t, n)
  {
    if |s| > n {
      var k := |s| - n;
      assert LastN(s, n) + t == (s + t)[k..];
      var u := (s + t)[k..];
      if |u| > n {
        assert u[|u| - n..] == (s + t)[|s + t| - n..];
      }
    }
  }

  /** A history that starts within capacity and receives `xs` equals the
      last `capacity` elements of the old history followed by `xs`. */
  lemma {:induction false} PushAllKeepsLast<T>(h: seq<T>, xs: seq<T>, capacity: nat)
    requires 0 < capacity && |h| <= capacity
    ensures PushAll(h, xs, capacity) == LastN(h + xs, capacity)
    decreases |xs|
  {
    if xs == [] {
      assert h + xs == h;
    } else {
      var h' := PushBounded(h, xs[0], capacity);
      PushAllKeepsLast(h', xs[1..], capacity);
      LastNAbsorbs(h + [xs[0]], xs[1..], capacity);
      assert h + [xs[0]] + xs[1..] == h + xs;
    }
  }

  /** The last `n` elements are a suffix of length min(|s|, n). */
  lemma LastNIsSuffix<T>(s: seq<T>, n: nat)
    ensures var r := LastN(s, n);
      |r| == (if |s| <= n then |s| else n) && r == s[|s| - |r|..]
  {
    if |s| <= n {
      assert s[0..] == s;
    }
  }

  /** From an empty history, pushing `xs` leaves the last
      min(|xs|, capacity) of them, in the order they were pushed. */
  lemma {:induction false} HistoryIsLastPushed<T>(xs: seq<T>, capacity: nat)
    requires 0 < capacity
    ensures var r := PushAll([], xs, capacity);
      && |r| == (if |xs| <= capacity then |xs| else capacity)
      && r == xs[|xs| - |r|..]
  {
    PushAllKeepsLast([], xs, capacity);
    assert [] + xs == xs;
    LastNIsSuffix(xs, capacity);
  }
}
