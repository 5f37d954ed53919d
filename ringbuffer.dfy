/**
 * The capacity-bounded FIFO of txspy/objectbrowser.py: a deque whose
 * `append` drops the oldest element once the capacity is exceeded, while
 * `extend` is the deque's own and enforces no bound at all.
 */
module RingBuffers {
  import opened Wrappers

  /** The deque after `append(x)`: push on the right, then pop exactly one
      element from the left when the length exceeds `maxSize`. */
  function RingAppend<T>(maxSize: int, s: seq<T>, x: T): seq<T>
  {
    if |s| + 1 > maxSize then (s + [x])[1..] else s + [x]
  }

  /** The last `maxSize` elements of `s` (all of `s` when it is shorter). */
  function Window<T>(maxSize: nat, s: seq<T>): seq<T>
  {
    if |s| <= maxSize then s else s[|s| - maxSize..]
  }

  /** The samples after appending every element of `xs` in order. */
  function AppendAll<T>(maxSize: int, s: seq<T>, xs: seq<T>): seq<T>
    decreases |xs|
  {
    if xs == [] then s else AppendAll(maxSize, RingAppend(maxSize, s, xs[0]), xs[1..])
  }

  /** On a buffer within its bound, `append` keeps the last
      min(len + 1, maxSize) elements of old + [x]: either nothing is dropped,
      or (the buffer was full) exactly the oldest element is. */
  lemma AppendWindow<T>(maxSize: int, s: seq<T>, x: T)
    requires 0 < maxSize && |s| <= maxSize
    ensures RingAppend(maxSize, s, x) == Window(maxSize, s + [x])
    ensures |RingAppend(maxSize, s, x)| == if |s| < maxSize then |s| + 1 else maxSize
    ensures |s| < maxSize ==> RingAppend(maxSize, s, x) == s + [x]
    ensures |s| == maxSize ==> RingAppend(maxSize, s, x) == s[1..] + [x]
    ensures RingAppend(maxSize, s, x)[|RingAppend(maxSize, s, x)| - 1] == x
  {
  }

  /** The newest sample is always the one just appended, whatever the length
      (this is what keeps a type that is present in a census from being
      pruned in the same tick). */
  lemma AppendLast<T>(maxSize: int, s: seq<T>, x: T)
    requires 0 < maxSize
    ensures |RingAppend(maxSize, s, x)| > 0
    ensures RingAppend(maxSize, s, x)[|RingAppend(maxSize, s, x)| - 1] == x
  {
  }

  /** Once `extend` has pushed a buffer past its bound, `append` cannot repair
      it: it pops one element for the one it pushes, so the length stays. */
  lemma AppendOverfull<T>(maxSize: int, s: seq<T>, x: T)
    requires |s| > maxSize
    ensures |RingAppend(maxSize, s, x)| == |s| > maxSize
  {
  }

  lemma {:induction false} WindowOfWindow<T>(maxSize: nat, t: seq<T>, u: seq<T>)
    ensures Window(maxSize, Window(maxSize, t) + u) == Window(maxSize, t + u)
  {
    if |t| > maxSize {
      var a := |t| - maxSize;
      assert Window(maxSize, t) + u == (t + u)[a..];
    }
  }

  /** Any run of appends from a bounded buffer leaves exactly the newest
      `maxSize` of all the elements seen, in append order. */
  lemma {:induction false} AppendAllWindow<T>(maxSize: int, s: seq<T>, xs: seq<T>)
    requires 0 < maxSize && |s| <= maxSize
    ensures AppendAll(maxSize, s, xs) == Window(maxSize, s + xs)
    ensures |AppendAll(maxSize, s, xs)| <= maxSize
    decreases |xs|
  {
    if xs == [] {
      assert s + xs == s;
    } else {
      var s' := RingAppend(maxSize, s, xs[0]);
      AppendWindow(maxSize, s, xs[0]);
      AppendAllWindow(maxSize, s', xs[1..]);
      WindowOfWindow(maxSize, s + [xs[0]], xs[1..]);
      assert s + [xs[0]] + xs[1..] == s + xs;
    }
  }

  /** A buffer of capacity 3 fed 1, 2, 3, 4, 5 holds 3, 4, 5. */
  lemma AppendFiveToCapacityThree()
    ensures AppendAll(3, [], [1, 2, 3, 4, 5]) == [3, 4, 5]
  {
    AppendAllWindow(3, [], [1, 2, 3, 4, 5]);
  }

  /** The source's `RingBuffer`: a bound `maxSize` and the deque it wraps. */
  class RingBuffer<T> {
    const maxSize: int
    var contents: seq<T>

    /** The constructor's `assert size > 0`. */
    ghost predicate Valid()
    {
      maxSize > 0
    }

    constructor (size: int)
      requires size > 0
      ensures Valid()
      ensures maxSize == size && contents == []
    {
      maxSize := size;
      contents := [];
    }

    /** `__len__`: the number of samples held. */
    function Length(): (n: nat)
      reads this
      ensures n == |contents|
    {
      |contents|
    }

    method Append(x: T)
      modifies this
      ensures contents == RingAppend(maxSize, old(contents), x)
    {
      contents := contents + [x];
      if Length() > maxSize {
        contents := contents[1..];
      }
    }

    /** The deque's own `extend`: no eviction, no bound. */
    method Extend(xs: seq<T>)
      modifies this
      ensures contents == old(contents) + xs
    {
      contents := contents + xs;
    }

    /** `__getitem__` with Python's index rules: a negative key counts from
        the newest end, and a key out of range raises IndexError (`None`). */
    method Get(key: int) returns (r: Option<T>)
      ensures 0 <= key < |contents| ==> r == Some(contents[key])
      ensures -|contents| <= key < 0 ==> r == Some(contents[|contents| + key])
      ensures key < -|contents| || |contents| <= key ==> r == None
    {
      if 0 <= key < Length() {
        r := Some(contents[key]);
      } else if 0 <= Length() + key && key < 0 {
        r := Some(contents[Length() + key]);
      } else {
        r := None;
      }
    }
  }
}
