/**
 * The double-ended queue of the _collections module: a sequence with an
 * optional length bound.  Adding at one end when the deque is full drops an
 * element at the other end.  A mutation counter makes an iterator that
 * outlives a change of the deque fail instead of reading stale contents.
 */
module Deque {
  import opened Wrappers
  import opened Bytes

  /** `state` counts structural changes; iterators remember the value they started with. */
  datatype Deque<T> = Deque(items: seq<T>, maxlen: Option<nat>, state: nat)

  datatype DequeError = IndexError | ValueError | RuntimeError | StopIteration

  /** The deque respects its bound. */
  predicate Bounded<T>(d: Deque<T>)
  {
    d.maxlen.Some? ==> |d.items| <= d.maxlen.value
  }

  /** The last `bound` elements of s (all of s without a bound). */
  function KeepLast<T>(s: seq<T>, bound: Option<nat>): (r: seq<T>)
    ensures bound.Some? ==> |r| <= bound.value
    ensures |r| <= |s| && r == s[|s| - |r|..]
    ensures bound.None? || |s| <= bound.value ==> r == s
    ensures bound.Some? && |s| > bound.value ==> |r| == bound.value
  {
    if bound.Some? && |s| > bound.value then s[|s| - bound.value..] else s
  }

  /** The first `bound` elements of s (all of s without a bound). */
  function KeepFirst<T>(s: seq<T>, bound: Option<nat>): (r: seq<T>)
    ensures bound.Some? ==> |r| <= bound.value
    ensures |r| <= |s| && r == s[..|r|]
    ensures bound.None? || |s| <= bound.value ==> r == s
    ensures bound.Some? && |s| > bound.value ==> |r| == bound.value
  {
    if bound.Some? && |s| > bound.value then s[..bound.value] else s
  }

  function Reversed<T>(s: seq<T>): (r: seq<T>)
    ensures |r| == |s|
    ensures forall i :: 0 <= i < |s| ==> r[i] == s[|s| - 1 - i]
  {
    if |s| == 0 then [] else Reversed(s[1..]) + [s[0]]
  }

  // ---------------------------------------------------------------- construction

  /** deque(iterable, maxlen): a negative maxlen is refused; a bounded deque keeps the last elements. */
  function New<T>(xs: seq<T>, maxlen: Option<int>): (r: Result<Deque<T>, DequeError>)
    ensures r.Err? <==> maxlen.Some? && maxlen.value < 0
    ensures r.Err? ==> r.error == ValueError
    ensures r.Ok? ==> Bounded(r.value) && r.value.maxlen == (if maxlen.Some? then Some(maxlen.value as nat) else None)
  {
    if maxlen.Some? && maxlen.value < 0 then Err(ValueError)
    else
      var bound: Option<nat> := if maxlen.Some? then Some(maxlen.value as nat) else None;
      ExtendKeepsBound(Deque([], bound, 0), xs);
      Ok(Extend(Deque([], bound, 0), xs))
  }

  /** A bounded deque built from xs holds the last maxlen elements of xs. */
  lemma NewItems<T>(xs: seq<T>, bound: nat)
    ensures New(xs, Some(bound)).Ok? && New(xs, Some(bound)).value.items == KeepLast(xs, Some(bound))
  {
    var d0: Deque<T> := Deque([], Some(bound), 0);
    assert New(xs, Some(bound)).value == Extend(d0, xs);
    ExtendItems(d0, xs);
    assert d0.items + xs == xs;
  }

  // ---------------------------------------------------------------- the two ends

  /** Adds at the right; a full deque drops its leftmost element. */
  function Append<T>(d: Deque<T>, x: T): (r: Deque<T>)
    ensures Bounded(r) && r.maxlen == d.maxlen && r.state > d.state
    ensures r.items == KeepLast(d.items + [x], d.maxlen)
  {
    Deque(KeepLast(d.items + [x], d.maxlen), d.maxlen, d.state + 1)
  }

  /** Adds at the left; a full deque drops its rightmost element. */
  function AppendLeft<T>(d: Deque<T>, x: T): (r: Deque<T>)
    ensures Bounded(r) && r.maxlen == d.maxlen && r.state > d.state
    ensures r.items == KeepFirst([x] + d.items, d.maxlen)
  {
    Deque(KeepFirst([x] + d.items, d.maxlen), d.maxlen, d.state + 1)
  }

  /** Removes and returns the rightmost element; an empty deque raises IndexError and stays as it is. */
  function Pop<T>(d: Deque<T>): (r: Result<(Deque<T>, T), DequeError>)
    ensures r.Err? <==> |d.items| == 0
    ensures r.Err? ==> r.error == IndexError
    ensures r.Ok? ==> r.value.0.items + [r.value.1] == d.items && r.value.0.maxlen == d.maxlen
    ensures r.Ok? ==> r.value.0.state > d.state
  {
    if |d.items| == 0 then Err(IndexError)
    else Ok((d.(items := d.items[..|d.items| - 1], state := d.state + 1), d.items[|d.items| - 1]))
  }

  /** Removes and returns the leftmost element; an empty deque raises IndexError and stays as it is. */
  function PopLeft<T>(d: Deque<T>): (r: Result<(Deque<T>, T), DequeError>)
    ensures r.Err? <==> |d.items| == 0
    ensures r.Err? ==> r.error == IndexError
    ensures r.Ok? ==> [r.value.1] + r.value.0.items == d.items && r.value.0.maxlen == d.maxlen
    ensures r.Ok? ==> r.value.0.state > d.state
  {
    if |d.items| == 0 then Err(IndexError)
    else Ok((d.(items := d.items[1..], state := d.state + 1), d.items[0]))
  }

  function Clear<T>(d: Deque<T>): (r: Deque<T>)
    ensures r.items == [] && r.maxlen == d.maxlen && Bounded(r) && r.state > d.state
  {
    d.(items := [], state := d.state + 1)
  }

  /** What is pushed at one end pops back from the same end, when nothing had to be dropped. */
  lemma PushPopInverse<T>(d: Deque<T>, x: T)
    requires d.maxlen.None? || |d.items| < d.maxlen.value
    ensures Pop(Append(d, x)).Ok? && Pop(Append(d, x)).value.1 == x && Pop(Append(d, x)).value.0.items == d.items
    ensures PopLeft(AppendLeft(d, x)).Ok? && PopLeft(AppendLeft(d, x)).value.1 == x && PopLeft(AppendLeft(d, x)).value.0.items == d.items
  {
    var a := Append(d, x);
    assert a.items == d.items + [x];
    assert a.items[..|a.items| - 1] == d.items;
    var b := AppendLeft(d, x);
    assert b.items == [x] + d.items;
    assert b.items[1..] == d.items;
  }

  /** Popping an element and pushing it back at the same end restores the contents. */
  lemma PopPushInverse<T>(d: Deque<T>)
    requires Bounded(d) && |d.items| > 0
    ensures var (e, x) := Pop(d).value; Append(e, x).items == d.items
    ensures var (e, x) := PopLeft(d).value; AppendLeft(e, x).items == d.items
  {
  }

  /** A full deque evicts at the opposite end. */
  lemma FullEvicts<T>(d: Deque<T>, x: T)
    requires d.maxlen.Some? && |d.items| == d.maxlen.value > 0
    ensures Append(d, x).items == d.items[1..] + [x]
    ensures AppendLeft(d, x).items == [x] + d.items[..|d.items| - 1]
  {
    assert (d.items + [x])[1..] == d.items[1..] + [x];
    assert ([x] + d.items)[..d.maxlen.value] == [x] + d.items[..|d.items| - 1];
  }

  /** A deque bounded by 0 stays empty whatever is added. */
  lemma ZeroStaysEmpty<T>(d: Deque<T>, x: T)
    requires d.maxlen == Some(0)
    ensures Append(d, x).items == [] && AppendLeft(d, x).items == []
  {
  }

  // ---------------------------------------------------------------- extending

  /** extend: append each element in turn; the argument is a value, so extending with itself reads a snapshot. */
  function Extend<T>(d: Deque<T>, xs: seq<T>): (r: Deque<T>)
    ensures r.maxlen == d.maxlen && r.state >= d.state
    decreases |xs|
  {
    if |xs| == 0 then d else Extend(Append(d, xs[0]), xs[1..])
  }

  /** extendleft: appendleft each element in turn, so they end up in reverse order. */
  function ExtendLeft<T>(d: Deque<T>, xs: seq<T>): (r: Deque<T>)
    ensures r.maxlen == d.maxlen && r.state >= d.state
    decreases |xs|
  {
    if |xs| == 0 then d else ExtendLeft(AppendLeft(d, xs[0]), xs[1..])
  }

  /** Keeping the last elements twice is keeping them once, even with one more added in between. */
  lemma KeepLastAppend<T>(s: seq<T>, x: T, bound: Option<nat>)
    ensures KeepLast(KeepLast(s, bound) + [x], bound) == KeepLast(s + [x], bound)
  {
    if bound.Some? && |s| > bound.value {
      var b := bound.value;
      var k := KeepLast(s, bound);
      assert k == s[|s| - b..];
      if b == 0 {
      } else {
        assert (k + [x])[1..] == (s + [x])[|s| + 1 - b..];
      }
    }
  }

  lemma KeepFirstPrepend<T>(s: seq<T>, x: T, bound: Option<nat>)
    ensures KeepFirst([x] + KeepFirst(s, bound), bound) == KeepFirst([x] + s, bound)
  {
    if bound.Some? && |s| > bound.value {
      var b := bound.value;
      assert ([x] + s[..b])[..b] == ([x] + s)[..b];
    }
  }

  lemma {:induction false} ExtendKeepsBound<T>(d: Deque<T>, xs: seq<T>)
    requires Bounded(d)
    ensures Bounded(Extend(d, xs))
    decreases |xs|
  {
    if |xs| > 0 {
      ExtendKeepsBound(Append(d, xs[0]), xs[1..]);
    }
  }

  /** Extending is appending the whole sequence and keeping the last maxlen elements. */
  lemma {:induction false} ExtendItems<T>(d: Deque<T>, xs: seq<T>)
    requires Bounded(d)
    ensures Extend(d, xs).items == KeepLast(d.items + xs, d.maxlen)
    decreases |xs|
  {
    if |xs| == 0 {
      assert d.items + xs == d.items;
    } else {
      var a := Append(d, xs[0]);
      ExtendItems(a, xs[1..]);
      KeepLastTail(d.items, xs, d.maxlen);
    }
  }

  lemma KeepLastTail<T>(s: seq<T>, xs: seq<T>, bound: Option<nat>)
    requires |xs| > 0
    ensures KeepLast(KeepLast(s + [xs[0]], bound) + xs[1..], bound) == KeepLast(s + xs, bound)
  {
    assert (s + [xs[0]]) + xs[1..] == s + xs;
    KeepLastConcat(s + [xs[0]], xs[1..], bound);
  }

  /** Trimming early and trimming late agree: only the last elements survive either way. */
  lemma KeepLastConcat<T>(s: seq<T>, t: seq<T>, bound: Option<nat>)
    ensures KeepLast(KeepLast(s, bound) + t, bound) == KeepLast(s + t, bound)
  {
    if bound.Some? && |s| > bound.value {
      var b := bound.value;
      var k := s[|s| - b..];
      var u := k + t;
      var w := s + t;
      assert |u| == b + |t| && |w| == |s| + |t|;
      if |u| > b {
        assert u[|u| - b..] == w[|w| - b..];
      } else {
        assert |t| == 0;
        assert u == k && w == s;
      }
    }
  }

  /** Extending on the left reverses the argument in front, keeping the first maxlen elements. */
  lemma {:induction false} ExtendLeftItems<T>(d: Deque<T>, xs: seq<T>)
    requires Bounded(d)
    ensures ExtendLeft(d, xs).items == KeepFirst(Reversed(xs) + d.items, d.maxlen)
    decreases |xs|
  {
    if |xs| == 0 {
      assert Reversed(xs) + d.items == d.items;
    } else {
      var a := AppendLeft(d, xs[0]);
      ExtendLeftItems(a, xs[1..]);
      var rest := Reversed(xs[1..]);
      assert Reversed(xs) == rest + [xs[0]];
      assert rest + ([xs[0]] + d.items) == Reversed(xs) + d.items;
      KeepFirstConcat(rest, [xs[0]] + d.items, d.maxlen);
    }
  }

  lemma KeepFirstConcat<T>(t: seq<T>, s: seq<T>, bound: Option<nat>)
    ensures KeepFirst(t + KeepFirst(s, bound), bound) == KeepFirst(t + s, bound)
  {
    if bound.Some? && |s| > bound.value {
      var b := bound.value;
      var u := t + s[..b];
      var w := t + s;
      if |u| > b {
        assert u[..b] == w[..b];
      } else {
        assert |t| == 0;
        assert u == s[..b] && w == s;
      }
    }
  }

  /** Extending an unbounded deque with its own contents doubles them; on the left it adds them reversed. */
  lemma ExtendWithItself<T>(d: Deque<T>)
    requires d.maxlen.None?
    ensures Extend(d, d.items).items == d.items + d.items
    ensures ExtendLeft(d, d.items).items == Reversed(d.items) + d.items
  {
    ExtendItems(d, d.items);
    ExtendLeftItems(d, d.items);
  }

  // ---------------------------------------------------------------- rotation and reversal

  /** The reference rotation: k steps to the right, taken modulo the length. */
  function Rotated<T>(s: seq<T>, k: int): (r: seq<T>)
    ensures |r| == |s|
  {
    if |s| == 0 then s
    else
      var j := k % |s|;
      s[|s| - j..] + s[..|s| - j]
  }

  /** a reduces to b modulo n when they differ by a multiple of n and b is a residue. */
  lemma ModShift(a: int, b: int, n: int, q: int)
    requires n > 0 && 0 <= b < n
    requires a == q * n + b
    ensures a % n == b
  {
    ModUnique(a, n, q, b);
  }

  /** Subtracting before or after reducing modulo n gives the same residue. */
  lemma ModSub(x: int, c: int, n: int)
    requires n > 0
    ensures (x % n - c) % n == (x - c) % n
  {
    var q := x / n;
    var y := x % n - c;
    var q2 := y / n;
    var r := y % n;
    assert x == q * n + x % n;
    assert y == q2 * n + r;
    assert (q + q2) * n == q * n + q2 * n;
    ModShift(x - c, r, n, q + q2);
  }

  /** Position p of the rotated sequence holds the element k places before it, cyclically. */
  lemma RotatedIndex<T>(s: seq<T>, k: int, p: int)
    requires 0 <= p < |s|
    ensures Rotated(s, k)[p] == s[(p - k) % |s|]
  {
    var n := |s|;
    var j := k % n;
    var q := k / n;
    assert k == q * n + j;
    if p < j {
      assert Rotated(s, k)[p] == s[n - j + p];
      assert (-q - 1) * n == -(q * n) - n;
      ModShift(p - k, n - j + p, n, -q - 1);
    } else {
      assert Rotated(s, k)[p] == s[p - j];
      assert (-q) * n == -(q * n);
      ModShift(p - k, p - j, n, -q);
    }
  }

  /** Two sequences of equal length agreeing at every position are equal. */
  lemma SameAt<T>(a: seq<T>, b: seq<T>)
    requires |a| == |b| && forall p :: 0 <= p < |a| ==> a[p] == b[p]
    ensures a == b
  {
  }

  /** Rotations compose by adding their counts. */
  lemma RotatedAdd<T>(s: seq<T>, a: int, b: int)
    ensures Rotated(Rotated(s, a), b) == Rotated(s, a + b)
  {
    var r := Rotated(Rotated(s, a), b);
    var t := Rotated(s, a + b);
    forall p | 0 <= p < |s|
      ensures r[p] == t[p]
    {
      RotatedAddAt(s, a, b, a + b, p);
    }
    SameAt(r, t);
  }

  lemma RotatedAddAt<T>(s: seq<T>, a: int, b: int, c: int, p: int)
    requires 0 <= p < |s| && c == a + b
    ensures Rotated(Rotated(s, a), b)[p] == Rotated(s, c)[p]
  {
    var n := |s|;
    var x := Rotated(s, a);
    var i1 := (p - b) % n;
    var i2 := (i1 - a) % n;
    var i3 := (p - c) % n;
    ModSub(p - b, a, n);
    assert i2 == i3;
    RotatedIndex(x, b, p);
    assert Rotated(x, b)[p] == x[i1];
    RotatedIndex(s, a, i1);
    assert x[i1] == s[i2];
    RotatedIndex(s, c, p);
  }

  /** Only the count modulo the length matters. */
  lemma RotatedMod<T>(s: seq<T>, k: int)
    requires |s| > 0
    ensures Rotated(s, k) == Rotated(s, k % |s|) == Rotated(s, k % |s| - |s|)
  {
    var n := |s|;
    ModShift(k % n, k % n, n, 0);
    ModShift(k % n - n, k % n, n, -1);
  }

  /** One step right moves the last element to the front; one step left moves the first to the back. */
  lemma RotatedStep<T>(s: seq<T>)
    requires |s| > 0
    ensures Rotated(s, 1) == [s[|s| - 1]] + s[..|s| - 1]
    ensures Rotated(s, -1) == s[1..] + [s[0]]
  {
    var n := |s|;
    if n == 1 {
      ModShift(1, 0, 1, 1);
      ModShift(-1, 0, 1, -1);
      assert Rotated(s, 1) == s[1..] + s[..1];
      assert Rotated(s, -1) == s[1..] + s[..1];
    } else {
      ModShift(1, 1, n, 0);
      ModShift(-1, n - 1, n, -1);
    }
  }

  /** rotate(k) then rotate(-k) is the identity. */
  lemma RotateInverse<T>(s: seq<T>, k: int)
    ensures Rotated(Rotated(s, k), -k) == s
  {
    RotatedAdd(s, k, -k);
    RotatedZero(s);
  }

  /** rotate: the deque with its contents rotated k steps to the right. */
  function Rotate<T>(d: Deque<T>, k: int): (r: Deque<T>)
    ensures r.maxlen == d.maxlen && multiset(r.items) == multiset(d.items)
    ensures |r.items| == |d.items| && forall p :: 0 <= p < |r.items| ==> r.items[p] == d.items[(p - k) % |d.items|]
    ensures r.items == Rotated(d.items, k) && r.state > d.state
  {
    var r := Rotated(d.items, k);
    assert |d.items| > 0 ==> d.items == d.items[..|d.items| - k % |d.items|] + d.items[|d.items| - k % |d.items|..];
    RotatedIndexAll(d.items, k);
    d.(items := r, state := d.state + 1)
  }

  /** Every position of the rotated sequence holds the element k places before it, cyclically. */
  lemma RotatedIndexAll<T>(s: seq<T>, k: int)
    ensures forall p :: 0 <= p < |s| ==> Rotated(s, k)[p] == s[(p - k) % |s|]
  {
    forall p | 0 <= p < |s|
      ensures Rotated(s, k)[p] == s[(p - k) % |s|]
    {
      RotatedIndex(s, k, p);
    }
  }

  /** One pop and appendleft of a deque holding a rotation of s rotates s one step further right. */
  lemma RightStep<T>(s: seq<T>, i: int, r: Deque<T>, e: Deque<T>, x: T)
    requires Bounded(r) && r.items == Rotated(s, i) && Pop(r) == Ok((e, x))
    ensures AppendLeft(e, x).items == Rotated(s, i + 1) && AppendLeft(e, x).maxlen == r.maxlen
  {
    var n := |r.items|;
    assert e.items == r.items[..n - 1] && x == r.items[n - 1];
    assert KeepFirst([x] + e.items, e.maxlen) == [x] + e.items;
    RotateOneRight(s, i, r.items);
  }

  /** One popleft and append of a deque holding a rotation of s rotates s one step further left. */
  lemma LeftStep<T>(s: seq<T>, i: int, r: Deque<T>, e: Deque<T>, x: T)
    requires Bounded(r) && r.items == Rotated(s, i) && PopLeft(r) == Ok((e, x))
    ensures Append(e, x).items == Rotated(s, i - 1) && Append(e, x).maxlen == r.maxlen
  {
    assert e.items == r.items[1..] && x == r.items[0];
    assert KeepLast(e.items + [x], e.maxlen) == e.items + [x];
    RotateOneLeft(s, i, r.items);
  }

  /** Moving the last element of a rotation of s to the front rotates s one step further right. */
  lemma RotateOneRight<T>(s: seq<T>, i: int, t: seq<T>)
    requires |t| > 0 && t == Rotated(s, i)
    ensures [t[|t| - 1]] + t[..|t| - 1] == Rotated(s, i + 1)
  {
    RotatedStep(t);
    RotatedAdd(s, i, 1);
  }

  /** Moving the first element of a rotation of s to the back rotates s one step further left. */
  lemma RotateOneLeft<T>(s: seq<T>, i: int, t: seq<T>)
    requires |t| > 0 && t == Rotated(s, i)
    ensures t[1..] + [t[0]] == Rotated(s, i - 1)
  {
    RotatedStep(t);
    RotatedAdd(s, i, -1);
  }

  /** The count rotate reduces k to names the same rotation and is at most half the length either way. */
  lemma ReducedCount<T>(s: seq<T>, k: int, n: int)
    requires |s| > 0
    requires var h := (|s| + 1) / 2;
      n == if k > h || k < -h then (if k % |s| > h then k % |s| - |s| else k % |s|) else k
    ensures Rotated(s, n) == Rotated(s, k)
    ensures -((|s| + 1) / 2) <= n <= (|s| + 1) / 2
  {
    RotatedMod(s, k);
  }

  /**
   * rotate as the deque performs it: a count beyond half the length is
   * reduced modulo the length (and to the shorter direction), then single
   * steps move the last element to the front or the first to the back.
   * The result is the reference rotation, in at most half the length of steps.
   */
  method RotateSteps<T>(d: Deque<T>, k: int) returns (r: Deque<T>, steps: nat)
    requires Bounded(d)
    ensures r.items == Rotated(d.items, k) && r.maxlen == d.maxlen
    ensures steps <= (|d.items| + 1) / 2
  {
    r := d;
    steps := 0;
    var len := |d.items|;
    if len == 0 {
      return;
    }
    var halflen := (len + 1) / 2;
    var n := k;
    if n > halflen || n < -halflen {
      n := n % len;
      if n > halflen {
        n := n - len;
      }
    }
    ReducedCount(d.items, k, n);
    if n >= 0 {
      r := StepsRight(d, n);
      steps := n;
    } else {
      r := StepsLeft(d, -n);
      steps := -n;
    }
  }

  /** Rotating by no steps leaves the contents as they are. */
  lemma RotatedZero<T>(s: seq<T>)
    ensures Rotated(s, 0) == s
  {
    if |s| > 0 {
      ModShift(0, 0, |s|, 0);
      assert Rotated(s, 0) == s[|s|..] + s[..|s|];
    }
  }

  /** n single steps to the right, each a pop and an appendleft. */
  method StepsRight<T>(d: Deque<T>, n: nat) returns (r: Deque<T>)
    requires Bounded(d) && |d.items| > 0
    ensures r.items == Rotated(d.items, n) && r.maxlen == d.maxlen
  {
    r := d;
    RotatedZero(d.items);
    var i := 0;
    while i < n
      invariant i <= n
      invariant r.items == Rotated(d.items, i) && r.maxlen == d.maxlen && Bounded(r)
    {
      var p := Pop(r);
      RightStep(d.items, i, r, p.value.0, p.value.1);
      r := AppendLeft(p.value.0, p.value.1);
      i := i + 1;
    }
  }

  /** n single steps to the left, each a popleft and an append. */
  method StepsLeft<T>(d: Deque<T>, n: nat) returns (r: Deque<T>)
    requires Bounded(d) && |d.items| > 0
    ensures r.items == Rotated(d.items, -(n as int)) && r.maxlen == d.maxlen
  {
    r := d;
    RotatedZero(d.items);
    var j := 0;
    while j > -(n as int)
      invariant -(n as int) <= j <= 0
      invariant r.items == Rotated(d.items, j) && r.maxlen == d.maxlen && Bounded(r)
    {
      var p := PopLeft(r);
      LeftStep(d.items, j, r, p.value.0, p.value.1);
      r := Append(p.value.0, p.value.1);
      j := j - 1;
    }
  }

  /** reverse: the contents back to front. */
  function Reverse<T>(d: Deque<T>): (r: Deque<T>)
    ensures r.maxlen == d.maxlen && |r.items| == |d.items|
    ensures forall i :: 0 <= i < |d.items| ==> r.items[i] == d.items[|d.items| - 1 - i]
  {
    d.(items := Reversed(d.items))
  }

  /** Reversing twice gives the contents back. */
  lemma ReverseInvolution<T>(d: Deque<T>)
    ensures Reverse(Reverse(d)).items == d.items
  {
    SameAt(Reverse(Reverse(d)).items, d.items);
  }

  // ---------------------------------------------------------------- indexing

  /** The position a Python index names in a sequence of length n, if it is in range. */
  function Position(j: int, n: nat): (p: Option<nat>)
    ensures p.Some? <==> -(n as int) <= j < n
    ensures p.Some? ==> p.value < n && (p.value == j || p.value == j + n)
  {
    if 0 <= j < n then Some(j) else if -(n as int) <= j < 0 then Some((j + n) as nat) else None
  }

  function GetItem<T>(d: Deque<T>, j: int): (r: Result<T, DequeError>)
    ensures r.Err? <==> Position(j, |d.items|).None?
    ensures r.Err? ==> r.error == IndexError
    ensures r.Ok? ==> r.value == d.items[Position(j, |d.items|).value]
  {
    var p := Position(j, |d.items|);
    if p.None? then Err(IndexError) else Ok(d.items[p.value])
  }

  /** d[j] = x: only the addressed position changes. */
  function SetItem<T>(d: Deque<T>, j: int, x: T): (r: Result<Deque<T>, DequeError>)
    ensures r.Err? <==> Position(j, |d.items|).None?
    ensures r.Ok? ==> |r.value.items| == |d.items| && r.value.maxlen == d.maxlen
    ensures r.Ok? ==> forall i :: 0 <= i < |d.items| ==>
      r.value.items[i] == if i == Position(j, |d.items|).value then x else d.items[i]
  {
    var p := Position(j, |d.items|);
    if p.None? then Err(IndexError) else Ok(d.(items := d.items[p.value := x]))
  }

  /** del d[j]: the addressed element goes, the others keep their order. */
  function DelItem<T>(d: Deque<T>, j: int): (r: Result<Deque<T>, DequeError>)
    ensures r.Err? <==> Position(j, |d.items|).None?
    ensures r.Ok? ==> var p := Position(j, |d.items|).value;
      r.value.items == d.items[..p] + d.items[p + 1..] && r.value.maxlen == d.maxlen
  {
    var p := Position(j, |d.items|);
    if p.None? then Err(IndexError) else Ok(d.(items := d.items[..p.value] + d.items[p.value + 1..], state := d.state + 1))
  }

  /** Reading back a position just written gives the written value; indices -n..-1 name the same slots as n-n..n-1. */
  lemma IndexingAgrees<T>(d: Deque<T>, j: int, x: T)
    requires -|d.items| <= j < 0
    ensures GetItem(d, j) == GetItem(d, j + |d.items|)
    ensures GetItem(SetItem(d, j, x).value, j) == Ok(x)
  {
  }

  // ---------------------------------------------------------------- search

  /** The index of the first element equal to x. */
  function FirstIndex<T(==)>(s: seq<T>, x: T): (i: nat)
    requires x in s
    ensures i < |s| && s[i] == x && forall k :: 0 <= k < i ==> s[k] != x
  {
    if s[0] == x then 0 else 1 + FirstIndex(s[1..], x)
  }

  /** remove(x): deletes the first equal element; without one, ValueError and no change. */
  function Remove<T(==)>(d: Deque<T>, x: T): (r: Result<Deque<T>, DequeError>)
    ensures r.Err? <==> x !in d.items
    ensures r.Err? ==> r.error == ValueError
    ensures r.Ok? ==> var i := FirstIndex(d.items, x);
      r.value.items == d.items[..i] + d.items[i + 1..] && r.value.maxlen == d.maxlen
  {
    if x !in d.items then Err(ValueError)
    else
      var i := FirstIndex(d.items, x);
      Ok(d.(items := d.items[..i] + d.items[i + 1..], state := d.state + 1))
  }

  /** remove takes away exactly one x and nothing else. */
  lemma RemoveOne<T>(d: Deque<T>, x: T)
    requires x in d.items
    ensures multiset(Remove(d, x).value.items) == multiset(d.items) - multiset{x}
  {
    var i := FirstIndex(d.items, x);
    assert d.items == d.items[..i] + [x] + d.items[i + 1..];
  }

  /** count(x): the number of equal elements. */
  function Count<T(==)>(s: seq<T>, x: T): (n: nat)
    ensures n == multiset(s)[x]
  {
    if |s| == 0 then 0
    else
      assert s == [s[0]] + s[1..];
      (if s[0] == x then 1 else 0) + Count(s[1..], x)
  }

  /** Deques compare equal exactly when their contents do; the bound does not take part. */
  predicate Equal<T(==)>(d: Deque<T>, e: Deque<T>)
  {
    d.items == e.items
  }

  // ---------------------------------------------------------------- iteration

  /** An iterator: the mutation count it was created under and the next position. */
  datatype Iter = Iter(state: nat, index: nat)

  function IterOf<T>(d: Deque<T>): Iter
  {
    Iter(d.state, 0)
  }

  /** next(): a deque changed since the iterator was made raises RuntimeError. */
  function Next<T>(d: Deque<T>, it: Iter): (r: Result<(Iter, T), DequeError>)
    ensures r.Ok? ==> it.state == d.state && it.index < |d.items| && r.value == (it.(index := it.index + 1), d.items[it.index])
    ensures r == Err(RuntimeError) <==> it.state != d.state
  {
    if it.state != d.state then Err(RuntimeError)
    else if it.index >= |d.items| then Err(StopIteration)
    else Ok((it.(index := it.index + 1), d.items[it.index]))
  }

  /** Everything next() yields from a position on, until StopIteration or an error. */
  function Drain<T>(d: Deque<T>, it: Iter): seq<T>
    decreases |d.items| - it.index
  {
    match Next(d, it)
    case Ok((it', x)) => [x] + Drain(d, it')
    case Err(_) => []
  }

  /** An iterator over an unchanged deque yields its contents in order. */
  lemma {:induction false} DrainYieldsItems<T>(d: Deque<T>, i: nat)
    requires i <= |d.items|
    ensures Drain(d, Iter(d.state, i)) == d.items[i..]
    decreases |d.items| - i
  {
    if i < |d.items| {
      DrainYieldsItems(d, i + 1);
      assert d.items[i..] == [d.items[i]] + d.items[i + 1..];
    }
  }

  /** Any change that adds or removes an element makes a live iterator fail. */
  lemma MutationInvalidates<T>(d: Deque<T>, x: T)
    ensures Next(Append(d, x), IterOf(d)) == Err(RuntimeError)
    ensures Next(AppendLeft(d, x), IterOf(d)) == Err(RuntimeError)
    ensures Pop(d).Ok? ==> Next(Pop(d).value.0, IterOf(d)) == Err(RuntimeError)
    ensures PopLeft(d).Ok? ==> Next(PopLeft(d).value.0, IterOf(d)) == Err(RuntimeError)
    ensures Pop(d).Ok? ==> Next(Append(Pop(d).value.0, Pop(d).value.1), IterOf(d)) == Err(RuntimeError)
  {
  }

  // ---------------------------------------------------------------- examples

  /** deque(range(10), maxlen=3) keeps 7, 8, 9; a negative bound is refused. */
  lemma MaxlenBuildExample(xs: seq<int>)
    requires xs == [0, 1, 2, 3, 4, 5, 6, 7, 8, 9]
    ensures New(xs, Some(3)).Ok? && New(xs, Some(3)).value.items == [7, 8, 9]
    ensures New(xs, Some(-1)) == Err(ValueError)
  {
    NewItems(xs, 3);
    LastThree(xs);
  }

  lemma LastThree(xs: seq<int>)
    requires xs == [0, 1, 2, 3, 4, 5, 6, 7, 8, 9]
    ensures KeepLast(xs, Some(3)) == [7, 8, 9]
  {
    assert xs[7..] == [7, 8, 9];
  }

  /** Then appendleft(3) drops 9. */
  lemma MaxlenAppendLeftExample(d: Deque<int>)
    requires d.items == [7, 8, 9] && d.maxlen == Some(3)
    ensures AppendLeft(d, 3).items == [3, 7, 8]
  {
  }

  /** Then extend([20, 21]) drops 3 and 7. */
  lemma MaxlenExtendExample(d: Deque<int>, ys: seq<int>)
    requires d.items == [3, 7, 8] && d.maxlen == Some(3) && ys == [20, 21]
    ensures Extend(d, ys).items == [8, 20, 21]
  {
    ExtendItems(d, ys);
    assert d.items + ys == [3, 7, 8, 20, 21];
  }

  /** Then extendleft([-7, -6]) puts -6 first and drops 20 and 21. */
  lemma MaxlenExtendLeftExample(d: Deque<int>, zs: seq<int>)
    requires d.items == [8, 20, 21] && d.maxlen == Some(3) && zs == [-7, -6]
    ensures ExtendLeft(d, zs).items == [-6, -7, 8]
  {
    ExtendLeftItems(d, zs);
    assert Reversed(zs) == [-6, -7] by {
      assert zs[1..] == [-6];
      assert Reversed(zs[1..]) == Reversed(zs[1..][1..]) + [-6];
    }
    assert Reversed(zs) + d.items == [-6, -7, 8, 20, 21];
  }

  lemma RotateExample()
    ensures Rotated("abcde", 1) == "eabcd"
    ensures Rotated("abcde", -1) == "bcdea"
    ensures Rotated(Rotated("abcde", -1), 1) == "abcde"
    ensures Rotated("abcde", 500000002) == "deabc"
    ensures Rotated("deabc", -5000002) == "abcde"
  {
    assert Rotated("abcde", 1) == "abcde"[4..] + "abcde"[..4];
    assert Rotated("abcde", -1) == "abcde"[1..] + "abcde"[..1];
    assert Rotated("bcdea", 1) == "bcdea"[4..] + "bcdea"[..4];
    assert Rotated("abcde", 500000002) == "abcde"[3..] + "abcde"[..3];
    assert Rotated("deabc", -5000002) == "deabc"[2..] + "deabc"[..2];
  }

  /** remove('c') on "abcdefghcij" takes the first 'c' only. */
  lemma RemoveFirstExample(d: Deque<char>)
    requires d.items == "abcdefghcij"
    ensures Remove(d, 'c').Ok? && Remove(d, 'c').value.items == "abdefghcij"
  {
    assert d.items[2] == 'c';
    assert FirstIndex(d.items, 'c') == 2 by {
      FirstIndexIs(d.items, 'c', 2);
    }
    assert d.items[..2] + d.items[3..] == "abdefghcij";
  }

  /** A second remove('c') takes the other one. */
  lemma RemoveSecondExample(d: Deque<char>)
    requires d.items == "abdefghcij"
    ensures Remove(d, 'c').Ok? && Remove(d, 'c').value.items == "abdefghij"
  {
    assert d.items[7] == 'c';
    assert FirstIndex(d.items, 'c') == 7 by {
      FirstIndexIs(d.items, 'c', 7);
    }
    assert d.items[..7] + d.items[8..] == "abdefghij";
  }

  /** With no 'c' left, remove('c') raises ValueError. */
  lemma RemoveAbsentExample(d: Deque<char>)
    requires d.items == "abdefghij"
    ensures Remove(d, 'c') == Err(ValueError)
  {
  }

  /** The first index is the one where x occurs with no earlier occurrence. */
  lemma FirstIndexIs<T>(s: seq<T>, x: T, i: nat)
    requires i < |s| && s[i] == x && forall k :: 0 <= k < i ==> s[k] != x
    ensures FirstIndex(s, x) == i
  {
  }

  /** extend('bcd') on deque('a'). */
  lemma ExtendExample(d: Deque<char>, xs: seq<char>)
    requires d.items == "a" && d.maxlen.None? && xs == "bcd"
    ensures Extend(d, xs).items == "abcd" && Extend(d, xs).maxlen.None?
  {
    ExtendUnbounded(d, xs);
    assert d.items + xs == "abcd";
  }

  /** Without a bound, extend appends every element. */
  lemma ExtendUnbounded<T>(d: Deque<T>, xs: seq<T>)
    requires d.maxlen.None?
    ensures Extend(d, xs).items == d.items + xs && Extend(d, xs).maxlen.None?
  {
    ExtendItems(d, xs);
  }

  /** Extending deque('abcd') with itself gives 'abcdabcd'. */
  lemma ExtendSelfExample(e: Deque<char>)
    requires e.items == "abcd" && e.maxlen.None?
    ensures Extend(e, e.items).items == "abcdabcd"
  {
    ExtendWithItself(e);
    assert e.items + e.items == "abcdabcd";
  }

  /** extendleft('bcd') on deque('a'), then extending on the left with itself. */
  lemma ExtendLeftExample(d: Deque<char>, xs: seq<char>)
    requires d.items == "a" && d.maxlen.None? && xs == "bcd"
    ensures ExtendLeft(d, xs).items == "dcba"
    ensures var e := ExtendLeft(d, xs); ExtendLeft(e, e.items).items == "abcddcba"
  {
    ExtendLeftItems(d, xs);
    ReversedExample(xs, "dcb");
    assert Reversed(xs) + d.items == "dcba";
    var e := ExtendLeft(d, xs);
    ExtendWithItself(e);
    ReversedExample(e.items, "abcd");
  }

  lemma ReversedExample(xs: seq<char>, ys: seq<char>)
    requires (xs == "bcd" && ys == "dcb") || (xs == "dcba" && ys == "abcd")
    ensures Reversed(xs) == ys
  {
    SameAt(Reversed(xs), ys);
  }

  lemma DelItemExample()
    ensures DelItem(Deque("abcdef", None, 0), -2).Ok?
    ensures DelItem(Deque("abcdef", None, 0), -2).value.items == "abcdf"
  {
  }

  lemma LenExample()
    ensures var d := Deque("ab", None, 0);
      PopLeft(d).Ok? && Pop(PopLeft(d).value.0).Ok? &&
      var e := Pop(PopLeft(d).value.0).value.0;
      e.items == [] && Pop(e) == Err(IndexError) && PopLeft(e) == Err(IndexError)
  {
  }
}
