// The prime powers p^(2^k) of sequence A050376, kept in order in a binary
// min-heap with a sentinel at index 0, a sieve of Eratosthenes over a bit
// vector, and the accumulator of the products of the first terms popped.

module PrimeHeap {
  import opened Numerals
  import opened Words

  // ---------------------------------------------------------------------------
  // `succsq`.

  /** `k` squarings of `n` in `uint64_t`, each product cut to 64 bits. */
  function Squared(n: nat, k: int): nat
    decreases if k < 0 then 0 else k
  {
    if k <= 0 then n else Squared((n * n) % Two64, k - 1)
  }

  /** `succsq(n, k)`: square `n`, `k` times. */
  method Succsq(n0: nat, k0: int) returns (n: nat)
    ensures n == Squared(n0, k0)
  {
    n := n0;
    var k := k0;
    while k > 0
      invariant Squared(n, k) == Squared(n0, k0)
    {
      n := (n * n) % Two64;
      k := k - 1;
    }
  }

  lemma {:induction false} PowSquare(b: nat, e: nat)
    ensures Pow(b * b, e) == Pow(b, 2 * e)
    decreases e
  {
    if e > 0 {
      PowSquare(b, e - 1);
      calc {
        Pow(b * b, e);
        b * b * Pow(b, 2 * e - 2);
        b * (b * Pow(b, 2 * e - 2));
        b * Pow(b, 2 * e - 1);
        Pow(b, 2 * e);
      }
    }
  }

  lemma {:induction false} PowAtLeast(b: nat, e: nat)
    requires b >= 1 && e >= 1
    ensures Pow(b, e) >= b
    decreases e
  {
    if e > 1 {
      PowAtLeast(b, e - 1);
    }
  }

  /** Without wrap-around `succsq(n, k)` is `n` to the power `2^k`. */
  lemma {:induction false} SquaredIsPower(n: nat, k: nat)
    requires Pow(n, Pow2(k)) < Two64
    ensures Squared(n, k) == Pow(n, Pow2(k))
    decreases k
  {
    if k > 0 {
      var m := n * n;
      var e := Pow2(k - 1);
      assert Pow2(k) == 2 * e;
      PowSquare(n, e);
      assert Pow(m, e) == Pow(n, Pow2(k));
      if n >= 1 {
        PowAtLeast(m, e);
      }
      assert m < Two64;
      assert Squared(n, k) == Squared(m, k - 1);
      SquaredIsPower(m, k - 1);
    }
  }

  // ---------------------------------------------------------------------------
  // `Prime_power` and its `operator<`.

  /** A prime, an exponent `2^k`, and the value `prime^(2^k)` in 64 bits. */
  datatype PrimePower = PrimePower(prime: nat, exponent: int, value: nat)

  /** `Prime_power()`. */
  const DefaultPower := PrimePower(1, 0, 1)

  /** `Prime_power(p, k)`; `1 << k` on an `int` needs `k <= 30`. */
  method NewPrimePower(p: nat, k: nat) returns (pp: PrimePower)
    requires k <= 30
    ensures pp.prime == p && pp.exponent == Pow2(k)
    ensures pp.value == Squared(p, k)
    ensures Pow(p, Pow2(k)) < Two64 ==> pp.value == Pow(p, pp.exponent)
  {
    var v := Succsq(p, k);
    if Pow(p, Pow2(k)) < Two64 {
      SquaredIsPower(p, k);
    }
    pp := PrimePower(p, Pow2(k), v);
  }

  /** `operator<`: by value only. */
  predicate Less(a: PrimePower, b: PrimePower)
  {
    a.value < b.value
  }

  /** `Prime_power(1, 0)`: the value 1 at index 0, which stops the sift-up. */
  const Sentinel := PrimePower(1, 1, 1)

  // ---------------------------------------------------------------------------
  // `Prime_heap`.

  /** Heap order on `a[1..n]`, except at the hole `h`: no pair whose child is
      `h` is constrained. */
  predicate OrderedBut(a: seq<PrimePower>, n: nat, h: nat)
    requires n < |a|
  {
    forall i :: 2 <= i <= n && i != h ==> ParentBelow(a, i)
  }

  /** The element at `i` is no less than its parent at `i / 2`. */
  predicate ParentBelow(a: seq<PrimePower>, i: nat)
  {
    i < |a| ==> a[i / 2].value <= a[i].value
  }

  /** Every element `a[1..n]` is at least 1. */
  predicate Positive(a: seq<PrimePower>, n: nat)
    requires n < |a|
  {
    forall i :: 1 <= i <= n ==> a[i].value >= 1
  }

  predicate Ordered(a: seq<PrimePower>, n: nat)
    requires n < |a|
  {
    OrderedBut(a, n, 0)
  }

  /** A parent precedes all its descendants, so the root is the least. */
  lemma {:induction false} RootIsLeast(a: seq<PrimePower>, n: nat, i: nat)
    requires n < |a| && Ordered(a, n) && 1 <= i <= n
    ensures a[1].value <= a[i].value
    decreases i
  {
    if i > 1 {
      assert ParentBelow(a, i);
      RootIsLeast(a, n, i / 2);
    }
  }

  /** Exchanging two elements keeps the contents. */
  lemma SwapInRange(a: seq<PrimePower>, n: nat, i: nat, j: nat)
    requires 1 <= i <= n && 1 <= j <= n && n < |a|
    ensures multiset(a[i := a[j]][j := a[i]][1..n + 1]) == multiset(a[1..n + 1])
  {
    var t := a[1..n + 1];
    assert a[i := a[j]][j := a[i]][1..n + 1] == t[i - 1 := t[j - 1]][j - 1 := t[i - 1]];
  }

  /** Copying the element at `j` into the hole at `k` moves the hole to `j`
      and keeps the contents with `p` in the hole. */
  lemma MoveHole(a: seq<PrimePower>, n: nat, k: nat, j: nat, p: PrimePower)
    requires 1 <= k <= n && 1 <= j <= n && n < |a|
    ensures multiset(a[k := a[j]][j := p][1..n + 1]) == multiset(a[k := p][1..n + 1])
  {
    var b := a[k := p];
    SwapInRange(b, n, k, j);
    assert a[k := a[j]][j := p] == b[k := b[j]][j := b[k]];
  }

  /** The state of the sift-up with the hole at `k`: heap order except
      where `k` is the child, the hole's parent no greater than the hole's
      children, and `p` below what the hole holds once the hole has moved. */
  predicate Rising(a: seq<PrimePower>, n: nat, k: nat, p: PrimePower)
  {
    1 <= k <= n < |a| && a[0] == Sentinel &&
    (forall i :: 1 <= i <= n && i != k ==> a[i].value >= 1) &&
    OrderedBut(a, n, k) &&
    (k >= 2 ==> forall c :: 2 * k <= c <= 2 * k + 1 && c <= n ==> a[k / 2].value <= a[c].value) &&
    (k < n ==> p.value < a[k].value)
  }

  /** Moving the hole up past a greater parent. */
  lemma RisingStep(a: seq<PrimePower>, n: nat, k: nat, p: PrimePower)
    requires Rising(a, n, k, p) && p.value >= 1 && p.value < a[k / 2].value
    ensures k >= 2 && Rising(a[k := a[k / 2]], n, k / 2, p)
  {
    var b := a[k := a[k / 2]];
    var h := k / 2;
    forall i | 2 <= i <= n && i != h
      ensures ParentBelow(b, i)
    {
      if i / 2 == k {
        assert 2 * k <= i <= 2 * k + 1;
      } else if i != k {
        assert ParentBelow(a, i);
      }
    }
    if h >= 2 {
      forall c | 2 * h <= c <= 2 * h + 1 && c <= n
        ensures b[h / 2].value <= b[c].value
      {
        assert ParentBelow(a, h);
        if c != k {
          assert c / 2 == h && ParentBelow(a, c);
        }
      }
    }
  }

  /** Putting `p` into the hole once its parent is no greater. */
  lemma RisingEnd(a: seq<PrimePower>, n: nat, k: nat, p: PrimePower)
    requires Rising(a, n, k, p) && p.value >= 1 && a[k / 2].value <= p.value
    ensures Ordered(a[k := p], n) && Positive(a[k := p], n)
  {
    var b := a[k := p];
    forall i | 2 <= i <= n
      ensures ParentBelow(b, i)
    {
      if i == k {
        assert b[i / 2] == a[k / 2];
      } else if i / 2 == k {
        assert 2 * k <= i <= 2 * k + 1 && k < n;
        assert ParentBelow(a, i);
        assert b[i / 2] == p && b[i] == a[i];
      } else {
        assert ParentBelow(a, i);
        assert b[i / 2] == a[i / 2] && b[i] == a[i];
      }
    }
  }

  /** A new slot after the last element, taken as the hole: the sift-up's
      starting state. */
  lemma RisingStart(a: seq<PrimePower>, n: nat, p: PrimePower)
    requires n < |a| && a[0] == Sentinel && Positive(a, n) && Ordered(a, n)
    ensures Rising(a + [Sentinel], n + 1, n + 1, p)
    ensures (a + [Sentinel])[n + 1 := p][1..n + 2] == a[1..n + 1] + [p]
    ensures (a + [Sentinel])[(n + 1) / 2] == a[(n + 1) / 2]
  {
    var b := a + [Sentinel];
    forall i | 2 <= i <= n
      ensures ParentBelow(b, i)
    {
      assert ParentBelow(a, i);
    }
  }

  class Heap {
    var heap: seq<PrimePower>
    var heapsize: nat

    /** The elements, at indices `1..heapsize`. */
    function Elements(): seq<PrimePower>
      reads this
      requires heapsize < |heap|
    {
      heap[1..heapsize + 1]
    }

    /** The vector keeps a slot for every element and the sentinel; the
        sentinel is never overwritten and is no greater than any element; the
        elements are in heap order. */
    predicate Valid()
      reads this
    {
      heapsize < |heap| && heap[0] == Sentinel &&
      Positive(heap, heapsize) && Ordered(heap, heapsize)
    }

    constructor ()
      ensures Valid() && heap == [Sentinel] && heapsize == 0
    {
      heap := [Sentinel];
      heapsize := 0;
    }

    /** `empty`. */
    function Empty(): (b: bool)
      reads this
      requires heapsize < |heap|
      ensures b <==> Elements() == []
    {
      heapsize == 0
    }

    /** `insert`: a hole at a new last slot moves up past every greater
        parent, then takes `p`. A value below 1 would pass the sentinel and
        loop at index 0 for ever. */
    method Insert(p: PrimePower)
      requires Valid() && p.value >= 1
      modifies this
      ensures Valid() && heapsize == old(heapsize) + 1 && |heap| == old(|heap|) + 1
      ensures multiset(Elements()) == multiset(old(Elements())) + multiset{p}
      ensures old(heap[(heapsize + 1) / 2].value) <= p.value ==> Elements() == old(Elements()) + [p]
    {
      ghost var e0 := Elements();
      var a := heap + [Sentinel];
      var n := heapsize + 1;
      RisingStart(heap, heapsize, p);
      assert a[n := p][1..n + 1] == e0 + [p];
      a := SiftUp(a, n, p);
      heap, heapsize := a, n;
      assert Elements() == a[1..n + 1];
    }

    /** `pop`, corrected: the least element leaves from the root, and the
        last element sinks from the root into the hole below. */
    method Pop() returns (top: PrimePower)
      requires Valid() && heapsize >= 1
      modifies this
      ensures Valid() && heapsize == old(heapsize) - 1 && |heap| == old(|heap|)
      ensures top == old(heap[1]) && forall e :: e in old(Elements()) ==> top.value <= e.value
      ensures multiset(Elements()) + multiset{top} == multiset(old(Elements()))
    {
      top := heap[1];
      var temp := heap[heapsize];
      SinkingStart(heap, heapsize);
      heapsize := heapsize - 1;
      heap := SiftDown(heap, heapsize, temp);
    }

    /** `pop` as written: in the one-child case the hole takes the child
        and the child's slot keeps its old value, so `temp` is dropped. */
    method PopAsWritten() returns (top: PrimePower)
      requires Valid() && heapsize >= 1
      modifies this
      ensures top == old(heap[1]) && heapsize == old(heapsize) - 1
      ensures heap == SiftDownAsWritten(old(heap), heapsize, 1, old(heap[heapsize]))
      ensures Valid() && |heap| == old(|heap|)
      ensures forall e :: e in old(Elements()) ==> top.value <= e.value
      ensures !DropsTemp(old(heap), heapsize, 1, old(heap[heapsize])) ==>
        multiset(Elements()) + multiset{top} == multiset(old(Elements()))
      ensures DropsTemp(old(heap), heapsize, 1, old(heap[heapsize])) ==>
        multiset(Elements()) + multiset{top, old(heap[heapsize])} == multiset(old(Elements())) + multiset{old(heap[heapsize - 1])}
    {
      ghost var a, m := heap, heapsize;
      PopAsWrittenKeeps(a, m);
      top := heap[1];
      var temp := heap[heapsize];
      var r := SinkAsWritten(heap, heapsize - 1, temp);
      assert Elements() == a[1..m + 1];
      heap, heapsize := r, heapsize - 1;
      assert Elements() == r[1..m];
    }
  }

  /** The loop of `insert` and the store after it: with `a0[n]` the hole,
      move it up past every parent greater than `p`, then put `p` there. */
  method SiftUp(a0: seq<PrimePower>, n: nat, p: PrimePower) returns (a: seq<PrimePower>)
    requires Rising(a0, n, n, p) && p.value >= 1
    ensures |a| == |a0| && a[0] == Sentinel && Ordered(a, n) && Positive(a, n)
    ensures multiset(a[1..n + 1]) == multiset(a0[n := p][1..n + 1])
    ensures a0[n / 2].value <= p.value ==> a == a0[n := p]
  {
    a := a0;
    var k: nat := n;
    while Less(p, a[k / 2])
      invariant Rising(a, n, k, p) && |a| == |a0|
      invariant multiset(a[k := p][1..n + 1]) == multiset(a0[n := p][1..n + 1])
      invariant a0[n / 2].value <= p.value ==> a == a0 && k == n
      decreases k
    {
      RisingStep(a, n, k, p);
      MoveHole(a, n, k, k / 2, p);
      a := a[k := a[k / 2]];
      k := k / 2;
    }
    RisingEnd(a, n, k, p);
    a := a[k := p];
  }

  /** The state of the sift-down with the hole at `k` and `t` waiting to be
      stored: heap order on every pair away from the hole, and the hole's
      parent no greater than `t` or than the hole's children. */
  predicate Sinking(a: seq<PrimePower>, n: nat, k: nat, t: PrimePower)
  {
    1 <= k < |a| && n < |a| && (k <= n || k == 1) && a[0] == Sentinel && t.value >= 1 &&
    (forall i :: 1 <= i <= n && i != k ==> a[i].value >= 1) &&
    (forall i :: 2 <= i <= n && i != k && i / 2 != k ==> ParentBelow(a, i)) &&
    (k >= 2 ==> a[k / 2].value <= t.value) &&
    (k >= 2 ==> forall c :: 2 * k <= c <= 2 * k + 1 && c <= n ==> a[k / 2].value <= a[c].value)
  }

  /** Taking the root out and the last element as `t` starts the sift-down;
      the root is the least element. */
  lemma SinkingStart(a: seq<PrimePower>, m: nat)
    requires 1 <= m < |a| && a[0] == Sentinel && Positive(a, m) && Ordered(a, m)
    ensures Sinking(a, m - 1, 1, a[m])
    ensures multiset(a[1 := a[m]][1..m]) + multiset{a[1]} == multiset(a[1..m + 1])
    ensures forall e :: e in a[1..m + 1] ==> a[1].value <= e.value
  {
    forall i | 2 <= i <= m - 1 && i / 2 != 1
      ensures ParentBelow(a, i)
    {
      assert ParentBelow(a, i);
    }
    if m >= 2 {
      assert a[1 := a[m]][1..m] == [a[m]] + a[2..m];
      assert a[1..m + 1] == [a[1]] + a[2..m] + [a[m]];
    }
    forall e | e in a[1..m + 1]
      ensures a[1].value <= e.value
    {
      var j :| 0 <= j < m && a[1..m + 1][j] == e;
      RootIsLeast(a, m, j + 1);
    }
  }

  /** Moving the hole down to the child `c`, no greater than its sibling
      and than `t`. */
  lemma SinkingStep(a: seq<PrimePower>, n: nat, k: nat, t: PrimePower, c: nat)
    requires Sinking(a, n, k, t) && 2 * k + 1 <= n && 2 * k <= c <= 2 * k + 1
    requires a[c].value <= a[2 * k].value && a[c].value <= a[2 * k + 1].value && a[c].value <= t.value
    ensures Sinking(a[k := a[c]], n, c, t)
  {
    var b := a[k := a[c]];
    forall i | 2 <= i <= n && i != c && i / 2 != c
      ensures ParentBelow(b, i)
    {
      if i == k {
        assert ParentBelow(b, i);
      } else if i / 2 == k {
        assert ParentBelow(b, i);
      } else {
        assert ParentBelow(a, i);
      }
    }
    forall d | 2 * c <= d <= 2 * c + 1 && d <= n
      ensures b[c / 2].value <= b[d].value
    {
      assert d / 2 == c && ParentBelow(a, d);
    }
  }

  /** Storing `t` in the hole when it has no child greater than or equal
      to `t`. */
  lemma SinkingStore(a: seq<PrimePower>, n: nat, k: nat, t: PrimePower)
    requires Sinking(a, n, k, t)
    requires forall c :: 2 * k <= c <= 2 * k + 1 && c <= n ==> t.value <= a[c].value
    ensures a[k := t][0] == Sentinel && Ordered(a[k := t], n) && Positive(a[k := t], n)
  {
    var b := a[k := t];
    forall i | 2 <= i <= n
      ensures ParentBelow(b, i)
    {
      if i == k {
        assert ParentBelow(b, i);
      } else if i / 2 == k {
        assert 2 * k <= i <= 2 * k + 1;
        assert ParentBelow(b, i);
      } else {
        assert ParentBelow(a, i);
      }
    }
  }

  /** The one-child case of the sift-down when the child is no greater than
      `t`: the child moves into the hole and `t` into the child's slot. */
  lemma SinkingLast(a: seq<PrimePower>, n: nat, k: nat, t: PrimePower)
    requires Sinking(a, n, k, t) && n == 2 * k && a[n].value <= t.value
    ensures a[k := a[n]][n := t][0] == Sentinel
    ensures Ordered(a[k := a[n]][n := t], n) && Positive(a[k := a[n]][n := t], n)
  {
    var b := a[k := a[n]][n := t];
    forall i | 2 <= i <= n
      ensures ParentBelow(b, i)
    {
      if i == k || i == n {
        assert ParentBelow(b, i);
      } else {
        assert i / 2 != k;
        assert ParentBelow(a, i);
      }
    }
  }

  /** The loop of `pop`, corrected: with the hole at the root and `t` the
      former last element, move the lesser child up until `t` fits, and
      store `t` in the last hole. */
  method SiftDown(a0: seq<PrimePower>, n: nat, t: PrimePower) returns (a: seq<PrimePower>)
    requires Sinking(a0, n, 1, t)
    ensures |a| == |a0| && a[0] == Sentinel && Ordered(a, n) && Positive(a, n)
    ensures multiset(a[1..n + 1]) == multiset(a0[1 := t][1..n + 1])
  {
    a := a0;
    var k: nat := 1;
    while true
      invariant Sinking(a, n, k, t) && |a| == |a0|
      invariant multiset(a[k := t][1..n + 1]) == multiset(a0[1 := t][1..n + 1])
      decreases n + 1 - k
    {
      var left, right := 2 * k, 2 * k + 1;
      if k > n / 2 {
        SinkingStore(a, n, k, t);
        a := a[k := t];
        break;
      }
      if k == n / 2 && n % 2 == 0 {
        if Less(t, a[left]) {
          SinkingStore(a, n, k, t);
          a := a[k := t];
        } else {
          SinkingLast(a, n, k, t);
          MoveHole(a, n, k, left, t);
          a := a[k := a[left]][left := t];
        }
        break;
      }
      if Less(t, a[left]) && Less(t, a[right]) {
        SinkingStore(a, n, k, t);
        a := a[k := t];
        break;
      } else if Less(a[left], a[right]) {
        SinkingStep(a, n, k, t, left);
        MoveHole(a, n, k, left, t);
        a := a[k := a[left]];
        k := left;
      } else {
        SinkingStep(a, n, k, t, right);
        MoveHole(a, n, k, right, t);
        a := a[k := a[right]];
        k := right;
      }
    }
  }

  /** The loop of `pop` as written, from the hole at `k` with `t` to store. */
  function SiftDownAsWritten(a: seq<PrimePower>, n: nat, k: nat, t: PrimePower): (r: seq<PrimePower>)
    requires 1 <= k < |a| && n < |a| && (k <= n || k == 1)
    ensures |r| == |a| && r[0] == a[0] && forall i :: n < i < |a| && i != k ==> r[i] == a[i]
    decreases n + 1 - k
  {
    var left, right := 2 * k, 2 * k + 1;
    if k > n / 2 then a[k := t]
    else if k == n / 2 && n % 2 == 0 then
      if Less(t, a[left]) then a[k := t] else a[k := a[left]]
    else if Less(t, a[left]) && Less(t, a[right]) then a[k := t]
    else if Less(a[left], a[right]) then SiftDownAsWritten(a[k := a[left]], n, left, t)
    else SiftDownAsWritten(a[k := a[right]], n, right, t)
  }

  /** The loop of `pop` as written. */
  method SinkAsWritten(a0: seq<PrimePower>, n: nat, t: PrimePower) returns (a: seq<PrimePower>)
    requires 1 < |a0| && n < |a0|
    ensures a == SiftDownAsWritten(a0, n, 1, t)
  {
    a := a0;
    var k: nat := 1;
    while true
      invariant 1 <= k < |a| && |a| == |a0| && (k <= n || k == 1)
      invariant SiftDownAsWritten(a, n, k, t) == SiftDownAsWritten(a0, n, 1, t)
      decreases n + 1 - k
    {
      var left, right := 2 * k, 2 * k + 1;
      if k > n / 2 {
        a := a[k := t];
        break;
      }
      if k == n / 2 && n % 2 == 0 {
        if Less(t, a[left]) {
          a := a[k := t];
        } else {
          a := a[k := a[left]];
          k := left;
        }
        break;
      }
      if Less(t, a[left]) && Less(t, a[right]) {
        a := a[k := t];
        break;
      } else if Less(a[left], a[right]) {
        a := a[k := a[left]];
        k := left;
      } else {
        a := a[k := a[right]];
        k := right;
      }
    }
  }

  /** The sift-down as written reaches the one-child case with a child no
      greater than `t`, where it moves the child up and leaves `t` out. */
  predicate DropsTemp(a: seq<PrimePower>, n: nat, k: nat, t: PrimePower)
    requires 1 <= k < |a| && n < |a| && (k <= n || k == 1)
    decreases n + 1 - k
  {
    var left, right := 2 * k, 2 * k + 1;
    if k > n / 2 then false
    else if k == n / 2 && n % 2 == 0 then !Less(t, a[left])
    else if Less(t, a[left]) && Less(t, a[right]) then false
    else if Less(a[left], a[right]) then DropsTemp(a[k := a[left]], n, left, t)
    else DropsTemp(a[k := a[right]], n, right, t)
  }

  /** Overwriting one slot with `u` instead of `v`. */
  lemma ReplaceAt(a: seq<PrimePower>, k: nat, u: PrimePower, v: PrimePower)
    requires k < |a|
    ensures multiset(a[k := u]) + multiset{v} == multiset(a[k := v]) + multiset{u}
  {
    assert multiset(a[k := u]) == multiset(a) - multiset{a[k]} + multiset{u};
    assert multiset(a[k := v]) == multiset(a) - multiset{a[k]} + multiset{v};
  }

  /** Copying the element at `j` into the hole at `k` moves the hole to `j`
      and keeps the contents with `p` in the hole. */
  lemma MoveHoleWhole(a: seq<PrimePower>, k: nat, j: nat, p: PrimePower)
    requires k < |a| && j < |a| && k != j
    ensures multiset(a[k := a[j]][j := p]) == multiset(a[k := p])
  {
    var b := a[k := a[j]];
    assert b[j] == a[j];
    assert multiset(b) == multiset(a) - multiset{a[k]} + multiset{a[j]};
    assert multiset(b[j := p]) == multiset(b) - multiset{a[j]} + multiset{p};
    assert multiset(a[k := p]) == multiset(a) - multiset{a[k]} + multiset{p};
  }

  /** The elements of two vectors of the same length that agree at 0 and
      from `m` on differ as their slices `1..m` do. */
  lemma Trim(x: seq<PrimePower>, y: seq<PrimePower>, m: nat, dx: multiset<PrimePower>, dy: multiset<PrimePower>)
    requires 1 <= m <= |x| == |y| && x[0] == y[0] && x[m..] == y[m..]
    requires multiset(x) + dx == multiset(y) + dy
    ensures multiset(x[1..m]) + dx == multiset(y[1..m]) + dy
  {
    assert x == [x[0]] + x[1..m] + x[m..];
    assert y == [y[0]] + y[1..m] + y[m..];
    assert multiset(x) == multiset{x[0]} + multiset(x[1..m]) + multiset(x[m..]);
    assert multiset(y) == multiset{y[0]} + multiset(y[1..m]) + multiset(y[m..]);
    forall e
      ensures (multiset(x[1..m]) + dx)[e] == (multiset(y[1..m]) + dy)[e]
    {
      assert (multiset(x) + dx)[e] == (multiset(y) + dy)[e];
    }
  }

  /** The one-child case as written: the child moves into the hole and
      stays in its own slot too. Heap order still holds. */
  lemma SinkingDrop(a: seq<PrimePower>, n: nat, k: nat, t: PrimePower)
    requires Sinking(a, n, k, t) && n == 2 * k
    ensures a[k := a[n]][0] == Sentinel
    ensures Ordered(a[k := a[n]], n) && Positive(a[k := a[n]], n)
  {
    var b := a[k := a[n]];
    forall i | 2 <= i <= n
      ensures ParentBelow(b, i)
    {
      if i == k || i == n {
        assert ParentBelow(b, i);
      } else {
        assert i / 2 != k;
        assert ParentBelow(a, i);
      }
    }
  }

  /** The sift-down as written keeps heap order in every case. */
  lemma {:induction false} SiftDownAsWrittenOrders(a: seq<PrimePower>, n: nat, k: nat, t: PrimePower)
    requires Sinking(a, n, k, t)
    ensures var r := SiftDownAsWritten(a, n, k, t);
      r[0] == Sentinel && Ordered(r, n) && Positive(r, n)
    decreases n + 1 - k
  {
    var left, right := 2 * k, 2 * k + 1;
    if k > n / 2 || (k == n / 2 && n % 2 == 0 && Less(t, a[left])) {
      SinkingStore(a, n, k, t);
    } else if k == n / 2 && n % 2 == 0 {
      SinkingDrop(a, n, k, t);
    } else if Less(t, a[left]) && Less(t, a[right]) {
      SinkingStore(a, n, k, t);
    } else if Less(a[left], a[right]) {
      SinkingStep(a, n, k, t, left);
      SiftDownAsWrittenOrders(a[k := a[left]], n, left, t);
    } else {
      SinkingStep(a, n, k, t, right);
      SiftDownAsWrittenOrders(a[k := a[right]], n, right, t);
    }
  }

  /** The sift-down as written keeps every element unless the one-child
      case drops `t`, where a second copy of the last element takes its
      place. */
  lemma {:induction false} SiftDownAsWrittenCounts(a: seq<PrimePower>, n: nat, k: nat, t: PrimePower)
    requires 1 <= k < |a| && n < |a| && (k <= n || k == 1)
    ensures !DropsTemp(a, n, k, t) ==> multiset(SiftDownAsWritten(a, n, k, t)) == multiset(a[k := t])
    ensures DropsTemp(a, n, k, t) ==>
      multiset(SiftDownAsWritten(a, n, k, t)) + multiset{t} == multiset(a[k := t]) + multiset{a[n]}
    decreases n + 1 - k
  {
    var left, right := 2 * k, 2 * k + 1;
    if k > n / 2 || (k == n / 2 && n % 2 == 0 && Less(t, a[left])) {
      assert SiftDownAsWritten(a, n, k, t) == a[k := t] && !DropsTemp(a, n, k, t);
    } else if k == n / 2 && n % 2 == 0 {
      assert left == n;
      assert SiftDownAsWritten(a, n, k, t) == a[k := a[n]] && DropsTemp(a, n, k, t);
      ReplaceAt(a, k, a[n], t);
    } else if Less(t, a[left]) && Less(t, a[right]) {
      assert SiftDownAsWritten(a, n, k, t) == a[k := t] && !DropsTemp(a, n, k, t);
    } else {
      var c := if Less(a[left], a[right]) then left else right;
      var b := a[k := a[c]];
      assert SiftDownAsWritten(a, n, k, t) == SiftDownAsWritten(b, n, c, t);
      assert DropsTemp(a, n, k, t) == DropsTemp(b, n, c, t);
      assert b[n] == a[n];
      MoveHoleWhole(a, k, c, t);
      SiftDownAsWrittenCounts(b, n, c, t);
    }
  }

  /** `pop` as written on a heap of `m` elements: heap order holds after it,
      the root is the least element, and the elements are the old ones less
      the root, except that when `temp` is dropped a second copy of the
      element at the new last slot stands in for it. */
  lemma PopAsWrittenKeeps(a: seq<PrimePower>, m: nat)
    requires 1 <= m < |a| && a[0] == Sentinel && Positive(a, m) && Ordered(a, m)
    ensures var r := SiftDownAsWritten(a, m - 1, 1, a[m]);
      |r| == |a| && r[0] == Sentinel && Ordered(r, m - 1) && Positive(r, m - 1) &&
      (forall e :: e in a[1..m + 1] ==> a[1].value <= e.value) &&
      (!DropsTemp(a, m - 1, 1, a[m]) ==> multiset(r[1..m]) + multiset{a[1]} == multiset(a[1..m + 1])) &&
      (DropsTemp(a, m - 1, 1, a[m]) ==> multiset(r[1..m]) + multiset{a[1], a[m]} == multiset(a[1..m + 1]) + multiset{a[m - 1]})
  {
    SinkingStart(a, m);
    SiftDownAsWrittenOrders(a, m - 1, 1, a[m]);
    PopAsWrittenCounts(a, m);
  }

  /** The elements part of the lemma above, on any vector. */
  lemma PopAsWrittenCounts(a: seq<PrimePower>, m: nat)
    requires 1 <= m < |a|
    ensures var r := SiftDownAsWritten(a, m - 1, 1, a[m]);
      (!DropsTemp(a, m - 1, 1, a[m]) ==> multiset(r[1..m]) + multiset{a[1]} == multiset(a[1..m + 1])) &&
      (DropsTemp(a, m - 1, 1, a[m]) ==> multiset(r[1..m]) + multiset{a[1], a[m]} == multiset(a[1..m + 1]) + multiset{a[m - 1]})
  {
    var t := a[m];
    var r := SiftDownAsWritten(a, m - 1, 1, t);
    SiftDownAsWrittenCounts(a, m - 1, 1, t);
    assert r[m..] == a[m..];
    if DropsTemp(a, m - 1, 1, t) {
      DropCounts(r, a, m);
    } else {
      KeepCounts(r, a, m);
    }
  }

  /** The bookkeeping of the lemma above when `temp` is kept. */
  lemma KeepCounts(r: seq<PrimePower>, a: seq<PrimePower>, m: nat)
    requires 1 <= m < |a| == |r| && r[0] == a[0] && r[m..] == a[m..]
    requires multiset(r) == multiset(a[1 := a[m]])
    ensures multiset(r[1..m]) + multiset{a[1]} == multiset(a[1..m + 1])
  {
    ReplaceAt(a, 1, a[m], a[1]);
    assert a[1 := a[1]] == a;
    Trim(r, a, m, multiset{a[1]}, multiset{a[m]});
    assert a[1..m + 1] == a[1..m] + [a[m]];
  }

  /** The bookkeeping of the lemma above when `temp` is dropped. */
  lemma DropCounts(r: seq<PrimePower>, a: seq<PrimePower>, m: nat)
    requires 2 <= m < |a| == |r| && r[0] == a[0] && r[m..] == a[m..]
    requires multiset(r) + multiset{a[m]} == multiset(a[1 := a[m]]) + multiset{a[m - 1]}
    ensures multiset(r[1..m]) + multiset{a[1], a[m]} == multiset(a[1..m + 1]) + multiset{a[m - 1]}
  {
    var h := multiset(a[1 := a[m]]);
    ReplaceAt(a, 1, a[m], a[1]);
    assert a[1 := a[1]] == a;
    var both, extra := multiset{a[1], a[m]}, multiset{a[m], a[m - 1]};
    forall e
      ensures (multiset(r) + both)[e] == (multiset(a) + extra)[e]
    {
      assert (multiset(r) + multiset{a[m]})[e] == (h + multiset{a[m - 1]})[e];
      assert (h + multiset{a[1]})[e] == (multiset(a) + multiset{a[m]})[e];
    }
    Trim(r, a, m, both, extra);
    assert a[1..m + 1] == a[1..m] + [a[m]];
  }

  /** `pop` as written, on the heap holding 2, 3 and 4: `temp` is 4, the
      root has one child after the element count drops to 2, that child 3 is
      less than 4, so 3 moves up and 4 is nowhere; the elements left are 3
      and 3 instead of 3 and 4. */
  lemma PopAsWrittenLosesLast()
    ensures var three := PrimePower(3, 1, 3);
      var four := PrimePower(2, 2, 4);
      var after := SiftDownAsWritten([Sentinel, PrimePower(2, 1, 2), three, four], 2, 1, four);
      after[1..3] == [three, three] && multiset(after[1..3]) != multiset{three, four}
  {
    var three := PrimePower(3, 1, 3);
    var four := PrimePower(2, 2, 4);
    var after := SiftDownAsWritten([Sentinel, PrimePower(2, 1, 2), three, four], 2, 1, four);
    assert after == [Sentinel, three, three, four];
    assert multiset(after[1..3])[four] == 0;
  }

  /** A vector holding the sentinel and exactly `n` elements. */
  lemma WholeVector(a: seq<PrimePower>, n: nat)
    requires |a| == n + 1 && a[0] == Sentinel
    ensures a == [Sentinel] + a[1..n + 1]
  {
  }

  /** Inserting 2, 3 and 4, in this order, into a new heap builds the
      vector of the lemma above: none of them is less than its parent. */
  method ThreeInserts() returns (h: Heap)
    ensures fresh(h) && h.Valid() && h.heapsize == 3
    ensures h.heap == [Sentinel, PrimePower(2, 1, 2), PrimePower(3, 1, 3), PrimePower(2, 2, 4)]
  {
    h := new Heap();
    h.Insert(PrimePower(2, 1, 2));
    WholeVector(h.heap, 1);
    h.Insert(PrimePower(3, 1, 3));
    WholeVector(h.heap, 2);
    h.Insert(PrimePower(2, 2, 4));
    WholeVector(h.heap, 3);
  }

  /** On that heap the corrected `pop` keeps 4, where `pop` as written
      loses it. */
  method PopAfterThreeInserts() returns (kept: seq<PrimePower>, lost: seq<PrimePower>)
    ensures multiset(kept) == multiset{PrimePower(3, 1, 3), PrimePower(2, 2, 4)}
    ensures lost == [PrimePower(3, 1, 3), PrimePower(3, 1, 3)]
  {
    var h := ThreeInserts();
    assert h.Elements() == [PrimePower(2, 1, 2), PrimePower(3, 1, 3), PrimePower(2, 2, 4)];
    var top := h.Pop();
    kept := h.Elements();
    assert multiset(kept) + multiset{PrimePower(2, 1, 2)} ==
      multiset{PrimePower(3, 1, 3), PrimePower(2, 2, 4)} + multiset{PrimePower(2, 1, 2)};
    var g := ThreeInserts();
    top := g.PopAsWritten();
    PopAsWrittenLosesLast();
    lost := g.Elements();
  }

  // ---------------------------------------------------------------------------
  // `Prime_sieve<N>`.

  predicate IsPrime(n: nat)
  {
    n >= 2 && forall d :: 2 <= d < n ==> n % d != 0
  }

  /** The primes below `n`, in ascending order. */
  function PrimesBelow(n: nat): seq<nat>
  {
    if n == 0 then [] else PrimesBelow(n - 1) + (if IsPrime(n - 1) then [n - 1] else [])
  }

  /** `PrimesBelow(n)` holds every prime below `n` and nothing else, in
      strictly ascending order. */
  lemma {:induction false} PrimesBelowExactly(n: nat)
    ensures forall x: nat :: x in PrimesBelow(n) <==> x < n && IsPrime(x)
    ensures forall i, j :: 0 <= i < j < |PrimesBelow(n)| ==> PrimesBelow(n)[i] < PrimesBelow(n)[j]
  {
    if n > 0 {
      PrimesBelowExactly(n - 1);
      var s, t := PrimesBelow(n - 1), PrimesBelow(n);
      assert forall i :: 0 <= i < |s| ==> s[i] in s;
      assert forall i :: 0 <= i < |s| ==> t[i] == s[i] && t[i] < n - 1;
    }
  }

  /** What the sieve keeps once the multiples of every prime below `p` are
      crossed out: the numbers from 2 up with no divisor below `p` other than
      themselves. */
  predicate Survives(i: nat, p: nat)
  {
    i >= 2 && forall d :: 2 <= d < p && d < i ==> i % d != 0
  }

  /** Below `n`, surviving every divisor below `n` is being prime. */
  lemma SurvivesAll(i: nat, n: nat)
    requires i < n
    ensures Survives(i, n) <==> IsPrime(i)
  {
  }

  /** Facts about the multiples `k * p` the inner loop crosses out. */
  lemma Multiples(i: nat, p: nat, k: nat)
    requires p >= 1
    ensures (k * p) % p == 0 && (k * p) / p == k
    ensures i % p == 0 && i / p >= k ==> i >= k * p
    ensures i % p == 0 && i / p == k ==> i == k * p
    ensures i % p == 0 ==> (i / p >= 2 <==> i > p)
  {
    DivModUnique(k * p, p, k, 0);
    var q := i / p;
    assert i == q * p + i % p;
    if i % p == 0 {
      if q >= k {
        MulMono(k, q, p);
      }
      if q >= 2 {
        MulMono(2, q, p);
      } else {
        MulMono(q, 1, p);
      }
    }
  }

  /** A multiple of a multiple of `d` is a multiple of `d`. */
  lemma DividesTrans(i: nat, p: nat, d: nat)
    requires p >= 1 && d >= 1 && i % p == 0 && p % d == 0
    ensures i % d == 0
  {
    var a, b := i / p, p / d;
    assert i == a * p + 0;
    assert p == b * d + 0;
    assert i == (a * b) * d + 0;
    DivModUnique(i, d, a * b, 0);
  }

  /** A number crossed out by a composite `p` was crossed out by one of
      its divisors already. */
  lemma CompositeCrossed(i: nat, p: nat)
    requires p >= 2 && !Survives(p, p) && i % p == 0 && p < i
    ensures !Survives(i, p)
  {
    var d :| 2 <= d < p && p % d == 0;
    DividesTrans(i, p, d);
  }

  class PrimeSieve {
    /** `N`. */
    const size: nat
    /** The bit vector, one flag per number below `size`. */
    const sieve: array<bool>
    var primes: seq<nat>

    /** A sieve whose bits are all clear and no primes collected. */
    constructor (n: nat)
      ensures size == n && sieve.Length == n && fresh(sieve) && primes == []
      ensures forall i :: 0 <= i < n ==> !sieve[i]
    {
      size := n;
      sieve := new bool[n](_ => false);
      primes := [];
    }

    /** After the multiples of every prime below `p` are crossed out, the
        bits set are exactly the survivors. */
    predicate Sieved(p: nat)
      reads this, sieve
    {
      sieve.Length == size && forall i :: 0 <= i < size ==> (sieve[i] <==> Survives(i, p))
    }

    /** `build`: sets every bit, clears 0 and 1, crosses out `k * p` for
        every `p` still set and every `k >= 2`, then appends the numbers whose
        bits are set. `reset(1)` is out of range below `N = 2`. */
    method Build()
      requires sieve.Length == size && size >= 2
      modifies this, sieve
      ensures forall i :: 0 <= i < size ==> (sieve[i] <==> IsPrime(i))
      ensures primes == old(primes) + PrimesBelow(size)
    {
      SetAll();
      CrossOutAll();
      Collect();
    }

    /** The first loop of `build` and the two resets. */
    method SetAll()
      requires sieve.Length == size && size >= 2
      modifies sieve
      ensures Sieved(2)
    {
      for i := 0 to size
        invariant forall j :: 0 <= j < i ==> sieve[j]
      {
        sieve[i] := true;
      }
      sieve[0] := false;
      sieve[1] := false;
    }

    /** The nested loops of `build`. */
    method CrossOutAll()
      requires Sieved(2) && size >= 2
      modifies sieve
      ensures Sieved(size)
    {
      for p := 2 to size
        invariant Sieved(p)
      {
        if sieve[p] {
          CrossOutMultiples(p);
        } else {
          forall i | 0 <= i < size
            ensures sieve[i] <==> Survives(i, p + 1)
          {
            if i % p == 0 && p < i {
              CompositeCrossed(i, p);
            }
          }
        }
      }
    }

    /** The inner loop of `build` for a `p` whose bit is still set. */
    method CrossOutMultiples(p: nat)
      requires Sieved(p) && 2 <= p < size
      modifies sieve
      ensures Sieved(p + 1)
    {
      var k := 2;
      while k * p < size
        invariant k >= 2
        invariant forall i :: 0 <= i < size ==>
          (sieve[i] <==> Survives(i, p) && !(i % p == 0 && 2 <= i / p < k))
      {
        CrossOut(p, k);
        k := k + 1;
      }
      forall i | 0 <= i < size
        ensures sieve[i] <==> Survives(i, p + 1)
      {
        Multiples(i, p, k);
      }
    }

    /** The last loop of `build`: the numbers whose bits are set, in order. */
    method Collect()
      requires Sieved(size)
      modifies this
      ensures forall i :: 0 <= i < size ==> (sieve[i] <==> IsPrime(i))
      ensures primes == old(primes) + PrimesBelow(size)
    {
      for i := 0 to size
        invariant primes == old(primes) + PrimesBelow(i)
      {
        SurvivesAll(i, size);
        if sieve[i] {
          primes := primes + [i];
        }
      }
      forall i | 0 <= i < size
        ensures sieve[i] <==> IsPrime(i)
      {
        SurvivesAll(i, size);
      }
    }

    /** `sieve.reset(k * p)`, with what it does to the inner loop's
        invariant. */
    method CrossOut(p: nat, k: nat)
      requires p >= 2 && k >= 2 && k * p < size == sieve.Length
      requires forall i :: 0 <= i < size ==>
        (sieve[i] <==> Survives(i, p) && !(i % p == 0 && 2 <= i / p < k))
      modifies sieve
      ensures forall i :: 0 <= i < size ==>
        (sieve[i] <==> Survives(i, p) && !(i % p == 0 && 2 <= i / p < k + 1))
    {
      sieve[k * p] := false;
      forall i | 0 <= i < size
        ensures sieve[i] <==> Survives(i, p) && !(i % p == 0 && 2 <= i / p < k + 1)
      {
        Multiples(i, p, k);
      }
    }
  }

  // ---------------------------------------------------------------------------
  // `Minimal_accumulator`.

  /** The product of the values inserted, in unbounded arithmetic. */
  function Product(s: seq<nat>): nat
  {
    if s == [] then 1 else Product(s[..|s| - 1]) * s[|s| - 1]
  }

  /** Cutting to 64 bits after every multiplication cuts the whole product
      to 64 bits. */
  lemma ModMul(a: nat, b: nat)
    ensures ((a % Two64) * b) % Two64 == (a * b) % Two64
  {
    var q := a / Two64;
    var r := a % Two64;
    assert a * b == r * b + (q * b) * Two64;
    ModMulAdd(r * b, q * b);
  }

  lemma ModMulAdd(x: nat, y: nat)
    ensures (x + y * Two64) % Two64 == x % Two64
  {
  }

  /** One factor of `to_string`: `(p)` when the exponent is 1, `(p^e)`
      otherwise. */
  function FactorText(p: nat, e: nat): string
  {
    if e == 1 then "(" + NatToString(p) + ")"
    else "(" + NatToString(p) + "^" + NatToString(e) + ")"
  }

  /** `to_string` of the primes `ps` with the exponents `es`, in order. */
  function FactorsText(ps: seq<nat>, es: seq<nat>): string
    requires |ps| == |es|
  {
    if ps == [] then ""
    else FactorsText(ps[..|ps| - 1], es[..|es| - 1]) + FactorText(ps[|ps| - 1], es[|es| - 1])
  }

  function Count(s: string, c: char): nat
  {
    if s == [] then 0 else Count(s[..|s| - 1], c) + (if s[|s| - 1] == c then 1 else 0)
  }

  lemma {:induction false} CountAppend(s: string, t: string, c: char)
    ensures Count(s + t, c) == Count(s, c) + Count(t, c)
    decreases |t|
  {
    if t != [] {
      assert (s + t)[..|s + t| - 1] == s + t[..|t| - 1];
      assert (s + t)[|s + t| - 1] == t[|t| - 1];
      CountAppend(s, t[..|t| - 1], c);
    } else {
      assert s + t == s;
    }
  }

  lemma {:induction false} CountDigits(s: string)
    requires AllDigits(s)
    ensures Count(s, '(') == 0
    decreases |s|
  {
    if s != [] {
      CountDigits(s[..|s| - 1]);
    }
  }

  /** Every factor opens exactly one parenthesis: the text of `to_string`
      has as many `(` as there are factors. */
  lemma {:induction false} FactorsCount(ps: seq<nat>, es: seq<nat>)
    requires |ps| == |es|
    ensures Count(FactorsText(ps, es), '(') == |ps|
    decreases |ps|
  {
    if ps != [] {
      var p, e := ps[|ps| - 1], es[|es| - 1];
      FactorsCount(ps[..|ps| - 1], es[..|es| - 1]);
      CountAppend(FactorsText(ps[..|ps| - 1], es[..|es| - 1]), FactorText(p, e), '(');
      CountDigits(NatToString(p));
      CountDigits(NatToString(e));
      CountAppend("(", NatToString(p), '(');
      if e == 1 {
        CountAppend("(" + NatToString(p), ")", '(');
      } else {
        CountAppend("(" + NatToString(p), "^", '(');
        CountAppend("(" + NatToString(p) + "^", NatToString(e), '(');
        CountAppend("(" + NatToString(p) + "^" + NatToString(e), ")", '(');
      }
    }
  }

  class Accumulator {
    var prime: seq<nat>
    var exponent: seq<nat>
    var value: nat
    /** The values inserted so far. */
    ghost var history: seq<nat>

    /** Primes and exponents in lockstep with the insertions, and `value`
        their product cut to 64 bits. */
    ghost predicate Valid()
      reads this
    {
      |prime| == |exponent| == |history| && value == Product(history) % Two64
    }

    constructor ()
      ensures Valid() && prime == [] && exponent == [] && value == 1 && history == []
    {
      prime, exponent, value := [], [], 1;
      history := [];
    }

    /** `insert`: appends the prime and the exponent, converted to
        `uint64_t`, and multiplies `value` in 64 bits. */
    method Insert(pk: PrimePower)
      requires Valid()
      modifies this
      ensures Valid()
      ensures prime == old(prime) + [pk.prime] && exponent == old(exponent) + [pk.exponent % Two64]
      ensures value == (old(value) * pk.value) % Two64 && history == old(history) + [pk.value]
    {
      ModMul(Product(history), pk.value);
      prime := prime + [pk.prime];
      exponent := exponent + [pk.exponent % Two64];
      value := (value * pk.value) % Two64;
      history := history + [pk.value];
      assert history[..|history| - 1] == old(history);
    }

    /** `to_string`: the factors in insertion order. */
    method ToString() returns (s: string)
      requires |prime| == |exponent|
      ensures s == FactorsText(prime, exponent)
    {
      s := "";
      for i := 0 to |prime|
        invariant s == FactorsText(prime[..i], exponent[..i])
      {
        s := s + FactorText(prime[i], exponent[i]);
        assert prime[..i + 1][..i] == prime[..i] && exponent[..i + 1][..i] == exponent[..i];
      }
      assert prime[..|prime|] == prime && exponent[..|exponent|] == exponent;
    }
  }
}
