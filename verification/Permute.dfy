/** Block exchange of getopt: lib/argtable/argtable3.c, `gcd` and `permute_args`.

    `permute_args` rotates two adjacent blocks in place by walking cycles of the
    rotation.  The walk is right because the gcd(n1,n2) cycles, each of length
    (n1+n2)/gcd(n1,n2), visit every position exactly once.  That fact is the
    `CycleMap` below: each position gets the number of its cycle and its rank in
    it, and no two positions share both. */
module Permute {
  import opened Arith

  // ---------------------------------------------------------------- gcd

  /** Euclid's algorithm, the functional reading of the loop in `gcd`. */
  function Gcd(a: int, b: int): (g: int)
    requires a >= 0 && b > 0
    ensures 0 < g <= b
    decreases b
  {
    if a % b == 0 then b else Gcd(b, a % b)
  }

  ghost predicate Divides(d: int, a: int)
    requires d > 0
  {
    a % d == 0
  }

  /** Bezout: the result of Euclid's algorithm divides both inputs and is a
      combination of them. */
  lemma {:induction false} Bezout(a: int, b: int) returns (x: int, y: int)
    requires a >= 0 && b > 0
    ensures a * x + b * y == Gcd(a, b)
    ensures Divides(Gcd(a, b), a) && Divides(Gcd(a, b), b)
    decreases b
  {
    if a % b == 0 {
      x, y := 0, 1;
      MultipleMod(1, b);
    } else {
      var q, r := a / b, a % b;
      var x', y' := Bezout(b, r);
      x, y := y', x' - q * y';
      DivMod(a, b);
      BezoutStep(a, b, q, r, x', y');
      DividesStep(a, b, q, r, Gcd(b, r));
    }
  }

  lemma BezoutStep(a: int, b: int, q: int, r: int, x: int, y: int)
    requires a == q * b + r
    ensures a * y + b * (x - q * y) == b * x + r * y
  {
    Distribute(q * b, r, y);
    Distribute(x, q * y, b);
    Associate(q, b, y);
  }

  lemma DividesStep(a: int, b: int, q: int, r: int, g: int)
    requires g > 0 && a == q * b + r && Divides(g, b) && Divides(g, r)
    ensures Divides(g, a)
  {
    var s, t := b / g, r / g;
    DivMod(b, g);
    DivMod(r, g);
    Associate(q, s, g);
    Distribute(q * s, t, g);
    MultipleMod(q * s + t, g);
  }

  /** The result of `gcd` is the greatest common divisor. */
  lemma GcdIsGreatest(a: int, b: int, d: int)
    requires a >= 0 && b > 0 && d > 0
    ensures Divides(Gcd(a, b), a) && Divides(Gcd(a, b), b)
    ensures Divides(d, a) && Divides(d, b) ==> d <= Gcd(a, b)
  {
    var x, y := Bezout(a, b);
    if Divides(d, a) && Divides(d, b) {
      DivMod(a, d);
      DivMod(b, d);
      CombinationIsMultiple(a / d, b / d, d, x, y);
      MulSign((a / d) * x + (b / d) * y, d);
      MulGe((a / d) * x + (b / d) * y, d);
    }
  }

  lemma CombinationIsMultiple(s: int, t: int, d: int, x: int, y: int)
    ensures (s * d) * x + (t * d) * y == (s * x + t * y) * d
  {
    Associate(s, d, x);
    Associate(t, d, y);
    Distribute(s * x, t * y, d);
  }

  method ComputeGcd(a0: int, b0: int) returns (g: int)
    requires a0 >= 0 && b0 > 0
    ensures g == Gcd(a0, b0)
  {
    var a, b := a0, b0;
    var c := a % b;
    while c != 0
      invariant a >= 0 && b > 0 && c == a % b
      invariant Gcd(a, b) == Gcd(a0, b0)
      decreases c
    {
      a := b;
      b := c;
      c := a % b;
    }
    return b;
  }

  // ---------------------------------------------------------------- cycles

  /** One step of the walk, on positions counted from the start of the first block. */
  function Step(p: int, n1: int, n2: int): (s: int)
    requires 0 <= p < n1 + n2 && n1 >= 0 && n2 >= 0
    ensures 0 <= s < n1 + n2
  {
    if p >= n1 then p - n1 else p + n2
  }

  /** Where the element that ends at position `p` comes from. */
  function Source(p: int, n1: int, n2: int): (s: int)
    requires 0 <= p < n1 + n2 && n1 >= 0 && n2 >= 0
    ensures 0 <= s < n1 + n2 && Step(s, n1, n2) == p
  {
    if p < n2 then p + n1 else p - n2
  }

  /** The length of each of `ncycle` cycles over `total` positions. */
  function CycleLength(total: int, ncycle: int): int
    requires total >= 0 && ncycle > 0
  {
    total / ncycle
  }

  /** `cyc[p]` is the cycle that position `p` lies on and `rank[p]` its place on
      that cycle, counted from the position right after the cycle's start. */
  ghost predicate CycleMap(cyc: seq<int>, rank: seq<int>, n1: int, n2: int, g: int, m: int)
  {
    && 0 < g <= n1 && g <= n2 && 2 <= m
    && |cyc| == n1 + n2 && |rank| == n1 + n2
    && (forall p :: 0 <= p < n1 + n2 ==> 0 <= cyc[p] < g && 0 <= rank[p] < m)
    && (forall p :: 0 <= p < n1 + n2 ==>
          var s := Step(p, n1, n2);
          cyc[s] == cyc[p] && rank[s] == if rank[p] == m - 1 then 0 else rank[p] + 1)
    && (forall p, q :: 0 <= p < n1 + n2 && 0 <= q < n1 + n2 && cyc[p] == cyc[q] && rank[p] == rank[q] ==> p == q)
    && (forall p :: n1 <= p < n1 + g ==> cyc[p] == p - n1 && rank[p] == m - 1)
  }

  /** Divided by g, the walk takes steps of u round m slots, and u has an inverse v. */
  ghost predicate Slots(n1: int, n2: int, g: int, m: int, u: int, v: int)
  {
    0 < g && n1 == (m - u) * g && n2 == u * g && 0 < u < m && (u * v) % m == 1
  }

  lemma Inverse(n1: int, n2: int) returns (g: int, m: int, u: int, v: int)
    requires n1 > 0 && n2 > 0
    ensures g == Gcd(n1, n2) && m == CycleLength(n1 + n2, g)
    ensures Slots(n1, n2, g, m, u, v)
  {
    var x, y := Bezout(n1, n2);
    g := Gcd(n1, n2);
    DivMod(n1, g);
    DivMod(n2, g);
    var w := n1 / g;
    u := n2 / g;
    m := w + u;
    MulSign(w, g);
    MulSign(u, g);
    Distribute(w, u, g);
    DivModUnique(n1 + n2, g, m, 0);
    v := y - x;
    CombinationIsMultiple(w, u, g, x, y);
    Cancel(w * x + u * y, 1, g);
    InverseOfStep(w, u, x, y);
  }

  lemma InverseOfStep(w: int, u: int, x: int, y: int)
    requires w > 0 && u > 0 && w * x + u * y == 1
    ensures (u * (y - x)) % (w + u) == 1
  {
    Distribute(y, x, u);
    Distribute(w, u, x);
    assert u * (y - x) == 1 - (w + u) * x;
    assert (-x) * (w + u) == -((w + u) * x);
    ModShift(1, -x, w + u);
    ModSmall(1, w + u);
  }

  ghost function Rank(p: int, g: int, m: int, v: int): (r: int)
    requires g > 0 && m > 0
    ensures 0 <= r < m
  {
    ((p / g) * v) % m
  }

  lemma RankOfStep(p: int, n1: int, n2: int, g: int, m: int, u: int, v: int)
    requires n1 >= 0 && n2 >= 0 && 0 <= p < n1 + n2 && Slots(n1, n2, g, m, u, v)
    ensures Step(p, n1, n2) % g == p % g
    ensures Rank(Step(p, n1, n2), g, m, v) == (Rank(p, g, m, v) + 1) % m
  {
    var q := p / g;
    DivMod(p, g);
    SlotForward(q, u, v, m);
    if p >= n1 {
      Distribute(q, m - u, g);
      DivModUnique(p - n1, g, q - (m - u), p % g);
      assert q - (m - u) == q + u - m;
      Distribute(q + u, m, v);
      Associate(1, m, v);
      ModShift((q + u - m) * v, v, m);
    } else {
      Distribute(q, u, g);
      DivModUnique(p + n2, g, q + u, p % g);
    }
  }

  lemma SlotForward(q: int, u: int, v: int, m: int)
    requires m > 0 && (u * v) % m == 1
    ensures ((q + u) * v) % m == ((q * v) % m + 1) % m
  {
    Distribute(q, u, v);
    ModAdd(u * v, q * v, m);
    ModAdd(q * v, 1, m);
  }

  /** Multiplying the rank by u gives the slot back, so ranks tell slots apart. */
  lemma SlotOfRank(p: int, g: int, m: int, u: int, v: int)
    requires g > 0 && m > 1 && 0 <= p < m * g && (u * v) % m == 1
    ensures (Rank(p, g, m, v) * u) % m == p / g
  {
    var q := p / g;
    DivMod(p, g);
    MulSign(q + 1, g);
    MulSign(q - m + 1, g);
    Distribute(q, 1, g);
    Distribute(q - m, 1, g);
    Distribute(q, m, g);
    assert 0 <= q < m;
    ModMul(q * v, u, m);
    Associate(q, v, u);
    Associate(q, u, v);
    ModMul(u * v, q, m);
    ModSmall(q, m);
  }

  /** The gcd(n1,n2) cycles of length (n1+n2)/gcd(n1,n2) cover every position
      exactly once. */
  lemma CyclesCover(n1: int, n2: int) returns (cyc: seq<int>, rank: seq<int>)
    requires n1 > 0 && n2 > 0
    ensures CycleMap(cyc, rank, n1, n2, Gcd(n1, n2), CycleLength(n1 + n2, Gcd(n1, n2)))
  {
    var g, m, u, v := Inverse(n1, n2);
    MulGe(m - u, g);
    MulGe(u, g);
    Distribute(m - u, u, g);
    cyc := seq(n1 + n2, p requires 0 <= p < n1 + n2 => p % g);
    rank := seq(n1 + n2, p requires 0 <= p < n1 + n2 => Rank(p, g, m, v));
    forall p | 0 <= p < n1 + n2
      ensures var s := Step(p, n1, n2);
              cyc[s] == cyc[p] && rank[s] == if rank[p] == m - 1 then 0 else rank[p] + 1
    {
      RankOfStep(p, n1, n2, g, m, u, v);
      ModSucc(rank[p], m);
    }
    forall p, q | 0 <= p < n1 + n2 && 0 <= q < n1 + n2 && cyc[p] == cyc[q] && rank[p] == rank[q]
      ensures p == q
    {
      SlotOfRank(p, g, m, u, v);
      SlotOfRank(q, g, m, u, v);
      DivMod(p, g);
      DivMod(q, g);
    }
    forall p | n1 <= p < n1 + g
      ensures cyc[p] == p - n1 && rank[p] == m - 1
    {
      ModSmall(p - n1, g);
      assert Step(p, n1, n2) == p - n1;
      ModSmall(0, m);
      assert rank[p - n1] == 0;
    }
  }

  // ---------------------------------------------------------------- permute_args

  /** What `permute_args` promises: the block [mid, end) followed by the block
      [start, mid), each in its own order, and everything else in place. */
  function Exchanged<T>(a: seq<T>, start: int, mid: int, end: int): (b: seq<T>)
    requires 0 <= start <= mid <= end <= |a|
    ensures |b| == |a|
  {
    a[..start] + a[mid..end] + a[start..mid] + a[end..]
  }

  function Swapped<T>(a: seq<T>, i: int, j: int): (b: seq<T>)
    requires 0 <= i < |a| && 0 <= j < |a|
    ensures |b| == |a|
  {
    a[i := a[j]][j := a[i]]
  }

  method Swap<T>(a: array<T>, i: int, j: int)
    requires 0 <= i < a.Length && 0 <= j < a.Length
    modifies a
    ensures a[..] == Swapped(old(a[..]), i, j)
  {
    var swap := a[i];
    a[i] := a[j];
    a[j] := swap;
  }

  /** The array (as `b`) while cycle `i` is being walked and `j` of its steps
      are done, the walk being at `pos`.  A position is settled when its cycle is
      finished, or when it is on cycle `i` and the walk has passed it; until the
      last step the start of the cycle holds the element that stood at `pos`. */
  ghost predicate Walked<T>(b: seq<T>, a: seq<T>, n1: int, n2: int, cyc: seq<int>, rank: seq<int>, m: int, i: int, j: int, pos: int)
  {
    && n1 >= 0 && n2 >= 0 && |a| == |b| == |cyc| == |rank| == n1 + n2
    && 0 <= pos < n1 + n2 && cyc[pos] == i && 0 <= j <= m
    && rank[pos] == (if j == 0 then m - 1 else j - 1)
    && (forall p :: 0 <= p < n1 + n2 ==>
          b[p] ==
            if cyc[p] < i || (cyc[p] == i && rank[p] < j && (rank[p] < m - 1 || j == m)) then a[Source(p, n1, n2)]
            else if cyc[p] == i && rank[p] == m - 1 then a[pos]
            else a[p])
  }

  /** The array between cycles: the first `i` cycles are settled, the others untouched. */
  ghost predicate Settled<T>(b: seq<T>, a: seq<T>, n1: int, n2: int, cyc: seq<int>, i: int)
  {
    && n1 >= 0 && n2 >= 0 && |a| == |b| == |cyc| == n1 + n2
    && (forall p :: 0 <= p < n1 + n2 ==> b[p] == if cyc[p] < i then a[Source(p, n1, n2)] else a[p])
  }

  lemma WalkBegins<T>(b: seq<T>, a: seq<T>, n1: int, n2: int, cyc: seq<int>, rank: seq<int>, g: int, m: int, i: int)
    requires CycleMap(cyc, rank, n1, n2, g, m) && 0 <= i < g
    requires Settled(b, a, n1, n2, cyc, i)
    ensures Walked(b, a, n1, n2, cyc, rank, m, i, 0, n1 + i)
  {
    assert cyc[n1 + i] == i && rank[n1 + i] == m - 1;
  }

  lemma WalkStep<T>(b: seq<T>, a: seq<T>, n1: int, n2: int, cyc: seq<int>, rank: seq<int>, g: int, m: int, i: int, j: int, pos: int)
    requires CycleMap(cyc, rank, n1, n2, g, m) && 0 <= i < g && j < m
    requires Walked(b, a, n1, n2, cyc, rank, m, i, j, pos)
    ensures var s := Step(pos, n1, n2);
            Walked(Swapped(b, s, n1 + i), a, n1, n2, cyc, rank, m, i, j + 1, s)
  {
    var s := Step(pos, n1, n2);
    var c := n1 + i;
    assert cyc[c] == i && rank[c] == m - 1;
    assert cyc[s] == i && rank[s] == j;
    var b' := Swapped(b, s, c);
    forall p | 0 <= p < n1 + n2
      ensures b'[p] ==
            if cyc[p] < i || (cyc[p] == i && rank[p] < j + 1 && (rank[p] < m - 1 || j + 1 == m)) then a[Source(p, n1, n2)]
            else if cyc[p] == i && rank[p] == m - 1 then a[s]
            else a[p]
    {
      if p == s {
        assert Source(s, n1, n2) == pos;
      } else if p != c && cyc[p] == i {
        assert rank[p] != m - 1 && rank[p] != j;
      }
    }
  }

  lemma WalkEnds<T>(b: seq<T>, a: seq<T>, n1: int, n2: int, cyc: seq<int>, rank: seq<int>, g: int, m: int, i: int, pos: int)
    requires CycleMap(cyc, rank, n1, n2, g, m)
    requires Walked(b, a, n1, n2, cyc, rank, m, i, m, pos)
    ensures Settled(b, a, n1, n2, cyc, i + 1)
  {
  }

  lemma WalkStarts<T>(a: seq<T>, n1: int, n2: int, cyc: seq<int>, rank: seq<int>, g: int, m: int)
    requires CycleMap(cyc, rank, n1, n2, g, m) && |a| == n1 + n2
    ensures Settled(a, a, n1, n2, cyc, 0)
    ensures 0 < g <= n2
  {
  }

  /** When every cycle has been walked the two blocks have changed places. */
  lemma AllSettled<T>(b: seq<T>, a: seq<T>, n1: int, n2: int, cyc: seq<int>, rank: seq<int>, g: int, m: int)
    requires CycleMap(cyc, rank, n1, n2, g, m)
    requires Settled(b, a, n1, n2, cyc, g)
    ensures n1 >= 0 && |a| == n1 + n2 && b == a[n1..] + a[..n1]
  {
  }

  /** `x` is `a` with `b` standing in [start, end). */
  ghost predicate Holds<T>(x: seq<T>, a: seq<T>, start: int, end: int, b: seq<T>)
  {
    && 0 <= start <= end <= |a| == |x|
    && |b| == end - start
    && x == a[..start] + b + a[end..]
  }

  lemma HoldsSelf<T>(a: seq<T>, start: int, end: int)
    requires 0 <= start <= end <= |a|
    ensures Holds(a, a, start, end, a[start..end])
  {
  }

  lemma HoldsSwap<T>(x: seq<T>, a: seq<T>, start: int, end: int, b: seq<T>, s: int, c: int)
    requires Holds(x, a, start, end, b)
    requires 0 <= s < end - start && 0 <= c < end - start
    ensures |b| == end - start && |x| == |a| && 0 <= start <= end <= |a|
    ensures Holds(Swapped(x, start + s, start + c), a, start, end, Swapped(b, s, c))
  {
  }

  lemma ExchangedBlocks<T>(x: seq<T>, a: seq<T>, start: int, mid: int, end: int, b: seq<T>)
    requires 0 <= start <= mid <= end && Holds(x, a, start, end, b)
    requires b == a[start..end][mid - start..] + a[start..end][..mid - start]
    ensures end <= |a| && x == Exchanged(a, start, mid, end)
  {
    assert a[start..end][mid - start..] == a[mid..end];
    assert a[start..end][..mid - start] == a[start..mid];
  }

  /** One cycle: the inner loop of `permute_args`. */
  method WalkCycle<T>(a: array<T>, start: int, mid: int, end: int, i: int, ncycle: int, cyclelen: int,
                      ghost a0: seq<T>, ghost b0: seq<T>, ghost b1: seq<T>, ghost cyc: seq<int>, ghost rank: seq<int>)
      returns (ghost b: seq<T>)
    requires 0 <= start < mid < end <= a.Length && 0 <= i < ncycle
    requires CycleMap(cyc, rank, mid - start, end - mid, ncycle, cyclelen)
    requires Holds(a[..], a0, start, end, b1)
    requires Settled(b1, b0, mid - start, end - mid, cyc, i)
    modifies a
    ensures Holds(a[..], a0, start, end, b)
    ensures Settled(b, b0, mid - start, end - mid, cyc, i + 1)
  {
    hide Swapped, CycleMap, Walked, Settled, Holds;
    WalkBegins(b1, b0, mid - start, end - mid, cyc, rank, ncycle, cyclelen, i);
    var n1, n2 := mid - start, end - mid;
    b := b1;
    var cstart := mid + i;
    var pos := cstart;
    var j := 0;
    while j < cyclelen
      invariant 0 <= j <= cyclelen && start <= pos < end
      invariant Holds(a[..], a0, start, end, b)
      invariant Walked(b, b0, n1, n2, cyc, rank, cyclelen, i, j, pos - start)
    {
      ghost var s := Step(pos - start, n1, n2);
      WalkStep(b, b0, n1, n2, cyc, rank, ncycle, cyclelen, i, j, pos - start);
      if pos >= mid {
        pos := pos - n1;
      } else {
        pos := pos + n2;
      }
      assert pos == start + s && cstart == start + (n1 + i);
      HoldsSwap(a[..], a0, start, end, b, s, n1 + i);
      b := Swapped(b, s, n1 + i);
      Swap(a, pos, cstart);
      j := j + 1;
    }
    WalkEnds(b, b0, n1, n2, cyc, rank, ncycle, cyclelen, i, pos - start);
  }

  method PermuteArgs<T>(start: int, mid: int, end: int, a: array<T>)
    requires 0 <= start < mid < end <= a.Length
    modifies a
    ensures a[..] == Exchanged(old(a[..]), start, mid, end)
  {
    hide CycleLength, CycleMap, Settled, Holds, Exchanged, Gcd;
    ghost var a0 := a[..];
    var n1 := mid - start;
    var n2 := end - mid;
    var ncycle := ComputeGcd(n1, n2);
    var cyclelen := CycleLength(end - start, ncycle);
    ghost var cyc, rank := CyclesCover(n1, n2);
    ghost var b := a0[start..end];
    ghost var b0 := b;
    WalkStarts(b, n1, n2, cyc, rank, ncycle, cyclelen);
    assert Holds(a[..], a0, start, end, b) by { HoldsSelf(a0, start, end); }
    var i := 0;
    while i < ncycle
      invariant 0 <= i <= ncycle
      invariant Holds(a[..], a0, start, end, b)
      invariant Settled(b, b0, n1, n2, cyc, i)
    {
      b := WalkCycle(a, start, mid, end, i, ncycle, cyclelen, a0, b0, b, cyc, rank);
      i := i + 1;
    }
    AllSettled(b, b0, n1, n2, cyc, rank, ncycle, cyclelen);
    ExchangedBlocks(a[..], a0, start, mid, end, b);
  }
}
