/** How many instances a component should have, from the concurrency its instances report. */
module Scale {
  import opened ClusterTypes

  // ---------- load of a component ----------

  function MaxActivity(a: seq<real>): real {
    if a == [] then 0.0
    else var rest, v := MaxActivity(a[..|a| - 1]), a[|a| - 1]; if v > rest then v else rest
  }

  function SumActivity(a: seq<real>): real {
    if a == [] then 0.0 else SumActivity(a[..|a| - 1]) + a[|a| - 1]
  }

  function Average(a: seq<real>): real {
    if a == [] then 0.0 else SumActivity(a) / (|a| as real)
  }

  function SumMax(infos: seq<ComponentInfo>): real {
    if infos == [] then 0.0 else SumMax(infos[..|infos| - 1]) + MaxActivity(infos[|infos| - 1].activity)
  }

  function SumAvg(infos: seq<ComponentInfo>): real {
    if infos == [] then 0.0 else SumAvg(infos[..|infos| - 1]) + Average(infos[|infos| - 1].activity)
  }

  function SumLatest(infos: seq<ComponentInfo>): real {
    if infos == [] then 0.0
    else
      var a := infos[|infos| - 1].activity;
      SumLatest(infos[..|infos| - 1]) + if a == [] then 0.0 else a[0]
  }

  // ---------- what these loads are ----------

  /** The maximum is 0 or one of the values, and no value exceeds it. */
  lemma {:induction false} MaxActivityIs(a: seq<real>)
    ensures MaxActivity(a) == 0.0 || MaxActivity(a) in a
    ensures 0.0 <= MaxActivity(a) && forall v | v in a :: v <= MaxActivity(a)
  {
    if a != [] {
      var n := |a| - 1;
      MaxActivityIs(a[..n]);
      assert a == a[..n] + [a[n]];
    }
  }

  /** Summing is additive, and one value sums to itself. */
  lemma {:induction false} SumActivityIs(a: seq<real>, b: seq<real>, v: real)
    ensures SumActivity(a + b) == SumActivity(a) + SumActivity(b) && SumActivity([v]) == v
  {
    assert [v][..0] == [];
    if b == [] {
      assert a + b == a;
    } else {
      assert (a + b)[..|a + b| - 1] == a + b[..|b| - 1];
      SumActivityIs(a, b[..|b| - 1], v);
    }
  }

  /** The average, once for every value, is the sum; without values it is 0. */
  lemma AverageIs(a: seq<real>)
    ensures Average(a) * (|a| as real) == SumActivity(a) && (a == [] ==> Average(a) == 0.0)
  {
  }

  /** The loads of a component add up over its instances. */
  lemma {:induction false} LoadsAddUp(s: seq<ComponentInfo>, t: seq<ComponentInfo>, ci: ComponentInfo)
    ensures SumMax(s + t) == SumMax(s) + SumMax(t) && SumMax([ci]) == MaxActivity(ci.activity)
    ensures SumAvg(s + t) == SumAvg(s) + SumAvg(t) && SumAvg([ci]) == Average(ci.activity)
    ensures SumLatest(s + t) == SumLatest(s) + SumLatest(t)
    ensures SumLatest([ci]) == if ci.activity == [] then 0.0 else ci.activity[0]
  {
    assert [ci][..0] == [];
    if t == [] {
      assert s + t == s;
    } else {
      assert (s + t)[..|s + t| - 1] == s + t[..|t| - 1];
      LoadsAddUp(s, t[..|t| - 1], ci);
    }
  }

  ghost predicate Quiet(ci: ComponentInfo) { forall i | 0 <= i < |ci.activity| :: ci.activity[i] == 0.0 }

  /** Without activity there is no load. */
  lemma {:induction false} NoLoad(infos: seq<ComponentInfo>)
    requires forall ci | ci in infos :: Quiet(ci)
    ensures SumMax(infos) == 0.0 && SumAvg(infos) == 0.0
  {
    if infos != [] {
      var n := |infos| - 1;
      NoLoad(infos[..n]);
      assert infos == infos[..n] + [infos[n]];
      assert infos[n] in infos;
      MaxActivityIs(infos[n].activity);
      ZeroSum(infos[n].activity);
    }
  }

  lemma {:induction false} ZeroSum(a: seq<real>)
    requires forall i | 0 <= i < |a| :: a[i] == 0.0
    ensures SumActivity(a) == 0.0
  {
    if a != [] {
      ZeroSum(a[..|a| - 1]);
    }
  }

  datatype SumConcurrency = SumConcurrency(instances: nat, sumMax: real, sumLatest: real, sumAvg: real)

  method SumMaxConcurrency(infos: seq<ComponentInfo>) returns (r: SumConcurrency)
    ensures r == SumConcurrency(|infos|, SumMax(infos), SumLatest(infos), SumAvg(infos))
    ensures 0.0 <= r.sumMax && r.sumAvg <= r.sumMax
  {
    var sumMax, sumLatest, sumAvg := 0.0, 0.0, 0.0;
    for i := 0 to |infos|
      invariant sumMax == SumMax(infos[..i]) && sumAvg == SumAvg(infos[..i])
      invariant sumLatest == SumLatest(infos[..i])
    {
      assert infos[..i + 1][..i] == infos[..i];
      var a := infos[i].activity;
      if |a| > 0 {
        var maxVal, total := 0.0, 0.0;
        sumLatest := sumLatest + a[0];
        for j := 0 to |a|
          invariant maxVal == MaxActivity(a[..j]) && total == SumActivity(a[..j])
        {
          assert a[..j + 1][..j] == a[..j];
          if a[j] > maxVal {
            maxVal := a[j];
          }
          total := total + a[j];
        }
        assert a[..|a|] == a;
        sumMax := sumMax + maxVal;
        sumAvg := sumAvg + total / (|a| as real);
      }
    }
    assert infos[..|infos|] == infos;
    AverageAtMostMax(infos);
    r := SumConcurrency(|infos|, sumMax, sumLatest, sumAvg);
  }

  lemma {:induction false} ActivityBound(a: seq<real>)
    ensures MaxActivity(a) >= 0.0
    ensures SumActivity(a) <= (|a| as real) * MaxActivity(a)
  {
    if a != [] {
      var pre, v := a[..|a| - 1], a[|a| - 1];
      ActivityBound(pre);
      var n, m := |pre| as real, MaxActivity(a);
      assert n * MaxActivity(pre) <= n * m;
      assert (|a| as real) * m == n * m + m;
    }
  }

  lemma {:induction false} AverageAtMostMax(infos: seq<ComponentInfo>)
    ensures 0.0 <= SumMax(infos) && SumAvg(infos) <= SumMax(infos)
  {
    if infos != [] {
      AverageAtMostMax(infos[..|infos| - 1]);
      var a := infos[|infos| - 1].activity;
      ActivityBound(a);
      if a != [] {
        DivideBound(SumActivity(a), |a| as real, MaxActivity(a));
      }
    }
  }

  lemma DivideBound(x: real, d: real, m: real)
    requires d > 0.0
    ensures x <= d * m <==> x / d <= m
  {
    var q := x / d;
    assert q * d == x;
    if q <= m {
      assert q * d <= m * d;
    } else {
      assert q * d > m * d;
    }
  }

  // ---------- the decision ----------

  function Ceil(x: real): int { -((-x).Floor) }

  datatype ScaleInput = ScaleInput(maxConcurrency: int, minInst: int, maxInst: int, down: real, up: real)

  predicate ValidInput(s: ScaleInput) {
    s.maxConcurrency >= 1 && s.down > 0.0 && s.up > 0.0
  }

  /** The concurrency that n instances can serve, and that one instance serves at the scale-up mark. */
  function Capacity(n: int, s: ScaleInput): real { (n as real) * (s.maxConcurrency as real) }

  function UpMark(s: ScaleInput): real { (s.maxConcurrency as real) * s.up }

  lemma PositiveMarks(n: int, s: ScaleInput)
    requires ValidInput(s)
    ensures UpMark(s) > 0.0
    ensures n > 0 ==> Capacity(n, s) > 0.0
  {
  }

  function Unclamped(n: nat, avg: real, max: real, s: ScaleInput): int
    requires ValidInput(s)
  {
    PositiveMarks(n, s);
    if n == 0 then 0
    else if avg / Capacity(n, s) > s.up then Ceil(avg / UpMark(s))
    else if max / Capacity(n, s) < s.down then Ceil(max / UpMark(s))
    else n
  }

  function Clamp(t: int, minInst: int, maxInst: int): int {
    var t := if t < minInst then minInst else t;
    if t > maxInst && maxInst > 0 && maxInst >= minInst then maxInst else t
  }

  function Decide(n: nat, avg: real, max: real, s: ScaleInput): int
    requires ValidInput(s)
  {
    Clamp(Unclamped(n, avg, max, s), s.minInst, s.maxInst)
  }

  method CalcScaleTarget(infos: seq<ComponentInfo>, s: ScaleInput) returns (target: int)
    requires ValidInput(s)
    ensures target == Decide(|infos|, SumAvg(infos), SumMax(infos), s)
    ensures target >= 0 && (s.minInst >= 1 ==> target >= 1)
  {
    var sums := SumMaxConcurrency(infos);
    target := UnclampedTarget(sums, s);
    UnclampedNonNegative(|infos|, SumAvg(infos), SumMax(infos), s);
    if target < s.minInst {
      target := s.minInst;
    }
    if target > s.maxInst && s.maxInst > 0 && s.maxInst >= s.minInst {
      target := s.maxInst;
    }
  }

  method UnclampedTarget(sums: SumConcurrency, s: ScaleInput) returns (target: int)
    requires ValidInput(s)
    ensures target == Unclamped(sums.instances, sums.sumAvg, sums.sumMax, s)
  {
    target := sums.instances;
    if sums.instances > 0 {
      PositiveMarks(sums.instances, s);
      if sums.sumAvg / Capacity(sums.instances, s) > s.up {
        target := Ceil(sums.sumAvg / UpMark(s));
      } else if sums.sumMax / Capacity(sums.instances, s) < s.down {
        target := Ceil(sums.sumMax / UpMark(s));
      }
    }
  }

  // ---------- properties of the decision ----------

  /** The load at which n instances reach the scale-up, respectively scale-down, percentage. */
  function High(n: int, s: ScaleInput): real { (n as real) * UpMark(s) }

  function Low(n: int, s: ScaleInput): real { (n as real) * ((s.maxConcurrency as real) * s.down) }

  lemma DivideGreater(x: real, d: real, u: real)
    requires d > 0.0
    ensures x / d > u <==> x > u * d
    ensures x / d < u <==> x < u * d
  {
    var q := x / d;
    assert q * d == x;
    if q > u {
      assert q * d > u * d;
    } else if q < u {
      assert q * d < u * d;
    }
  }

  lemma UpMeaning(n: int, avg: real, s: ScaleInput)
    requires ValidInput(s) && n > 0
    ensures Capacity(n, s) > 0.0 && (avg / Capacity(n, s) > s.up <==> avg > High(n, s))
  {
    PositiveMarks(n, s);
    DivideGreater(avg, Capacity(n, s), s.up);
    Reorder(n as real, s.maxConcurrency as real, s.up);
  }

  lemma DownMeaning(n: int, max: real, s: ScaleInput)
    requires ValidInput(s) && n > 0
    ensures Capacity(n, s) > 0.0 && (max / Capacity(n, s) < s.down <==> max < Low(n, s))
  {
    PositiveMarks(n, s);
    DivideGreater(max, Capacity(n, s), s.down);
    Reorder(n as real, s.maxConcurrency as real, s.down);
  }

  lemma Reorder(a: real, b: real, c: real)
    ensures c * (a * b) == a * (b * c)
  {
  }

  lemma CeilMeaning(x: real, k: real)
    requires k > 0.0
    ensures var t := Ceil(x / k); ((t - 1) as real) * k < x <= (t as real) * k
  {
    var q := x / k;
    var t := Ceil(q);
    assert (t as real) >= q > (t as real) - 1.0;
    assert q * k == x;
    assert (t as real) * k >= q * k;
    assert (t - 1) as real == t as real - 1.0;
    assert ((t - 1) as real) * k < q * k;
  }

  /** n instances are enough for the load when each serves that much of it. */
  ghost predicate Covers(n: int, each: real, load: real) { load <= (n as real) * each }

  ghost predicate LeastCovering(t: int, each: real, load: real) {
    Covers(t, each, load) && forall u | Covers(u, each, load) :: t <= u
  }

  lemma CeilCovers(load: real, each: real)
    requires each > 0.0
    ensures LeastCovering(Ceil(load / each), each, load)
  {
    var t := Ceil(load / each);
    CeilMeaning(load, each);
    forall u | Covers(u, each, load) ensures t <= u {
      Proportional(u, t - 1, each);
    }
  }

  lemma HighMonotone(m: int, n: int, s: ScaleInput)
    requires ValidInput(s)
    ensures High(m, s) <= High(n, s) <==> m <= n
  {
    PositiveMarks(1, s);
    Proportional(m, n, UpMark(s));
  }

  lemma Proportional(m: int, n: int, k: real)
    requires k > 0.0
    ensures (m as real) * k <= (n as real) * k <==> m <= n
  {
    if m > n {
      assert (m as real) * k > (n as real) * k;
    }
  }

  lemma LowBelowHigh(n: nat, s: ScaleInput)
    requires ValidInput(s) && s.down <= s.up
    ensures Low(n, s) <= High(n, s)
  {
    var m := s.maxConcurrency as real;
    assert m * s.down <= m * s.up;
  }

  /** The three branches, with the marks as plain numbers. */
  ghost predicate Branches(n: nat, t: int, avg: real, max: real, high: int -> real, low: int -> real) {
    if n == 0 then t == 0
    else if avg > high(n) then high(t - 1) < avg <= high(t)
    else if max < low(n) then high(t - 1) < max <= high(t)
    else t == n
  }

  ghost predicate Marks(high: int -> real, low: int -> real) {
    && (forall m, n :: high(m) <= high(n) <==> m <= n)
    && (forall n | n >= 0 :: low(n) <= high(n))
    && (forall m, n | m <= n :: low(m) <= low(n))
    && high(0) == 0.0
  }

  lemma UnclampedBranches(n: nat, avg: real, max: real, s: ScaleInput, high: int -> real, low: int -> real)
    requires ValidInput(s)
    requires forall i :: high(i) == High(i, s) && low(i) == Low(i, s)
    ensures Branches(n, Unclamped(n, avg, max, s), avg, max, high, low)
  {
    if n > 0 {
      UpMeaning(n, avg, s);
      DownMeaning(n, max, s);
      CeilMeaning(avg, UpMark(s));
      CeilMeaning(max, UpMark(s));
    }
  }

  /** t serves the load in question with the fewest instances, or keeps n. */
  ghost predicate LeastNeeded(n: nat, avg: real, max: real, s: ScaleInput, t: int) {
    if n > 0 && avg > High(n, s) then LeastCovering(t, UpMark(s), avg)
    else if n > 0 && max < Low(n, s) then LeastCovering(t, UpMark(s), max)
    else t == n
  }

  /** The number before clamping is the least one that serves the load in question. */
  lemma UnclampedCovers(n: nat, avg: real, max: real, s: ScaleInput)
    requires ValidInput(s)
    ensures LeastNeeded(n, avg, max, s, Unclamped(n, avg, max, s))
  {
    PositiveMarks(n, s);
    CeilCovers(avg, UpMark(s));
    CeilCovers(max, UpMark(s));
    if n > 0 {
      UpMeaning(n, avg, s);
      DownMeaning(n, max, s);
    }
  }

  lemma RealMarks(s: ScaleInput, high: int -> real, low: int -> real)
    requires ValidInput(s) && s.down <= s.up
    requires forall i :: high(i) == High(i, s) && low(i) == Low(i, s)
    ensures Marks(high, low)
  {
    forall m, n
      ensures high(m) <= high(n) <==> m <= n
    {
      HighMonotone(m, n, s);
    }
    forall n: nat
      ensures low(n) <= high(n)
    {
      LowBelowHigh(n, s);
    }
    forall m, n | m <= n
      ensures low(m) <= low(n)
    {
      LowMonotone(m, n, s);
    }
  }

  lemma LowMonotone(m: int, n: int, s: ScaleInput)
    requires ValidInput(s) && m <= n
    ensures Low(m, s) <= Low(n, s)
  {
    var k := (s.maxConcurrency as real) * s.down;
    assert k > 0.0;
    Proportional(m, n, k);
  }

  /** Deciding again, from the number decided for the same load, changes nothing. */
  lemma StableMarks(n: nat, t: int, t2: int, avg: real, max: real, high: int -> real, low: int -> real, lo: int,
                    hi: int)
    requires Marks(high, low) && avg <= max && 0.0 <= max && (n == 0 ==> max == 0.0)
    requires Branches(n, t, avg, max, high, low)
    requires Clamp(t, lo, hi) >= 0 && Branches(Clamp(t, lo, hi), t2, avg, max, high, low)
    ensures Clamp(t2, lo, hi) == Clamp(t, lo, hi)
  {
    var c := Clamp(t, lo, hi);
    if c > 0 {
      if avg > high(c) {
        assert t > c;
        assert t2 > c;
      } else if max < low(c) {
        assert t2 <= c;
        assert high(t2) < high(c) || t2 == c;
      }
    }
  }

  /** The scaling decision is stable: under the same load it repeats itself, through every
      branch and both clamps. */
  lemma DecisionStable(n: nat, avg: real, max: real, s: ScaleInput)
    requires ValidInput(s) && s.down <= s.up && avg <= max && 0.0 <= max
    requires n == 0 ==> max == 0.0
    ensures var t := Decide(n, avg, max, s); t >= 0 && Decide(t, avg, max, s) == t
  {
    var high, low := (i: int) => High(i, s), (i: int) => Low(i, s);
    var t := Unclamped(n, avg, max, s);
    RealMarks(s, high, low);
    UnclampedNonNegative(n, avg, max, s);
    UnclampedBranches(n, avg, max, s, high, low);
    UnclampedBranches(Decide(n, avg, max, s), avg, max, s, high, low);
    StableMarks(n, t, Unclamped(Decide(n, avg, max, s), avg, max, s), avg, max, high, low, s.minInst, s.maxInst);
  }

  lemma DirectionMarks(n: nat, t: int, avg: real, max: real, high: int -> real, low: int -> real)
    requires Marks(high, low) && n > 0 && avg <= max && 0.0 <= max
    requires Branches(n, t, avg, max, high, low)
    ensures t >= 0
    ensures if avg > high(n) then t > n else t <= n
  {
    if avg > high(n) {
      assert high(n) < high(t);
    } else if max < low(n) {
      assert high(t - 1) < high(n);
      assert high(0) <= high(t);
    }
  }

  /** Before clamping, the scale-up branch asks for more instances than run now, and no other
      branch does. */
  lemma BranchDirection(n: nat, avg: real, max: real, s: ScaleInput)
    requires ValidInput(s) && s.down <= s.up && n > 0 && avg <= max && 0.0 <= max
    ensures avg > High(n, s) <==> Unclamped(n, avg, max, s) > n
  {
    var high, low := (i: int) => High(i, s), (i: int) => Low(i, s);
    RealMarks(s, high, low);
    UnclampedBranches(n, avg, max, s, high, low);
    DirectionMarks(n, Unclamped(n, avg, max, s), avg, max, high, low);
  }

  lemma UnclampedNonNegative(n: nat, avg: real, max: real, s: ScaleInput)
    requires ValidInput(s) && avg <= max && 0.0 <= max
    ensures Unclamped(n, avg, max, s) >= 0
  {
    if n > 0 {
      PositiveMarks(n, s);
      UpMeaning(n, avg, s);
      CeilMeaning(avg, UpMark(s));
      CeilMeaning(max, UpMark(s));
      HighMonotone(0, n, s);
      HighMonotone(0, Ceil(avg / UpMark(s)), s);
      HighMonotone(0, Ceil(max / UpMark(s)), s);
    }
  }

  // ---------- exactly when the decision is stable ----------

  /** The upper bound applies: it is positive and not below the lower one. */
  predicate Capped(s: ScaleInput) { s.maxInst > 0 && s.maxInst >= s.minInst }

  /** The bounds leave no room to drift in: at most two instances, or one fixed number. */
  predicate Narrow(s: ScaleInput) { Capped(s) && (s.maxInst <= 2 || s.maxInst == s.minInst) }

  /** With the percentages inverted and m instances within the bounds but not the most allowed,
      the decision is not stable: the scale-up branch asks for m instances, and at m instances
      the scale-down branch asks for more. */
  lemma InvertedUnstable(s: ScaleInput, m: nat, avg: real, max: real)
    requires ValidInput(s) && m >= 2 && s.minInst <= m && (Capped(s) ==> m < s.maxInst)
    requires avg == High(m, s) && High(m, s) < max < Low(m, s)
    ensures avg <= max && Decide(1, avg, max, s) == m && Decide(m, avg, max, s) > m
  {
    AsksFor(m, avg, max, s);
    AsksForMore(m, avg, max, s);
  }

  /** Such loads exist for every inverted pair of percentages. */
  lemma InvertedGap(s: ScaleInput, m: nat)
    requires ValidInput(s) && s.down > s.up && m >= 1
    ensures 0.0 < High(m, s) < Low(m, s)
  {
    var k := s.maxConcurrency as real;
    assert k * s.up < k * s.down;
    PositiveMarks(m, s);
    var i := m as real;
    assert i * (k * s.up) < i * (k * s.down);
    assert i * UpMark(s) > 0.0;
  }

  /** Deciding again under the same load changes nothing. */
  ghost predicate StableAt(n: nat, avg: real, max: real, s: ScaleInput)
    requires ValidInput(s)
  {
    var t := Decide(n, avg, max, s);
    t >= 0 && Decide(t, avg, max, s) == t
  }

  ghost predicate Load(n: nat, avg: real, max: real) {
    avg <= max && 0.0 <= max && (n == 0 ==> max == 0.0)
  }

  /** Marks that rise with the number of instances, whichever is the higher. */
  ghost predicate Rising(high: int -> real, low: int -> real) {
    && (forall m, n :: high(m) <= high(n) <==> m <= n)
    && (forall m, n :: low(m) <= low(n) <==> m <= n)
    && high(0) == 0.0 && low(0) == 0.0
  }

  lemma RisingMarks(s: ScaleInput, high: int -> real, low: int -> real)
    requires ValidInput(s)
    requires forall i :: high(i) == High(i, s) && low(i) == Low(i, s)
    ensures Rising(high, low)
  {
    var k := (s.maxConcurrency as real) * s.down;
    assert k > 0.0;
    forall m, n
      ensures high(m) <= high(n) <==> m <= n
      ensures low(m) <= low(n) <==> m <= n
    {
      HighMonotone(m, n, s);
      Proportional(m, n, k);
    }
  }

  lemma NarrowMarks(n: nat, t: int, t2: int, avg: real, max: real, high: int -> real, low: int -> real, lo: int,
                    hi: int)
    requires Rising(high, low) && Load(n, avg, max) && t >= 0 && t2 >= 0
    requires 0 < hi && lo <= hi && (hi <= 2 || hi == lo)
    requires Branches(n, t, avg, max, high, low)
    requires Clamp(t, lo, hi) >= 0 && Branches(Clamp(t, lo, hi), t2, avg, max, high, low)
    ensures Clamp(t2, lo, hi) == Clamp(t, lo, hi)
  {
    var c := Clamp(t, lo, hi);
    if max == 0.0 {
      assert low(0) < low(1) && (n > 0 ==> low(1) <= low(n)) && (c > 0 ==> low(1) <= low(c));
    } else if c == 1 {
      assert high(1) <= high(2);
    }
  }

  lemma NarrowStable(n: nat, avg: real, max: real, s: ScaleInput)
    requires ValidInput(s) && Narrow(s) && Load(n, avg, max)
    ensures StableAt(n, avg, max, s)
  {
    var high, low := (i: int) => High(i, s), (i: int) => Low(i, s);
    var t := Unclamped(n, avg, max, s);
    RisingMarks(s, high, low);
    UnclampedNonNegative(n, avg, max, s);
    UnclampedBranches(n, avg, max, s, high, low);
    var c := Decide(n, avg, max, s);
    UnclampedNonNegative(c, avg, max, s);
    UnclampedBranches(c, avg, max, s, high, low);
    NarrowMarks(n, t, Unclamped(c, avg, max, s), avg, max, high, low, s.minInst, s.maxInst);
  }

  lemma WideUnstable(s: ScaleInput) returns (avg: real, max: real)
    requires ValidInput(s) && s.down > s.up && !Narrow(s)
    ensures Load(1, avg, max) && !StableAt(1, avg, max, s)
  {
    var m := if s.minInst > 2 then s.minInst else 2;
    InvertedGap(s, m);
    avg := High(m, s);
    max := (High(m, s) + Low(m, s)) / 2.0;
    InvertedUnstable(s, m, avg, max);
  }

  /** The decision is stable under every load exactly if the scale-down percentage does not
      exceed the scale-up percentage, or the bounds on the instances leave no room to drift in. */
  lemma StableIff(s: ScaleInput)
    requires ValidInput(s)
    ensures (forall n: nat, avg, max | Load(n, avg, max) :: StableAt(n, avg, max, s)) <==> s.down <= s.up || Narrow(s)
  {
    if s.down <= s.up || Narrow(s) {
      forall n: nat, avg, max | Load(n, avg, max) ensures StableAt(n, avg, max, s) {
        if s.down <= s.up {
          DecisionStable(n, avg, max, s);
        } else {
          NarrowStable(n, avg, max, s);
        }
      }
    } else {
      var avg, max := WideUnstable(s);
    }
  }

  lemma AsksFor(m: nat, avg: real, max: real, s: ScaleInput)
    requires ValidInput(s) && m >= 2 && avg == High(m, s)
    ensures Unclamped(1, avg, max, s) == m
  {
    UpMeaning(1, avg, s);
    HighMonotone(m, 1, s);
    PositiveMarks(1, s);
    CeilMeaning(avg, UpMark(s));
    var t := Ceil(avg / UpMark(s));
    HighMonotone(m, t - 1, s);
    HighMonotone(m, t, s);
  }

  lemma AsksForMore(m: nat, avg: real, max: real, s: ScaleInput)
    requires ValidInput(s) && m >= 2 && avg == High(m, s) && High(m, s) < max < Low(m, s)
    ensures Unclamped(m, avg, max, s) > m
  {
    UpMeaning(m, avg, s);
    DownMeaning(m, max, s);
    PositiveMarks(m, s);
    CeilMeaning(max, UpMark(s));
    HighMonotone(Ceil(max / UpMark(s)), m, s);
  }
}
