/** K-best sampling: keep the kbest smallest times seen, sorted, until they agree. */
module Sampler {
  ghost predicate Sorted(s: seq<real>) {
    forall i, j :: 0 <= i < j < |s| ==> s[i] <= s[j]
  }

  /** v goes left past everything greater. */
  function Placed(s: seq<real>, v: real): (r: seq<real>)
    ensures |r| == |s| + 1
  {
    if s == [] || s[|s| - 1] <= v then s + [v] else Placed(s[..|s| - 1], v) + [s[|s| - 1]]
  }

  function Sort(samples: seq<real>): (r: seq<real>)
    ensures |r| == |samples|
  {
    if samples == [] then [] else Placed(Sort(samples[..|samples| - 1]), samples[|samples| - 1])
  }

  /** The k smallest samples, in order. */
  function Best(samples: seq<real>, k: nat): (r: seq<real>)
    ensures |r| == if |samples| < k then |samples| else k
  {
    if |samples| < k then Sort(samples) else Sort(samples)[..k]
  }

  lemma {:induction false} PlacedContents(s: seq<real>, v: real)
    ensures multiset(Placed(s, v)) == multiset(s) + multiset{v}
  {
    if s != [] && s[|s| - 1] > v {
      PlacedContents(s[..|s| - 1], v);
      assert s == s[..|s| - 1] + [s[|s| - 1]];
    }
  }

  lemma {:induction false} PlacedBelow(s: seq<real>, v: real, x: real)
    requires v <= x && forall i :: 0 <= i < |s| ==> s[i] <= x
    ensures forall i :: 0 <= i < |s| + 1 ==> Placed(s, v)[i] <= x
  {
    if s != [] && s[|s| - 1] > v {
      PlacedBelow(s[..|s| - 1], v, x);
    }
  }

  lemma {:induction false} PlacedSorted(s: seq<real>, v: real)
    requires Sorted(s)
    ensures Sorted(Placed(s, v))
  {
    if s != [] && s[|s| - 1] > v {
      PlacedSorted(s[..|s| - 1], v);
      PlacedBelow(s[..|s| - 1], v, s[|s| - 1]);
    }
  }

  /** Sort yields a sorted permutation. */
  lemma {:induction false} SortSorts(samples: seq<real>)
    ensures Sorted(Sort(samples)) && multiset(Sort(samples)) == multiset(samples)
  {
    if samples != [] {
      var rest := samples[..|samples| - 1];
      SortSorts(rest);
      PlacedSorted(Sort(rest), samples[|samples| - 1]);
      PlacedContents(Sort(rest), samples[|samples| - 1]);
      assert samples == rest + [samples[|samples| - 1]];
    }
  }

  /** Best keeps, in order, as many samples as it may, each at most every sample left out. */
  lemma BestIsSmallest(samples: seq<real>, k: nat)
    ensures var b := Best(samples, k);
      var out := Sort(samples)[|b|..];
      && Sorted(b)
      && multiset(samples) == multiset(b) + multiset(out)
      && forall x, y :: x in b && y in out ==> x <= y
  {
    SortSorts(samples);
    var b := Best(samples, k);
    assert Sort(samples) == b + Sort(samples)[|b|..];
  }

  /** The first of the best is the least sample. */
  lemma BestIsLeast(samples: seq<real>, k: nat)
    requires k > 0 && samples != []
    ensures Best(samples, k)[0] in samples
    ensures forall x :: x in samples ==> Best(samples, k)[0] <= x
  {
    SortSorts(samples);
    var s := Sort(samples);
    assert s[0] in multiset(s);
    forall x | x in samples
      ensures s[0] <= x
    {
      assert x in multiset(s);
    }
  }

  /** The k smallest of one sample more need only the k smallest so far. */
  lemma {:induction false} PlacedPrefix(s: seq<real>, v: real, k: nat)
    requires Sorted(s) && 0 < k <= |s|
    ensures Placed(s, v)[..k] == if v < s[k - 1] then Placed(s[..k - 1], v) else s[..k]
  {
    if s[|s| - 1] > v {
      var rest := s[..|s| - 1];
      if k < |s| {
        PlacedPrefix(rest, v, k);
        assert rest[..k - 1] == s[..k - 1] && rest[..k] == s[..k];
      }
    }
  }

  lemma BestStep(samples: seq<real>, v: real, k: nat)
    requires k > 0
    ensures var b := Best(samples, k);
      Best(samples + [v], k) == if |samples| < k then Placed(b, v)
                                else if v < b[k - 1] then Placed(b[..k - 1], v)
                                else b
  {
    assert (samples + [v])[..|samples|] == samples;
    SortSorts(samples);
    if |samples| >= k {
      PlacedPrefix(Sort(samples), v, k);
      assert Sort(samples)[..k][..k - 1] == Sort(samples)[..k - 1];
    } else {
      assert Placed(Sort(samples), v)[..|samples| + 1] == Placed(Sort(samples), v);
    }
  }

  /** Have the k best agreed to within epsilon? */
  predicate Converged(samples: seq<real>, k: nat, epsilon: real)
    requires k > 0
  {
    |samples| >= k && (1.0 + epsilon) * Best(samples, k)[0] >= Best(samples, k)[k - 1]
  }

  /** How many samples are at most bound. */
  function CountUpTo(samples: seq<real>, bound: real): nat {
    if samples == [] then 0
    else CountUpTo(samples[..|samples| - 1], bound) + if samples[|samples| - 1] <= bound then 1 else 0
  }

  ghost predicate IsLeast(samples: seq<real>, m: real) {
    m in samples && forall x :: x in samples ==> m <= x
  }

  function Bound(m: real, epsilon: real): real { (1.0 + epsilon) * m }

  /** At least k of the samples lie within the factor 1 + epsilon of the least. */
  ghost predicate Agreed(samples: seq<real>, k: nat, epsilon: real) {
    exists m :: IsLeast(samples, m) && CountUpTo(samples, Bound(m, epsilon)) >= k
  }

  lemma AgreedByLeast(samples: seq<real>, m: real, k: nat, epsilon: real)
    requires IsLeast(samples, m)
    ensures Agreed(samples, k, epsilon) <==> CountUpTo(samples, Bound(m, epsilon)) >= k
  {
    if x :| IsLeast(samples, x) && CountUpTo(samples, Bound(x, epsilon)) >= k {
      assert x == m;
    }
  }

  lemma {:induction false} CountPlaced(s: seq<real>, v: real, bound: real)
    ensures CountUpTo(Placed(s, v), bound) == CountUpTo(s, bound) + if v <= bound then 1 else 0
  {
    if s == [] || s[|s| - 1] <= v {
      assert (s + [v])[..|s|] == s;
    } else {
      CountPlaced(s[..|s| - 1], v, bound);
      assert Placed(s, v)[..|s|] == Placed(s[..|s| - 1], v);
    }
  }

  lemma {:induction false} CountSorted(samples: seq<real>, bound: real)
    ensures CountUpTo(Sort(samples), bound) == CountUpTo(samples, bound)
  {
    if samples != [] {
      CountSorted(samples[..|samples| - 1], bound);
      CountPlaced(Sort(samples[..|samples| - 1]), samples[|samples| - 1], bound);
    }
  }

  lemma {:induction false} CountsAll(s: seq<real>, bound: real)
    requires forall i :: 0 <= i < |s| ==> s[i] <= bound
    ensures CountUpTo(s, bound) == |s|
  {
    if s != [] {
      CountsAll(s[..|s| - 1], bound);
    }
  }

  /** In a sorted sequence at least k are at most bound exactly when the k-th is. */
  lemma {:induction false} CountOrdered(s: seq<real>, bound: real, k: nat)
    requires Sorted(s) && k > 0
    ensures CountUpTo(s, bound) <= |s|
    ensures CountUpTo(s, bound) >= k <==> |s| >= k && s[k - 1] <= bound
  {
    if s != [] {
      var rest := s[..|s| - 1];
      CountOrdered(rest, bound, k);
      if k == |s| && s[k - 1] <= bound {
        CountsAll(rest, bound);
      }
    }
  }

  /** At least k samples are at most bound exactly when the k-th best is. */
  lemma CountsBest(samples: seq<real>, k: nat, bound: real)
    requires k > 0
    ensures CountUpTo(samples, bound) >= k <==> |samples| >= k && Best(samples, k)[k - 1] <= bound
  {
    SortSorts(samples);
    CountSorted(samples, bound);
    CountOrdered(Sort(samples), bound, k);
  }

  /** The k best agree exactly when k of all samples lie within the factor of the least. */
  lemma ConvergedExactly(samples: seq<real>, k: nat, epsilon: real)
    requires k > 0
    ensures Converged(samples, k, epsilon) <==> Agreed(samples, k, epsilon)
  {
    if samples != [] {
      BestIsLeast(samples, k);
      var m := Best(samples, k)[0];
      AgreedByLeast(samples, m, k, epsilon);
      CountsBest(samples, k, Bound(m, epsilon));
    }
  }

  /** The first c measured times. */
  function Times(time: nat -> real, c: nat): (r: seq<real>)
    ensures |r| == c && forall i :: 0 <= i < c ==> r[i] == time(i)
  {
    if c == 0 then [] else Times(time, c - 1) + [time(c - 1)]
  }

  /** val at place pos of p, on its way left. */
  function At(p: seq<real>, val: real, pos: nat): (r: seq<real>)
    requires pos <= |p|
    ensures |r| == |p| + 1
  {
    p[..pos] + [val] + p[pos..]
  }

  lemma AtStep(p: seq<real>, val: real, pos: nat)
    requires 0 < pos <= |p|
    ensures var a := At(p, val, pos);
      && a[pos - 1] == p[pos - 1] && a[pos] == val
      && At(p, val, pos - 1) == a[pos - 1 := a[pos]][pos := a[pos - 1]]
  {
  }

  lemma PlacedStep(p: seq<real>, val: real, pos: nat)
    requires 0 < pos <= |p| && p[pos - 1] > val
    ensures Placed(p[..pos], val) + p[pos..] == Placed(p[..pos - 1], val) + p[pos - 1..]
  {
    assert p[..pos][..pos - 1] == p[..pos - 1];
    assert p[pos - 1..] == [p[pos - 1]] + p[pos..];
  }

  lemma PlacedStops(p: seq<real>, val: real, pos: nat)
    requires pos <= |p| && (pos > 0 ==> p[pos - 1] <= val)
    ensures Placed(p[..pos], val) + p[pos..] == At(p, val, pos)
  {
  }

  class Sampler {
    const values: array<real>
    const kbest: nat
    var samplecount: nat
    ghost var samples: seq<real>

    ghost predicate Valid()
      reads this, values
    {
      && kbest > 0 && values.Length == kbest
      && samplecount == |samples|
      && values[..if samplecount < kbest then samplecount else kbest] == Best(samples, kbest)
    }

    constructor (kbest: nat)
      requires kbest > 0
      ensures Valid() && samples == [] && fresh(values) && this.kbest == kbest
    {
      this.kbest := kbest;
      values := new real[kbest](_ => 0.0);
      samplecount := 0;
      samples := [];
    }

    /** The insertion sort: val, kept after the others in p, moves left to its place. */
    method Sift(last: nat, ghost p: seq<real>, ghost val: real, ghost kept: bool)
      requires values.Length == kbest > 0
      requires kept ==> last == |p| < kbest && values[..|p| + 1] == p + [val]
      requires !kept ==> last == 0
      modifies values
      ensures kept ==> values[..|p| + 1] == Placed(p, val)
      ensures !kept ==> values[..] == old(values[..])
    {
      var pos: nat := last;
      assert kept ==> p[..pos] == p && values[..|p| + 1] == At(p, val, pos);
      while pos > 0 && values[pos - 1] > values[pos]
        invariant kept ==> pos <= |p| < kbest && values[..|p| + 1] == At(p, val, pos)
        invariant kept ==> Placed(p[..pos], val) + p[pos..] == Placed(p, val)
        invariant !kept ==> pos == 0 && values[..] == old(values[..])
      {
        ghost var a := values[..|p| + 1];
        AtStep(p, val, pos);
        assert values[pos - 1] == a[pos - 1] && values[pos] == a[pos];
        PlacedStep(p, val, pos);
        var temp := values[pos - 1];
        values[pos - 1] := values[pos];
        values[pos] := temp;
        assert values[..|p| + 1] == a[pos - 1 := a[pos]][pos := a[pos - 1]];
        pos := pos - 1;
      }
      if kept {
        ghost var a := values[..|p| + 1];
        if pos > 0 { AtStep(p, val, pos); assert values[pos - 1] == a[pos - 1] && values[pos] == a[pos]; }
        PlacedStops(p, val, pos);
      }
    }

    method AddSample(val: real)
      requires Valid()
      modifies this, values
      ensures Valid() && samples == old(samples) + [val]
    {
      var pos := 0;
      BestStep(samples, val, kbest);
      ghost var kept := samplecount < kbest || val < values[kbest - 1];
      ghost var p := values[..if samplecount < kbest then samplecount else kbest - 1];
      if samplecount < kbest {
        pos := samplecount;
        values[pos] := val;
      } else if val < values[kbest - 1] {
        pos := kbest - 1;
        values[pos] := val;
      }
      assert old(samplecount) >= kbest ==> p == old(values[..kbest])[..kbest - 1];
      samplecount := samplecount + 1;
      assert kept ==> values[..|p| + 1] == p + [val];
      Sift(pos, p, val, kept);
      assert !kept ==> values[..kbest] == values[..] == old(values[..]) == old(values[..kbest]);
      samples := samples + [val];
    }

    function Least(): (r: real)
      requires Valid() && samplecount > 0
      reads this, values
      ensures r == Best(samples, kbest)[0]
    {
      assert values[0] == values[..if samplecount < kbest then samplecount else kbest][0];
      values[0]
    }

    method HasConverged(epsilon: real) returns (b: bool)
      requires Valid() && samplecount > 0
      ensures b <==> Converged(samples, kbest, epsilon)
    {
      b := samplecount >= kbest && (1.0 + epsilon) * values[0] >= values[kbest - 1];
    }
  }

  /** Sampling goes on after c samples. */
  predicate Continues(time: nat -> real, c: nat, k: nat, maxsamples: int, epsilon: real)
    requires k > 0
  {
    !Converged(Times(time, c), k, epsilon) && c < maxsamples
  }

  /** Sampling went on after each of the first c - 1 samples. */
  predicate Ran(time: nat -> real, c: nat, k: nat, maxsamples: int, epsilon: real)
    requires k > 0
  {
    c <= 1 || (Continues(time, c - 1, k, maxsamples, epsilon) && Ran(time, c - 1, k, maxsamples, epsilon))
  }

  lemma {:induction false} RanExactly(time: nat -> real, c: nat, k: nat, maxsamples: int, epsilon: real)
    requires k > 0 && Ran(time, c, k, maxsamples, epsilon)
    ensures forall i :: 0 < i < c ==> Continues(time, i, k, maxsamples, epsilon)
  {
    if c > 1 {
      RanExactly(time, c - 1, k, maxsamples, epsilon);
    }
  }

  /** Sampling ended after c samples and not before. */
  ghost predicate Stops(time: nat -> real, c: nat, k: nat, maxsamples: int, epsilon: real) {
    && (Agreed(Times(time, c), k, epsilon) || c >= maxsamples)
    && forall i :: 0 < i < c ==> !Agreed(Times(time, i), k, epsilon) && i < maxsamples
  }

  lemma StopsExactly(time: nat -> real, c: nat, k: nat, maxsamples: int, epsilon: real)
    requires k > 0 && Ran(time, c, k, maxsamples, epsilon) && !Continues(time, c, k, maxsamples, epsilon)
    ensures Stops(time, c, k, maxsamples, epsilon)
  {
    RanExactly(time, c, k, maxsamples, epsilon);
    ConvergedExactly(Times(time, c), k, epsilon);
    forall i | 0 < i < c
      ensures !Agreed(Times(time, i), k, epsilon) && i < maxsamples
    {
      ConvergedExactly(Times(time, i), k, epsilon);
      assert Continues(time, i, k, maxsamples, epsilon);
    }
  }

  /** The least of the first taken times. */
  ghost predicate LeastOf(time: nat -> real, taken: nat, r: real) {
    && (exists i: nat :: i < taken && r == time(i))
    && forall i: nat :: i < taken ==> r <= time(i)
  }

  lemma LeastTime(time: nat -> real, taken: nat, k: nat)
    requires k > 0 && taken > 0
    ensures LeastOf(time, taken, Best(Times(time, taken), k)[0])
  {
    var ts := Times(time, taken);
    var r := Best(ts, k)[0];
    BestIsLeast(ts, k);
    var j :| 0 <= j < |ts| && ts[j] == r;
    assert time(j) == r;
    forall i: nat | i < taken
      ensures r <= time(i)
    {
      assert ts[i] in ts;
    }
  }

  /** Takes one more sample; whether to go on. */
  method Measure(s: Sampler, time: nat -> real, maxsamples: int, epsilon: real) returns (more: bool)
    requires s.Valid() && s.samples == Times(time, s.samplecount)
    modifies s, s.values
    ensures s.Valid() && s.samplecount == old(s.samplecount) + 1 && s.samples == Times(time, s.samplecount)
    ensures more <==> Continues(time, s.samplecount, s.kbest, maxsamples, epsilon)
  {
    var cyc := time(s.samplecount);
    s.AddSample(cyc);
    var done := s.HasConverged(epsilon);
    more := !done && s.samplecount < maxsamples;
  }

  /** Measures until the kbest smallest times agree, or maxsamples were taken; the answer is the
      least time measured. */
  method Fcyc(time: nat -> real, kbest: nat, maxsamples: int, epsilon: real) returns (result: real, taken: nat)
    requires kbest > 0
    ensures taken > 0 && Stops(time, taken, kbest, maxsamples, epsilon)
    ensures LeastOf(time, taken, result)
  {
    var s := new Sampler(kbest);
    var more := true;
    while more
      invariant s.Valid() && fresh(s) && fresh(s.values) && s.kbest == kbest
      invariant s.samples == Times(time, s.samplecount)
      invariant s.samplecount > 0 ==> (more <==> Continues(time, s.samplecount, kbest, maxsamples, epsilon))
      invariant more || s.samplecount > 0
      invariant Ran(time, s.samplecount, kbest, maxsamples, epsilon)
      decreases if maxsamples > s.samplecount then maxsamples - s.samplecount else 0, more
    {
      more := Measure(s, time, maxsamples, epsilon);
    }
    result, taken := s.Least(), s.samplecount;
    StopsExactly(time, taken, kbest, maxsamples, epsilon);
    LeastTime(time, taken, kbest);
  }
}
