/** Bubble sort by passes until a check finds no neighbours out of order. */
module BubbleSort {
  ghost predicate Sorted(s: seq<int>) {
    forall i, j :: 0 <= i < j < |s| ==> s[i] <= s[j]
  }

  /** No two neighbours among the first k + 1 are out of order. */
  ghost predicate NeighboursSorted(s: seq<int>, k: int) {
    forall i :: 0 <= i < k && i + 1 < |s| ==> s[i] <= s[i + 1]
  }

  lemma {:induction false} SortedByNeighbours(s: seq<int>)
    requires NeighboursSorted(s, |s|)
    ensures Sorted(s)
  {
    if |s| > 1 {
      var rest := s[..|s| - 1];
      assert NeighboursSorted(rest, |rest|) by {
        forall i | 0 <= i && i + 1 < |rest|
          ensures rest[i] <= rest[i + 1]
        {
          assert s[i] <= s[i + 1];
        }
      }
      SortedByNeighbours(rest);
      forall i, j | 0 <= i < j < |s|
        ensures s[i] <= s[j]
      {
        assert rest[|rest| - 1] <= s[|s| - 1];
        assert i < |rest| - 1 ==> rest[i] <= rest[|rest| - 1];
        assert j < |rest| ==> rest[i] <= rest[j];
      }
    }
  }

  /** How many elements of s exceed x. */
  function Above(s: seq<int>, x: int): nat {
    if s == [] then 0 else Above(s[..|s| - 1], x) + if s[|s| - 1] > x then 1 else 0
  }

  /** The pairs of positions whose elements are out of order. */
  function Inversions(s: seq<int>): nat {
    if s == [] then 0 else Inversions(s[..|s| - 1]) + Above(s[..|s| - 1], s[|s| - 1])
  }

  function Swapped(s: seq<int>, i: nat): (r: seq<int>)
    requires i + 1 < |s|
    ensures |r| == |s|
  {
    s[i := s[i + 1]][i + 1 := s[i]]
  }

  lemma SwappedEnds(s: seq<int>, i: nat)
    requires i + 1 < |s|
    ensures i + 2 < |s| ==> Swapped(s, i)[..|s| - 1] == Swapped(s[..|s| - 1], i) && Swapped(s, i)[|s| - 1] == s[|s| - 1]
    ensures i + 2 == |s| ==> Swapped(s, i)[..|s| - 1] == s[..i] + [s[i + 1]] && Swapped(s, i)[|s| - 1] == s[i]
    ensures i + 2 == |s| ==> s[..|s| - 1] == s[..i] + [s[i]]
  {
  }

  lemma AboveAppend(s: seq<int>, y: int, x: int)
    ensures Above(s + [y], x) == Above(s, x) + if y > x then 1 else 0
  {
    assert (s + [y])[..|s|] == s;
  }

  lemma InversionsAppend(s: seq<int>, y: int)
    ensures Inversions(s + [y]) == Inversions(s) + Above(s, y)
  {
    assert (s + [y])[..|s|] == s;
  }

  lemma {:induction false} SwappedAbove(s: seq<int>, i: nat, x: int)
    requires i + 1 < |s|
    ensures Above(Swapped(s, i), x) == Above(s, x)
  {
    SwappedEnds(s, i);
    if i + 2 < |s| {
      SwappedAbove(s[..|s| - 1], i, x);
    } else {
      AboveAppend(s[..i], s[i], x);
      AboveAppend(s[..i], s[i + 1], x);
    }
  }

  /** Swapping two neighbours that are out of order removes exactly one inversion. */
  lemma {:induction false} SwapRemovesOne(s: seq<int>, i: nat)
    requires i + 1 < |s| && s[i] > s[i + 1]
    ensures Inversions(Swapped(s, i)) + 1 == Inversions(s)
  {
    SwappedEnds(s, i);
    if i + 2 < |s| {
      SwapRemovesOne(s[..|s| - 1], i);
      SwappedAbove(s[..|s| - 1], i, s[|s| - 1]);
    } else {
      var p, a, b := s[..i], s[i], s[i + 1];
      InversionsAppend(p, a);
      InversionsAppend(p, b);
      AboveAppend(p, a, b);
      AboveAppend(p, b, a);
    }
  }

  lemma SwappedPermutes(s: seq<int>, i: nat)
    requires i + 1 < |s|
    ensures multiset(Swapped(s, i)) == multiset(s)
  {
  }

  method Swap(arr: array<int>, i: nat, j: nat)
    requires i < arr.Length && j < arr.Length
    modifies arr
    ensures arr[..] == old(arr[..][i := arr[j]][j := arr[i]])
  {
    var temp := arr[i];
    arr[i] := arr[j];
    arr[j] := temp;
  }

  /** Puts two neighbours in order. */
  method Order(arr: array<int>, n: nat, i: nat) returns (ghost swapped: bool)
    requires n <= arr.Length && i + 1 < n
    modifies arr
    ensures swapped == old(arr[i] > arr[i + 1])
    ensures arr[n..] == old(arr[n..])
    ensures arr[..n] == if swapped then Swapped(old(arr[..n]), i) else old(arr[..n])
  {
    swapped := arr[i] > arr[i + 1];
    if arr[i] > arr[i + 1] {
      Swap(arr, i, i + 1);
    }
  }

  /** One pass: the swaps it makes are the inversions it removes; with none, the segment was
      sorted already. */
  method Pass(arr: array<int>, n: int) returns (ghost swaps: nat)
    requires n <= arr.Length
    modifies arr
    ensures n > 0 ==> arr[n..] == old(arr[n..]) && multiset(arr[..n]) == multiset(old(arr[..n]))
    ensures n > 0 ==> Inversions(arr[..n]) + swaps == Inversions(old(arr[..n]))
    ensures swaps == 0 && n > 0 ==> NeighboursSorted(arr[..n], n)
    ensures n <= 0 ==> arr[..] == old(arr[..]) && swaps == 0
  {
    swaps := 0;
    var i := 0;
    while i < n - 1
      invariant 0 <= i && (n > 0 ==> i < n)
      invariant n > 0 ==> arr[n..] == old(arr[n..]) && multiset(arr[..n]) == multiset(old(arr[..n]))
      invariant n > 0 ==> Inversions(arr[..n]) + swaps == Inversions(old(arr[..n]))
      invariant swaps == 0 && n > 0 ==> NeighboursSorted(arr[..n], i)
      invariant n <= 0 ==> arr[..] == old(arr[..]) && swaps == 0
    {
      ghost var s := arr[..n];
      ghost var swapped := Order(arr, n, i);
      if swapped {
        SwapRemovesOne(s, i);
        SwappedPermutes(s, i);
        swaps := swaps + 1;
      }
      i := i + 1;
    }
  }

  method Mistakes(arr: array<int>, n: int) returns (mistakes: nat)
    requires n <= arr.Length
    ensures n > 0 ==> (mistakes == 0 <==> NeighboursSorted(arr[..n], n))
    ensures n <= 0 ==> mistakes == 0
  {
    mistakes := 0;
    var i := 0;
    while i < n - 1
      invariant 0 <= i && (n > 0 ==> i < n)
      invariant n > 0 ==> (mistakes == 0 <==> NeighboursSorted(arr[..n], i))
      invariant n <= 0 ==> mistakes == 0
    {
      if arr[i] > arr[i + 1] {
        assert arr[..n][i] > arr[..n][i + 1];
        mistakes := mistakes + 1;
      }
      i := i + 1;
    }
  }

  lemma {:induction false} NoneAbove(s: seq<int>, x: int)
    requires forall i :: 0 <= i < |s| ==> s[i] <= x
    ensures Above(s, x) == 0
  {
    if s != [] {
      NoneAbove(s[..|s| - 1], x);
    }
  }

  lemma {:induction false} NoInversions(s: seq<int>)
    requires Sorted(s)
    ensures Inversions(s) == 0
  {
    if s != [] {
      NoInversions(s[..|s| - 1]);
      NoneAbove(s[..|s| - 1], s[|s| - 1]);
    }
  }

  /** Sorts the first n elements; the passes end because each one that leaves a mistake behind
      has removed an inversion, and in all there is one swap for every inversion of the input. */
  method Sort(arr: array<int>, n: int) returns (ghost swaps: nat)
    requires n <= arr.Length
    modifies arr
    ensures n > 0 ==> Sorted(arr[..n]) && multiset(arr[..n]) == multiset(old(arr[..n])) && arr[n..] == old(arr[n..])
    ensures n > 0 ==> swaps == Inversions(old(arr[..n]))
    ensures n <= 0 ==> arr[..] == old(arr[..]) && swaps == 0
  {
    swaps := 0;
    var inorder := 0;
    while inorder != 1
      invariant 0 <= inorder <= 1
      invariant n > 0 ==> multiset(arr[..n]) == multiset(old(arr[..n])) && arr[n..] == old(arr[n..])
      invariant n > 0 ==> Inversions(arr[..n]) + swaps == Inversions(old(arr[..n]))
      invariant n > 0 && inorder == 1 ==> Sorted(arr[..n])
      invariant n <= 0 ==> arr[..] == old(arr[..]) && swaps == 0
      decreases 1 - inorder, if n > 0 then Inversions(arr[..n]) else 0
    {
      ghost var done := Pass(arr, n);
      swaps := swaps + done;
      var mistakes := Mistakes(arr, n);
      if mistakes == 0 {
        if n > 0 { SortedByNeighbours(arr[..n]); }
        inorder := 1;
      }
    }
    if n > 0 { NoInversions(arr[..n]); }
  }
}
