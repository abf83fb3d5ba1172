/**
 * The combination enumerator of `Test.cpp`: `opNum` entries, each one of the
 * four operation kinds 1..4, are stepped like an odometer, the last entry
 * turning fastest, from all 1s until every entry has been 4.
 *
 * A combination is read as a base-4 number whose digits are the entries
 * minus one, the first entry most significant; one step of the loop is the
 * successor of that number.
 */
module Odometer {
  function Pow4(n: nat): (p: nat)
    ensures p >= 1
  {
    if n == 0 then 1 else 4 * Pow4(n - 1)
  }

  function Ones(n: nat): (s: seq<int>)
    ensures |s| == n && forall k :: 0 <= k < n ==> s[k] == 1
  {
    seq(n, _ => 1)
  }

  /** Every entry is an operation kind 1..4. */
  predicate InRange(d: seq<int>) {
    forall k :: 0 <= k < |d| ==> 1 <= d[k] <= 4
  }

  predicate AllFour(d: seq<int>) {
    forall k :: 0 <= k < |d| ==> d[k] == 4
  }

  /** The number a combination stands for. */
  function Value(d: seq<int>): int
    decreases |d|
  {
    if d == [] then 0 else 4 * Value(d[..|d| - 1]) + (d[|d| - 1] - 1)
  }

  /** One step: trailing 4s become 1 and the entry before them goes up by one. */
  function Successor(d: seq<int>): (s: seq<int>)
    ensures |s| == |d|
    decreases |d|
  {
    if d == [] then []
    else if d[|d| - 1] == 4 then Successor(d[..|d| - 1]) + [1]
    else d[..|d| - 1] + [d[|d| - 1] + 1]
  }

  /** A combination of n entries stands for a number below 4^n, and for 4^n - 1 exactly when every entry is 4. */
  lemma {:induction false} ValueRange(d: seq<int>)
    requires InRange(d)
    ensures 0 <= Value(d) < Pow4(|d|)
    ensures Value(d) == Pow4(|d|) - 1 <==> AllFour(d)
    decreases |d|
  {
    if d != [] {
      var p := d[..|d| - 1];
      assert InRange(p);
      ValueRange(p);
      var last := d[|d| - 1];
      if AllFour(d) {
        assert AllFour(p);
      } else if AllFour(p) {
        assert last != 4;
      } else {
        assert Value(p) <= Pow4(|p|) - 2;
      }
    }
  }

  /** All 1s is the number zero. */
  lemma {:induction false} ValueOnes(n: nat)
    ensures Value(Ones(n)) == 0
  {
    if n > 0 {
      assert Ones(n)[..n - 1] == Ones(n - 1);
      ValueOnes(n - 1);
    }
  }

  /** The last digit and the rest of a base-4 number are determined by the number. */
  lemma DigitOf(x: int, r: int)
    requires 0 <= r < 4
    ensures (4 * x + r) / 4 == x && (4 * x + r) % 4 == r
  {
  }

  /** Two combinations of the same length standing for the same number are the same combination. */
  lemma {:induction false} ValueInjective(a: seq<int>, b: seq<int>)
    requires InRange(a) && InRange(b) && |a| == |b| && Value(a) == Value(b)
    ensures a == b
    decreases |a|
  {
    if a != [] {
      var pa, pb := a[..|a| - 1], b[..|b| - 1];
      var la, lb := a[|a| - 1] - 1, b[|b| - 1] - 1;
      assert InRange(pa) && InRange(pb);
      assert 0 <= la < 4 && 0 <= lb < 4;
      DigitOf(Value(pa), la);
      DigitOf(Value(pb), lb);
      ValueInjective(pa, pb);
      assert a == pa + [a[|a| - 1]] && b == pb + [b[|b| - 1]];
    }
  }

  /** The step adds one to the number and keeps every entry in 1..4, unless every entry was 4. */
  lemma {:induction false} SuccessorValue(d: seq<int>)
    requires InRange(d) && !AllFour(d)
    ensures InRange(Successor(d)) && Value(Successor(d)) == Value(d) + 1
    decreases |d|
  {
    var p := d[..|d| - 1];
    assert InRange(p);
    if d[|d| - 1] == 4 {
      assert !AllFour(p);
      SuccessorValue(p);
      assert (Successor(p) + [1])[..|d| - 1] == Successor(p);
    } else {
      assert (p + [d[|d| - 1] + 1])[..|d| - 1] == p;
    }
  }

  /** After every entry was 4 the step leaves all 1s. */
  lemma {:induction false} SuccessorAllFour(d: seq<int>)
    requires AllFour(d)
    ensures Successor(d) == Ones(|d|)
    decreases |d|
  {
    if d != [] {
      SuccessorAllFour(d[..|d| - 1]);
    }
  }

  /** A run of trailing 4s from `j` on turns into 1s, whatever comes before it. */
  lemma {:induction false} SuccessorFours(d: seq<int>, j: nat)
    requires j <= |d| && forall k :: j <= k < |d| ==> d[k] == 4
    ensures Successor(d) == Successor(d[..j]) + Ones(|d| - j)
    decreases |d|
  {
    if j == |d| {
      assert d[..j] == d;
    } else {
      var p := d[..|d| - 1];
      SuccessorFours(p, j);
      assert p[..j] == d[..j];
    }
  }

  /**
   * `main`: a non-positive count exits with 1 before anything is enumerated;
   * otherwise every combination of `opNum` entries is visited once, in
   * increasing order, after 4^opNum - 1 increments, and the entries end all 1.
   */
  method Enumerate(opNum: int) returns (exitCode: int, combination: seq<int>, ghost visited: seq<seq<int>>, ghost increments: nat)
    ensures opNum <= 0 ==> exitCode == 1 && combination == [] && visited == []
    ensures opNum > 0 ==> exitCode == 0 && combination == Ones(opNum)
    ensures opNum > 0 ==> increments == Pow4(opNum) - 1 && |visited| == Pow4(opNum)
    ensures forall k :: 0 <= k < |visited| ==> |visited[k]| == opNum && InRange(visited[k]) && Value(visited[k]) == k
  {
    if opNum <= 0 {
      return 1, [], [], 0;
    }
    var operations := new int[opNum];
    for i := 0 to opNum
      invariant forall k :: 0 <= k < i ==> operations[k] == 1
    {
      operations[i] := 1;
    }
    assert operations[..] == Ones(opNum);
    ValueOnes(opNum);
    visited, increments := [], 0;
    while true
      invariant InRange(operations[..]) && Value(operations[..]) == |visited| == increments
      invariant forall k :: 0 <= k < |visited| ==> |visited[k]| == opNum && InRange(visited[k]) && Value(visited[k]) == k
      decreases Pow4(opNum) - |visited|
    {
      ghost var d := operations[..];
      ValueRange(d);
      visited := visited + [d];
      var wrapped := NextCombination(operations);
      if wrapped {
        SuccessorAllFour(d);
        break;
      }
      increments := increments + 1;
      SuccessorValue(d);
      ValueRange(operations[..]);
    }
    exitCode, combination := 0, operations[..];
  }

  /**
   * One step of `main`'s loop: trailing 4s are reset to 1 from the end and,
   * unless that ran off the front, the entry before them goes up by one;
   * `wrapped` reports running off the front, which ends the enumeration.
   */
  method NextCombination(operations: array<int>) returns (wrapped: bool)
    modifies operations
    ensures wrapped == AllFour(old(operations[..]))
    ensures operations[..] == Successor(old(operations[..]))
  {
    ghost var d := operations[..];
    var n := operations.Length;
    var idx := n - 1;
    while idx >= 0 && operations[idx] == 4
      invariant -1 <= idx < n
      invariant operations[..] == d[..idx + 1] + Ones(n - 1 - idx)
      invariant forall k :: idx < k < n ==> d[k] == 4
    {
      operations[idx] := 1;
      idx := idx - 1;
      assert operations[..] == d[..idx + 1] + Ones(n - 1 - idx);
    }
    SuccessorFours(d, idx + 1);
    if idx < 0 {
      assert d[..0] == [];
      return true;
    }
    assert operations[idx] == d[idx] != 4;
    operations[idx] := operations[idx] + 1;
    assert d[..idx + 1] == d[..idx] + [d[idx]];
    assert operations[..] == Successor(d[..idx + 1]) + Ones(n - 1 - idx);
    return false;
  }

  /** Every combination of `opNum` entries in 1..4 is among those `Enumerate` visits, at the position of its number. */
  lemma VisitsEveryCombination(opNum: int, visited: seq<seq<int>>, d: seq<int>)
    requires opNum > 0 && |visited| == Pow4(opNum)
    requires forall k :: 0 <= k < |visited| ==> |visited[k]| == opNum && InRange(visited[k]) && Value(visited[k]) == k
    requires |d| == opNum && InRange(d)
    ensures 0 <= Value(d) < |visited| && visited[Value(d)] == d
  {
    ValueRange(d);
    ValueInjective(visited[Value(d)], d);
  }
}
