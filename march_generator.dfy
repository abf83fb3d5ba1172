/**
 * The March test generator of `MarchGenerator.cpp`: a depth-first search
 * over sequences of the four operations w0, w1, r0, r1 (tried in that
 * order) in which no read expects the opposite of the value the previous
 * operation left, returning the first sequence the simulator-backed test
 * accepts, each operation wrapped in an element of its own.
 *
 * The test (`testSequence`, which runs the simulator) is a parameter
 * `test`; the counting it does over the syndromes is `AllDetected`.
 */
module MarchGenerator {
  import opened Wrappers
  import opened LegacyTypes

  /** The candidates of `dfs`, in the order they are tried. */
  const ALL_OPS: seq<SingleOp> := [SingleOp(Write, 0, 0), SingleOp(Write, 1, 0), SingleOp(Read, 0, 0), SingleOp(Read, 1, 0)]

  /** `isValidTransition`: w0→r1, r0→r1, w1→r0 and r1→r0 are forbidden. */
  predicate IsValidTransition(prev: SingleOp, next: SingleOp) {
    !(prev.opType == Write && prev.value == 0 && next.opType == Read && next.value == 1)
    && !(prev.opType == Read && prev.value == 0 && next.opType == Read && next.value == 1)
    && !(prev.opType == Write && prev.value == 1 && next.opType == Read && next.value == 0)
    && !(prev.opType == Read && prev.value == 1 && next.opType == Read && next.value == 0)
  }

  /**
   * Between binary operations, a transition is valid exactly when the next
   * operation is a write or a read expecting the value the previous one
   * wrote or read.
   */
  lemma ValidTransitionMeaning(prev: SingleOp, next: SingleOp)
    requires prev.value in {0, 1} && next.value in {0, 1}
    ensures IsValidTransition(prev, next) <==> next.opType == Write || next.value == prev.value
  {
  }

  /** The position of an operation in `ALL_OPS`. */
  function Rank(op: SingleOp): (r: int)
    requires op in ALL_OPS
    ensures 0 <= r < |ALL_OPS| && ALL_OPS[r] == op
    ensures forall j :: 0 <= j < |ALL_OPS| && ALL_OPS[j] == op ==> j == r
  {
    if op == ALL_OPS[0] then 0 else if op == ALL_OPS[1] then 1 else if op == ALL_OPS[2] then 2 else 3
  }

  /**
   * `c` is a sequence `dfs` can build from `prefix`: `n` more operations of
   * `ALL_OPS`, each a valid transition from the one before it.
   */
  predicate Candidate(prefix: seq<SingleOp>, n: nat, c: seq<SingleOp>) {
    |c| == |prefix| + n && c[..|prefix|] == prefix
    && forall k :: |prefix| <= k < |c| ==> c[k] in ALL_OPS && (k > 0 ==> IsValidTransition(c[k - 1], c[k]))
  }

  /** `a` comes before `b` in the order `dfs` tries candidates: they agree up to a first operation ranked lower in `a`. */
  predicate LexLess(a: seq<SingleOp>, b: seq<SingleOp>) {
    |a| == |b| && exists k :: 0 <= k < |a| && a[..k] == b[..k] && a[k] in ALL_OPS && b[k] in ALL_OPS && Rank(a[k]) < Rank(b[k])
  }

  /** The sequence `dfs` finds from `prefix` with `n` operations to go, if any. */
  function Search(prefix: seq<SingleOp>, n: nat, test: seq<SingleOp> -> bool): Option<seq<SingleOp>>
    decreases n, |ALL_OPS| + 1
  {
    if n == 0 then (if test(prefix) then Some(prefix) else None)
    else SearchFrom(prefix, n, test, 0)
  }

  /** The search continued with the candidates from position `i` of `ALL_OPS` on. */
  function SearchFrom(prefix: seq<SingleOp>, n: nat, test: seq<SingleOp> -> bool, i: nat): Option<seq<SingleOp>>
    requires n > 0 && i <= |ALL_OPS|
    decreases n, |ALL_OPS| - i
  {
    if i == |ALL_OPS| then None
    else if |prefix| > 0 && !IsValidTransition(prefix[|prefix| - 1], ALL_OPS[i]) then SearchFrom(prefix, n, test, i + 1)
    else match Search(prefix + [ALL_OPS[i]], n - 1, test)
      case Some(r) => Some(r)
      case None => SearchFrom(prefix, n, test, i + 1)
  }

  /** A candidate from `prefix` starting with `op` is a candidate from `prefix + [op]`, and back. */
  lemma CandidateStep(prefix: seq<SingleOp>, n: nat, op: SingleOp, c: seq<SingleOp>)
    requires n > 0 && |c| > |prefix|
    requires c[..|prefix| + 1] == prefix + [op]
    ensures Candidate(prefix, n, c) <==>
              Candidate(prefix + [op], n - 1, c) && op in ALL_OPS
              && (|prefix| > 0 ==> IsValidTransition(prefix[|prefix| - 1], op))
  {
    var p := |prefix|;
    assert c[p] == op;
    assert c[..p] == c[..p + 1][..p] == prefix;
    if p > 0 {
      assert c[p - 1] == prefix[p - 1];
    }
  }

  /** A candidate that agrees with `r` before position `p` and ranks higher at `p` does not come before `r`. */
  lemma NotLessAfter(c: seq<SingleOp>, r: seq<SingleOp>, p: nat)
    requires |c| == |r| && p < |c| && c[p] in ALL_OPS && r[p] in ALL_OPS
    ensures c[..p] == r[..p] && Rank(c[p]) > Rank(r[p]) ==> !LexLess(c, r)
  {
    // Agreeing up to a position means agreeing at each position before it.
    forall k | p < k <= |c| ensures c[..k] == r[..k] ==> c[p] == r[p] {
      assert c[..k][p] == c[p] && r[..k][p] == r[p];
    }
    forall k | 0 <= k < p ensures c[..p] == r[..p] ==> c[k] == r[k] {
      assert c[..p][k] == c[k] && r[..p][k] == r[k];
    }
  }

  /**
   * What `dfs` finds from `prefix` with `n` operations to go is a candidate
   * that passes the test and that no other passing candidate comes before;
   * when it finds nothing, no candidate passes the test.
   */
  lemma {:induction false} SearchMeaning(prefix: seq<SingleOp>, n: nat, test: seq<SingleOp> -> bool)
    ensures Search(prefix, n, test).Some? ==>
              var r := Search(prefix, n, test).value;
              Candidate(prefix, n, r) && test(r)
              && forall c :: Candidate(prefix, n, c) && test(c) ==> !LexLess(c, r)
    ensures Search(prefix, n, test).None? ==> forall c :: Candidate(prefix, n, c) ==> !test(c)
    decreases n, |ALL_OPS| + 1
  {
    if n == 0 {
      forall c | Candidate(prefix, n, c) ensures c == prefix {
        assert c == c[..|prefix|];
      }
      if test(prefix) {
        forall c | Candidate(prefix, n, c) && test(c) ensures !LexLess(c, prefix) {
        }
      }
    } else {
      SearchFromMeaning(prefix, n, test, 0);
    }
  }

  /**
   * The search from position `i` of `ALL_OPS` finds a candidate whose next
   * operation ranks at least `i`, passes the test, and is not preceded by
   * any other such candidate; when it finds none, no such candidate passes.
   */
  lemma {:induction false} SearchFromMeaning(prefix: seq<SingleOp>, n: nat, test: seq<SingleOp> -> bool, i: nat)
    requires n > 0 && i <= |ALL_OPS|
    ensures SearchFrom(prefix, n, test, i).Some? ==>
              var r := SearchFrom(prefix, n, test, i).value;
              Candidate(prefix, n, r) && test(r) && Rank(r[|prefix|]) >= i
              && forall c :: Candidate(prefix, n, c) && test(c) && Rank(c[|prefix|]) >= i ==> !LexLess(c, r)
    ensures SearchFrom(prefix, n, test, i).None? ==>
              forall c :: Candidate(prefix, n, c) && test(c) ==> Rank(c[|prefix|]) < i
    decreases n, |ALL_OPS| - i
  {
    var p := |prefix|;
    if i == |ALL_OPS| {
      forall c | Candidate(prefix, n, c) && test(c) ensures Rank(c[p]) < i {
      }
      return;
    }
    var op := ALL_OPS[i];
    assert Rank(op) == i;
    SearchFromMeaning(prefix, n, test, i + 1);
    var valid := p > 0 ==> IsValidTransition(prefix[p - 1], op);
    if !valid {
      // No candidate continues with `op`.
      forall c | Candidate(prefix, n, c) && test(c) && Rank(c[p]) >= i ensures Rank(c[p]) >= i + 1 {
        assert c[p - 1] == prefix[p - 1] by { assert c[..p][p - 1] == prefix[p - 1]; }
      }
      return;
    }
    SearchMeaning(prefix + [op], n - 1, test);
    match Search(prefix + [op], n - 1, test)
    case Some(r) =>
      assert SearchFrom(prefix, n, test, i) == Some(r);
      FoundAt(prefix, n, test, i, r);
    case None =>
      assert SearchFrom(prefix, n, test, i) == SearchFrom(prefix, n, test, i + 1);
      NoneAt(prefix, n, test, i);
  }

  /** When the subtree of the `i`-th operation finds nothing, no candidate continuing with it passes. */
  lemma NoneAt(prefix: seq<SingleOp>, n: nat, test: seq<SingleOp> -> bool, i: nat)
    requires n > 0 && i < |ALL_OPS|
    requires forall c :: Candidate(prefix + [ALL_OPS[i]], n - 1, c) ==> !test(c)
    ensures forall c :: Candidate(prefix, n, c) && Rank(c[|prefix|]) == i ==> !test(c)
  {
    var p, op := |prefix|, ALL_OPS[i];
    forall c | Candidate(prefix, n, c) && Rank(c[p]) == i ensures !test(c) {
      assert c[..p + 1] == prefix + [op] by { assert c[..p + 1] == c[..p] + [c[p]]; }
      CandidateStep(prefix, n, op, c);
    }
  }

  /** What the subtree of the `i`-th operation finds is first among the candidates ranked at least `i` there. */
  lemma FoundAt(prefix: seq<SingleOp>, n: nat, test: seq<SingleOp> -> bool, i: nat, r: seq<SingleOp>)
    requires n > 0 && i < |ALL_OPS|
    requires |prefix| > 0 ==> IsValidTransition(prefix[|prefix| - 1], ALL_OPS[i])
    requires Candidate(prefix + [ALL_OPS[i]], n - 1, r) && test(r)
    requires forall c :: Candidate(prefix + [ALL_OPS[i]], n - 1, c) && test(c) ==> !LexLess(c, r)
    ensures Candidate(prefix, n, r) && Rank(r[|prefix|]) >= i
    ensures forall c :: Candidate(prefix, n, c) && test(c) && Rank(c[|prefix|]) >= i ==> !LexLess(c, r)
  {
    var p, op := |prefix|, ALL_OPS[i];
    assert Rank(op) == i;
    assert r[..p + 1] == prefix + [op] by { assert r[..p + 1][..p + 1] == r[..p + 1]; }
    CandidateStep(prefix, n, op, r);
    assert r[p] == op by { assert r[..p + 1][p] == r[p]; }
    forall c | Candidate(prefix, n, c) && test(c) && Rank(c[p]) >= i ensures !LexLess(c, r) {
      if Rank(c[p]) == i {
        // Candidates continuing with `op` are the candidates of the subtree.
        assert c[..p + 1] == prefix + [op] by { assert c[..p + 1] == c[..p] + [c[p]]; }
        CandidateStep(prefix, n, op, c);
      } else {
        assert c[..p] == prefix == r[..p] by { assert r[..p] == r[..p + 1][..p]; }
        NotLessAfter(c, r, p);
      }
    }
  }

  /** Each operation in a March element of its own, to be applied to the addresses downwards. */
  function Wrap(ops: seq<SingleOp>): (m: seq<MarchElement>)
    ensures |m| == |ops| && forall k :: 0 <= k < |ops| ==> m[k] == MarchElement([ops[k]], true)
  {
    seq(|ops|, k requires 0 <= k < |ops| => MarchElement([ops[k]], true))
  }

  /** What `generate(length)` returns. */
  function Generated(length: int, test: seq<SingleOp> -> bool): seq<MarchElement> {
    if length <= 0 then []
    else match Search([], length, test)
      case Some(r) => Wrap(r)
      case None => []
  }

  /**
   * `generate` returns nothing for a length of 0 or less; otherwise, unless
   * no sequence of `length` operations passes the test, `length` elements
   * of one operation each, applied downwards, whose operations are valid
   * transitions of one another, pass the test, and come first among all
   * such sequences in the order w0, w1, r0, r1.
   */
  lemma GeneratedMeaning(length: int, test: seq<SingleOp> -> bool)
    ensures length <= 0 ==> Generated(length, test) == []
    ensures Generated(length, test) == [] && length > 0 ==> forall c :: Candidate([], length, c) ==> !test(c)
    ensures Generated(length, test) != [] ==>
              var g := Generated(length, test);
              var ops := seq(|g|, k requires 0 <= k < |g| => g[k].ops[0]);
              && |g| == length
              && (forall k :: 0 <= k < |g| ==> |g[k].ops| == 1 && g[k].addrOrder)
              && Candidate([], length, ops) && test(ops)
              && forall c :: Candidate([], length, c) && test(c) ==> !LexLess(c, ops)
  {
    if length > 0 {
      SearchMeaning([], length, test);
      match Search([], length, test)
      case Some(r) =>
        var g := Wrap(r);
        var ops := seq(|g|, k requires 0 <= k < |g| => g[k].ops[0]);
        assert ops == r;
      case None =>
    }
  }

  class MarchGenerator {
    const faults: seq<FaultPrimitive>
    var current: seq<SingleOp>

    constructor(faults: seq<FaultPrimitive>)
      ensures this.faults == faults && current == []
    {
      this.faults := faults;
      current := [];
    }

    method Generate(length: int, test: seq<SingleOp> -> bool) returns (result: seq<MarchElement>)
      modifies this
      ensures result == Generated(length, test)
    {
      current := [];
      if length <= 0 {
        return [];
      }
      var found := Dfs(0, length, test);
      if found {
        result := [];
        var k := 0;
        while k < |current|
          invariant 0 <= k <= |current| && result == Wrap(current[..k])
        {
          result := result + [MarchElement([current[k]], true)];
          k := k + 1;
        }
        assert current[..k] == current;
        return result;
      }
      return [];
    }

    /** Extends `current` (of length `pos`) to a sequence of `length` operations that passes the test. */
    method Dfs(pos: int, length: int, test: seq<SingleOp> -> bool) returns (found: bool)
      requires 0 <= pos <= length && |current| == pos
      modifies this
      ensures found ==> Search(old(current), length - pos, test) == Some(current)
      ensures !found ==> Search(old(current), length - pos, test) == None && current == old(current)
      decreases length - pos
    {
      if pos == length {
        return test(current);
      }
      var i := 0;
      while i < |ALL_OPS|
        invariant 0 <= i <= |ALL_OPS| && current == old(current)
        invariant Search(current, length - pos, test) == SearchFrom(current, length - pos, test, i)
      {
        var op := ALL_OPS[i];
        if pos > 0 && !IsValidTransition(current[pos - 1], op) {
          i := i + 1;
          continue;
        }
        current := current + [op];
        found := Dfs(pos + 1, length, test);
        if found {
          return true;
        }
        current := current[..pos];
        i := i + 1;
      }
      return false;
    }
  }

  /** The entries of the syndromes of the fault primitives, missing names counting as none. */
  function SubcasesOf(synd: map<string, seq<SubcaseSynd>>, name: string): seq<SubcaseSynd> {
    if name in synd then synd[name] else []
  }

  /** Every entry of every subcase syndrome of every fault primitive is detected. */
  predicate EveryEntryDetected(faults: seq<FaultPrimitive>, synd: map<string, seq<SubcaseSynd>>) {
    forall f, s, k :: 0 <= f < |faults| && 0 <= s < |SubcasesOf(synd, faults[f].name)| && k in SubcasesOf(synd, faults[f].name)[s] ==>
      SubcasesOf(synd, faults[f].name)[s][k].detected
  }

  /**
   * The verdict of `testSequence` on the syndromes the simulator produced:
   * the number of detected entries equals the number of entries.
   */
  method AllDetected(faults: seq<FaultPrimitive>, synd: map<string, seq<SubcaseSynd>>) returns (b: bool)
    ensures b <==> EveryEntryDetected(faults, synd)
  {
    var total, detected := 0, 0;
    var f := 0;
    while f < |faults|
      invariant 0 <= f <= |faults| && 0 <= detected <= total
      invariant detected == total <==>
                  forall g, s, k :: 0 <= g < f && 0 <= s < |SubcasesOf(synd, faults[g].name)| && k in SubcasesOf(synd, faults[g].name)[s] ==>
                    SubcasesOf(synd, faults[g].name)[s][k].detected
    {
      var subs: seq<SubcaseSynd> := SubcasesOf(synd, faults[f].name);
      var s := 0;
      while s < |subs|
        invariant 0 <= s <= |subs| && 0 <= detected <= total
        invariant detected == total <==>
                    (forall g, s', k :: 0 <= g < f && 0 <= s' < |SubcasesOf(synd, faults[g].name)| && k in SubcasesOf(synd, faults[g].name)[s'] ==>
                       SubcasesOf(synd, faults[g].name)[s'][k].detected)
                    && forall s': int, k: int :: 0 <= s' < s && k in subs[s'] ==> subs[s'][k].detected
      {
        var t, d := CountEntries(subs[s]);
        total, detected := total + t, detected + d;
        s := s + 1;
      }
      f := f + 1;
    }
    return detected == total;
  }

  /** A subset splits a set into itself and the rest. */
  lemma CardSplit(a: set<int>, b: set<int>)
    requires a <= b
    ensures |b| == |a| + |b - a|
  {
    var d := b - a;
    assert b == a + d;
    assert a * d == {};
    assert |a + d| + |a * d| == |a| + |d|;
  }

  /**
   * The number of entries of one subcase syndrome, and of those detected.
   * The counts do not depend on the order `std::map` visits the entries in,
   * so they are taken as the sizes of the two key sets.
   */
  method CountEntries(sub: SubcaseSynd) returns (total: nat, detected: nat)
    ensures total == |sub.Keys| && detected <= total
    ensures detected == total ==> forall k :: k in sub ==> sub[k].detected
    ensures (forall k :: k in sub ==> sub[k].detected) ==> detected == total
  {
    var hits := set k | k in sub && sub[k].detected;
    CardSplit(hits, sub.Keys);
    total, detected := |sub.Keys|, |hits|;
    if detected == total {
      assert |sub.Keys - hits| == 0;
      assert forall k :: k in sub ==> k in hits by {
        forall k | k in sub ensures k in hits {
          assert k !in sub.Keys - hits;
        }
      }
    }
    if forall k :: k in sub ==> sub[k].detected {
      assert hits == sub.Keys;
    }
  }
}
