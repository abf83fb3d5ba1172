/**
 * The detection bookkeeping of the new simulator architecture
 * (`src/ResultCollector.cpp`): a report maps each READ operation of the
 * March test to whether it has seen a mismatch, and records whether any
 * detection happened and at which victim addresses.
 *
 * The headers declaring `MarchElement`, `MarchIdx` and `DetectionReport` are
 * not part of this model; their types are declared here from how the
 * collector and the executor use them.
 */
module ResultCollector {
  /** The position of an operation in the March test. */
  datatype MarchIdx = MarchIdx(elementIdx: int, opIdx: int)

  /** READ, WRITE, or an operation kind the executor neither reads nor writes. */
  datatype OpType = R | W | Other

  datatype Op = Op(opType: OpType, value: int)

  /** An operation with its position. */
  datatype OpC = OpC(op: Op, idx: MarchIdx)

  datatype Direction = ASC | DESC | BOTH

  datatype MarchElement = MarchElement(ops: seq<OpC>, addrOrder: Direction)

  datatype DetectionReport = DetectionReport(detected: map<MarchIdx, bool>, isDetected: bool, detectedVicAddrs: set<int>)

  /** The positions of the READ operations of some operations. */
  function ReadIdxsOf(ops: seq<OpC>): set<MarchIdx>
    decreases |ops|
  {
    if ops == [] then {}
    else (if ops[0].op.opType == R then {ops[0].idx} else {}) + ReadIdxsOf(ops[1..])
  }

  /** The positions of the READ operations of a March test. */
  function ReadIdxs(es: seq<MarchElement>): set<MarchIdx>
    decreases |es|
  {
    if es == [] then {} else ReadIdxsOf(es[0].ops) + ReadIdxs(es[1..])
  }

  /** The flags after the READ operations of `ops` are set to false in turn. */
  function ClearOps(m: map<MarchIdx, bool>, ops: seq<OpC>): map<MarchIdx, bool>
    decreases |ops|
  {
    if ops == [] then m
    else ClearOps(if ops[0].op.opType == R then m[ops[0].idx := false] else m, ops[1..])
  }

  function ClearElements(m: map<MarchIdx, bool>, es: seq<MarchElement>): map<MarchIdx, bool>
    decreases |es|
  {
    if es == [] then m else ClearElements(ClearOps(m, es[0].ops), es[1..])
  }

  /** `createReport` on a report. */
  function Created(r: DetectionReport, es: seq<MarchElement>): DetectionReport {
    r.(detected := ClearElements(r.detected, es))
  }

  /** `opDetected` on a report: an unknown position changes nothing. */
  function Detect(r: DetectionReport, idx: MarchIdx, addr: int): DetectionReport {
    if idx !in r.detected then r
    else DetectionReport(r.detected[idx := true], true, r.detectedVicAddrs + {addr})
  }

  /**
   * The report is consistent: a detection happened exactly when some victim
   * address was recorded, and a flag is only set when a detection happened.
   */
  predicate Coherent(r: DetectionReport) {
    && (r.isDetected <==> r.detectedVicAddrs != {})
    && forall k :: k in r.detected && r.detected[k] ==> r.isDetected
  }

  /** `r'` keeps every key, flag and address of `r`. */
  predicate Grows(r: DetectionReport, r': DetectionReport) {
    && r'.detected.Keys == r.detected.Keys
    && (forall k :: k in r.detected && r.detected[k] ==> r'.detected[k])
    && (r.isDetected ==> r'.isDetected)
    && r.detectedVicAddrs <= r'.detectedVicAddrs
  }

  lemma {:induction false} ClearOpsMeaning(m: map<MarchIdx, bool>, ops: seq<OpC>, k: MarchIdx)
    ensures k in ClearOps(m, ops) <==> k in m || k in ReadIdxsOf(ops)
    ensures k in ReadIdxsOf(ops) ==> ClearOps(m, ops)[k] == false
    ensures k !in ReadIdxsOf(ops) && k in m ==> ClearOps(m, ops)[k] == m[k]
    decreases |ops|
  {
    if ops != [] {
      ClearOpsMeaning(if ops[0].op.opType == R then m[ops[0].idx := false] else m, ops[1..], k);
    }
  }

  lemma {:induction false} ClearElementsMeaning(m: map<MarchIdx, bool>, es: seq<MarchElement>, k: MarchIdx)
    ensures k in ClearElements(m, es) <==> k in m || k in ReadIdxs(es)
    ensures k in ReadIdxs(es) ==> ClearElements(m, es)[k] == false
    ensures k !in ReadIdxs(es) && k in m ==> ClearElements(m, es)[k] == m[k]
    decreases |es|
  {
    if es != [] {
      ClearOpsMeaning(m, es[0].ops, k);
      ClearElementsMeaning(ClearOps(m, es[0].ops), es[1..], k);
    }
  }

  /**
   * `createReport` gives every READ position a false flag, even one already
   * set, and adds no other key; the flags of other positions, the detection
   * flag and the addresses are kept.
   */
  lemma CreatedMeaning(r: DetectionReport, es: seq<MarchElement>, k: MarchIdx)
    ensures k in Created(r, es).detected <==> k in r.detected || k in ReadIdxs(es)
    ensures k in ReadIdxs(es) ==> Created(r, es).detected[k] == false
    ensures k !in ReadIdxs(es) && k in r.detected ==> Created(r, es).detected[k] == r.detected[k]
    ensures Created(r, es).isDetected == r.isDetected && Created(r, es).detectedVicAddrs == r.detectedVicAddrs
  {
    ClearElementsMeaning(r.detected, es, k);
  }

  lemma {:induction false} ReadIdxsOfHas(ops: seq<OpC>, j: nat)
    requires j < |ops| && ops[j].op.opType == R
    ensures ops[j].idx in ReadIdxsOf(ops)
    decreases |ops|
  {
    if j > 0 {
      ReadIdxsOfHas(ops[1..], j - 1);
    }
  }

  lemma {:induction false} ReadIdxsOfOnlyReads(ops: seq<OpC>, k: MarchIdx)
    requires forall j :: 0 <= j < |ops| && ops[j].idx == k ==> ops[j].op.opType != R
    ensures k !in ReadIdxsOf(ops)
    decreases |ops|
  {
    if ops != [] {
      ReadIdxsOfOnlyReads(ops[1..], k);
    }
  }

  /** A READ operation of any element has its position among the READ positions. */
  lemma {:induction false} ReadIdxsHas(es: seq<MarchElement>, i: nat, j: nat)
    requires i < |es| && j < |es[i].ops| && es[i].ops[j].op.opType == R
    ensures es[i].ops[j].idx in ReadIdxs(es)
    decreases |es|
  {
    if i > 0 {
      ReadIdxsHas(es[1..], i - 1, j);
    } else {
      ReadIdxsOfHas(es[0].ops, j);
    }
  }

  /** Only READ operations have positions among the READ positions. */
  lemma {:induction false} ReadIdxsOnlyReads(es: seq<MarchElement>, k: MarchIdx)
    requires forall i, j :: 0 <= i < |es| && 0 <= j < |es[i].ops| && es[i].ops[j].idx == k ==> es[i].ops[j].op.opType != R
    ensures k !in ReadIdxs(es)
    decreases |es|
  {
    if es != [] {
      ReadIdxsOfOnlyReads(es[0].ops, k);
      var rest := es[1..];
      forall i, j | 0 <= i < |rest| && 0 <= j < |rest[i].ops| && rest[i].ops[j].idx == k
        ensures rest[i].ops[j].op.opType != R
      {
        assert rest[i] == es[i + 1];
      }
      ReadIdxsOnlyReads(rest, k);
    }
  }

  /** `opDetected` on a known position sets its flag, the detection flag and the address; on an unknown one it changes nothing. */
  lemma DetectMeaning(r: DetectionReport, idx: MarchIdx, addr: int)
    ensures idx !in r.detected ==> Detect(r, idx, addr) == r
    ensures idx in r.detected ==>
              var r' := Detect(r, idx, addr);
              r'.detected[idx] && r'.isDetected && addr in r'.detectedVicAddrs
              && r'.detectedVicAddrs == r.detectedVicAddrs + {addr}
              && forall k :: k in r.detected && k != idx ==> r'.detected[k] == r.detected[k]
  {
  }

  /** `opDetected` never adds keys, never clears a flag and never forgets an address. */
  lemma DetectGrows(r: DetectionReport, idx: MarchIdx, addr: int)
    ensures Grows(r, Detect(r, idx, addr))
  {
  }

  /** Reporting the same detection twice is reporting it once. */
  lemma DetectIdempotent(r: DetectionReport, idx: MarchIdx, addr: int)
    ensures Detect(Detect(r, idx, addr), idx, addr) == Detect(r, idx, addr)
  {
    if idx in r.detected {
      var r' := Detect(r, idx, addr);
      assert r'.detected[idx := true] == r'.detected;
      assert r'.detectedVicAddrs + {addr} == r'.detectedVicAddrs;
    }
  }

  /** Both operations keep a coherent report coherent. */
  lemma CoherentKept(r: DetectionReport, es: seq<MarchElement>, idx: MarchIdx, addr: int)
    requires Coherent(r)
    ensures Coherent(Created(r, es)) && Coherent(Detect(r, idx, addr))
  {
    var c := Created(r, es);
    forall k | k in c.detected && c.detected[k] ensures c.isDetected {
      CreatedMeaning(r, es, k);
    }
  }

  lemma GrowsTrans(a: DetectionReport, b: DetectionReport, c: DetectionReport)
    requires Grows(a, b) && Grows(b, c)
    ensures Grows(a, c)
  {
  }

  class ResultCollector {
    var results: DetectionReport

    constructor()
      ensures results == DetectionReport(map[], false, {})
    {
      results := DetectionReport(map[], false, {});
    }

    /** `createReport`: the READ operations of every element, in order. */
    method CreateReport(marchElements: seq<MarchElement>)
      modifies this
      ensures results == Created(old(results), marchElements)
    {
      var i := 0;
      while i < |marchElements|
        invariant 0 <= i <= |marchElements|
        invariant Created(old(results), marchElements) == Created(results, marchElements[i..])
      {
        assert marchElements[i..][0] == marchElements[i] && marchElements[i..][1..] == marchElements[i + 1..];
        var ops := marchElements[i].ops;
        ghost var start := results;
        var j := 0;
        while j < |ops|
          invariant 0 <= j <= |ops|
          invariant results == start.(detected := results.detected)
          invariant ClearOps(start.detected, ops) == ClearOps(results.detected, ops[j..])
        {
          assert ops[j..][0] == ops[j] && ops[j..][1..] == ops[j + 1..];
          if ops[j].op.opType == R {
            results := results.(detected := results.detected[ops[j].idx := false]);
          }
          j := j + 1;
        }
        assert ops[j..] == [];
        i := i + 1;
      }
      assert marchElements[i..] == [];
    }

    /** `opDetected`. */
    method OpDetected(idx: MarchIdx, addr: int)
      modifies this
      ensures results == Detect(old(results), idx, addr)
    {
      if idx !in results.detected {
        return;
      }
      results := results.(detected := results.detected[idx := true]);
      results := results.(isDetected := true);
      results := results.(detectedVicAddrs := results.detectedVicAddrs + {addr});
    }

    /** `getReport`. */
    function GetReport(): (r: DetectionReport)
      reads this
      ensures r == results
    {
      results
    }
  }
}
