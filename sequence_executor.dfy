/**
 * The March executor of the new simulator architecture
 * (`src/SequenceExecutor.cpp`): every element of the test visits the
 * memory's addresses in its direction and applies its operations at each
 * address to the fault; a read that returns something other than the
 * expected value is reported to the collector.
 *
 * The fault (`IFault`) is abstract: it is given as the two functions its
 * `readProcess` and `writeProcess` compute over some fault state `S`.
 */
module SequenceExecutor {
  import RC = ResultCollector

  /** What `IFault` does: a read yields a value, and both operations may change the fault's state. */
  datatype FaultModel<!S> = FaultModel(readProcess: (S, int, RC.Op) -> (S, int), writeProcess: (S, int, RC.Op) -> S)

  /** The addresses an element visits, in order: ASC and BOTH go up from 0, DESC comes down to 0. */
  function Addresses(order: RC.Direction, memSize: int): seq<int> {
    if memSize <= 0 then []
    else if order == RC.DESC then seq(memSize, k requires 0 <= k < memSize => memSize - 1 - k)
    else seq(memSize, k requires 0 <= k < memSize => k)
  }

  /** One operation at one address: reads are checked against their expected value, writes go to the fault, other kinds do nothing. */
  function OpStep<S>(fm: FaultModel<S>, rep: RC.DetectionReport, s: S, op: RC.OpC, addr: int): (RC.DetectionReport, S) {
    match op.op.opType
    case R =>
      var (s', value) := fm.readProcess(s, addr, op.op);
      (if value != op.op.value then RC.Detect(rep, op.idx, addr) else rep, s')
    case W => (rep, fm.writeProcess(s, addr, op.op))
    case Other => (rep, s)
  }

  function RunOps<S>(fm: FaultModel<S>, rep: RC.DetectionReport, s: S, ops: seq<RC.OpC>, addr: int): (RC.DetectionReport, S)
    decreases |ops|
  {
    if ops == [] then (rep, s)
    else
      var (rep', s') := OpStep(fm, rep, s, ops[0], addr);
      RunOps(fm, rep', s', ops[1..], addr)
  }

  function RunAddrs<S>(fm: FaultModel<S>, rep: RC.DetectionReport, s: S, ops: seq<RC.OpC>, addrs: seq<int>): (RC.DetectionReport, S)
    decreases |addrs|
  {
    if addrs == [] then (rep, s)
    else
      var (rep', s') := RunOps(fm, rep, s, ops, addrs[0]);
      RunAddrs(fm, rep', s', ops, addrs[1..])
  }

  function RunMarch<S>(fm: FaultModel<S>, rep: RC.DetectionReport, s: S, march: seq<RC.MarchElement>, memSize: int): (RC.DetectionReport, S)
    decreases |march|
  {
    if march == [] then (rep, s)
    else
      var (rep', s') := RunAddrs(fm, rep, s, march[0].ops, Addresses(march[0].addrOrder, memSize));
      RunMarch(fm, rep', s', march[1..], memSize)
  }

  /** `execute`: nothing happens without memory or without elements. */
  function Executed<S>(fm: FaultModel<S>, rep: RC.DetectionReport, s: S, march: seq<RC.MarchElement>, memSize: int): (RC.DetectionReport, S) {
    if memSize <= 0 || march == [] then (rep, s) else RunMarch(fm, rep, s, march, memSize)
  }

  class SequenceExecutor {
    const memSize: int
    const collector: RC.ResultCollector

    constructor(memSize: int, collector: RC.ResultCollector)
      ensures this.memSize == memSize && this.collector == collector
    {
      this.memSize := memSize;
      this.collector := collector;
    }

    /** `execute` over the fault's state `s`; returns the fault's final state. */
    method Execute<S>(marchTest: seq<RC.MarchElement>, fm: FaultModel<S>, s: S) returns (s': S)
      modifies collector
      ensures (collector.results, s') == Executed(fm, old(collector.results), s, marchTest, memSize)
    {
      if memSize <= 0 || |marchTest| == 0 {
        return s;
      }
      s' := s;
      var i := 0;
      while i < |marchTest|
        invariant 0 <= i <= |marchTest|
        invariant RunMarch(fm, old(collector.results), s, marchTest, memSize) == RunMarch(fm, collector.results, s', marchTest[i..], memSize)
      {
        assert marchTest[i..][0] == marchTest[i] && marchTest[i..][1..] == marchTest[i + 1..];
        var elem := marchTest[i];
        if elem.addrOrder == RC.ASC || elem.addrOrder == RC.BOTH {
          s' := Iterate(elem, fm, s', 0, memSize, 1);
        }
        if elem.addrOrder == RC.DESC {
          s' := Iterate(elem, fm, s', memSize - 1, -1, -1);
        }
        i := i + 1;
      }
      assert marchTest[i..] == [];
    }

    /**
     * The `iterate` lambda of `execute`: the element at every address from
     * `begin` up to or down to `end`, exclusive, in steps of `step`; the
     * downward walk ends where the unsigned counter wraps, modelled as -1.
     */
    method Iterate<S>(elem: RC.MarchElement, fm: FaultModel<S>, s: S, begin: int, end: int, step: int) returns (s': S)
      requires memSize > 0
      requires (step == 1 && begin == 0 && end == memSize) || (step == -1 && begin == memSize - 1 && end == -1)
      modifies collector
      ensures (collector.results, s') ==
                RunAddrs(fm, old(collector.results), s, elem.ops, Addresses(if step == 1 then RC.ASC else RC.DESC, memSize))
    {
      ghost var addrs := Addresses(if step == 1 then RC.ASC else RC.DESC, memSize);
      s' := s;
      var addr := begin;
      ghost var n := 0;
      while addr != end
        invariant 0 <= n <= memSize && addr == (if step == 1 then n else memSize - 1 - n)
        invariant RunAddrs(fm, old(collector.results), s, elem.ops, addrs) == RunAddrs(fm, collector.results, s', elem.ops, addrs[n..])
        decreases memSize - n
      {
        assert addrs[n..][0] == addr && addrs[n..][1..] == addrs[n + 1..];
        s' := ProcessElementAtAddr(elem, fm, s', addr);
        addr := addr + step;
        n := n + 1;
      }
      assert addrs[n..] == [];
    }

    /** `processElementAtAddr`: the element's operations in order at one address. */
    method ProcessElementAtAddr<S>(elem: RC.MarchElement, fm: FaultModel<S>, s: S, memIdx: int) returns (s': S)
      modifies collector
      ensures (collector.results, s') == RunOps(fm, old(collector.results), s, elem.ops, memIdx)
    {
      s' := s;
      var ops := elem.ops;
      var j := 0;
      while j < |ops|
        invariant 0 <= j <= |ops|
        invariant RunOps(fm, old(collector.results), s, ops, memIdx) == RunOps(fm, collector.results, s', ops[j..], memIdx)
      {
        assert ops[j..][0] == ops[j] && ops[j..][1..] == ops[j + 1..];
        var op := ops[j];
        if op.op.opType == RC.R {
          var (next, value) := fm.readProcess(s', memIdx, op.op);
          s' := next;
          if value != op.op.value {
            collector.OpDetected(op.idx, memIdx);
          }
        } else if op.op.opType == RC.W {
          s' := fm.writeProcess(s', memIdx, op.op);
        }
        j := j + 1;
      }
      assert ops[j..] == [];
    }
  }

  /** ASC and BOTH visit 0..memSize-1 upwards and DESC downwards: each address of the memory once, and no other. */
  lemma AddressesMeaning(order: RC.Direction, memSize: int)
    ensures |Addresses(order, memSize)| == if memSize <= 0 then 0 else memSize
    ensures forall k :: 0 <= k < |Addresses(order, memSize)| ==> 0 <= Addresses(order, memSize)[k] < memSize
    ensures order != RC.DESC ==>
              forall k, l :: 0 <= k < l < |Addresses(order, memSize)| ==> Addresses(order, memSize)[k] < Addresses(order, memSize)[l]
    ensures order == RC.DESC ==>
              forall k, l :: 0 <= k < l < |Addresses(order, memSize)| ==> Addresses(order, memSize)[k] > Addresses(order, memSize)[l]
  {
  }

  /**
   * A write or an operation of another kind never reports; a read reports
   * exactly when the fault returns a value other than the expected one.
   */
  lemma OpStepMeaning<S>(fm: FaultModel<S>, rep: RC.DetectionReport, s: S, op: RC.OpC, addr: int)
    ensures op.op.opType != RC.R ==> OpStep(fm, rep, s, op, addr).0 == rep
    ensures op.op.opType == RC.R && fm.readProcess(s, addr, op.op).1 == op.op.value ==> OpStep(fm, rep, s, op, addr).0 == rep
    ensures op.op.opType == RC.R && fm.readProcess(s, addr, op.op).1 != op.op.value && op.idx in rep.detected ==>
              var r := OpStep(fm, rep, s, op, addr).0;
              r.detected[op.idx] && r.isDetected && addr in r.detectedVicAddrs
  {
  }

  /**
   * What the executor may do to a report: keep every key, flag and address;
   * record only addresses of the memory; touch only flags of READ positions;
   * keep the report coherent.
   */
  predicate Bounded(r: RC.DetectionReport, r': RC.DetectionReport, memSize: int, readPos: set<RC.MarchIdx>) {
    && RC.Grows(r, r')
    && (forall a :: a in r'.detectedVicAddrs ==> a in r.detectedVicAddrs || 0 <= a < memSize)
    && (forall k :: k in r.detected && k !in readPos ==> r'.detected[k] == r.detected[k])
    && (RC.Coherent(r) ==> RC.Coherent(r'))
  }

  lemma BoundedTrans(a: RC.DetectionReport, b: RC.DetectionReport, c: RC.DetectionReport, memSize: int, readPos: set<RC.MarchIdx>)
    requires Bounded(a, b, memSize, readPos) && Bounded(b, c, memSize, readPos)
    ensures Bounded(a, c, memSize, readPos)
  {
  }

  lemma OpStepBounded<S>(fm: FaultModel<S>, rep: RC.DetectionReport, s: S, op: RC.OpC, addr: int, memSize: int, readPos: set<RC.MarchIdx>)
    requires 0 <= addr < memSize && (op.op.opType == RC.R ==> op.idx in readPos)
    ensures Bounded(rep, OpStep(fm, rep, s, op, addr).0, memSize, readPos)
  {
    RC.DetectGrows(rep, op.idx, addr);
  }

  lemma {:induction false} RunOpsBounded<S>(fm: FaultModel<S>, rep: RC.DetectionReport, s: S, ops: seq<RC.OpC>, addr: int, memSize: int, readPos: set<RC.MarchIdx>)
    requires 0 <= addr < memSize && forall j :: 0 <= j < |ops| && ops[j].op.opType == RC.R ==> ops[j].idx in readPos
    ensures Bounded(rep, RunOps(fm, rep, s, ops, addr).0, memSize, readPos)
    decreases |ops|
  {
    if ops != [] {
      var (rep', s') := OpStep(fm, rep, s, ops[0], addr);
      OpStepBounded(fm, rep, s, ops[0], addr, memSize, readPos);
      RunOpsBounded(fm, rep', s', ops[1..], addr, memSize, readPos);
      BoundedTrans(rep, rep', RunOps(fm, rep, s, ops, addr).0, memSize, readPos);
    }
  }

  lemma {:induction false} RunAddrsBounded<S>(fm: FaultModel<S>, rep: RC.DetectionReport, s: S, ops: seq<RC.OpC>, addrs: seq<int>, memSize: int, readPos: set<RC.MarchIdx>)
    requires forall k :: 0 <= k < |addrs| ==> 0 <= addrs[k] < memSize
    requires forall j :: 0 <= j < |ops| && ops[j].op.opType == RC.R ==> ops[j].idx in readPos
    ensures Bounded(rep, RunAddrs(fm, rep, s, ops, addrs).0, memSize, readPos)
    decreases |addrs|
  {
    if addrs != [] {
      var (rep', s') := RunOps(fm, rep, s, ops, addrs[0]);
      RunOpsBounded(fm, rep, s, ops, addrs[0], memSize, readPos);
      RunAddrsBounded(fm, rep', s', ops, addrs[1..], memSize, readPos);
      BoundedTrans(rep, rep', RunAddrs(fm, rep, s, ops, addrs).0, memSize, readPos);
    }
  }

  lemma {:induction false} RunMarchBounded<S>(fm: FaultModel<S>, rep: RC.DetectionReport, s: S, march: seq<RC.MarchElement>, memSize: int, readPos: set<RC.MarchIdx>)
    requires forall i, j :: 0 <= i < |march| && 0 <= j < |march[i].ops| && march[i].ops[j].op.opType == RC.R ==> march[i].ops[j].idx in readPos
    ensures Bounded(rep, RunMarch(fm, rep, s, march, memSize).0, memSize, readPos)
    decreases |march|
  {
    if march != [] {
      var addrs := Addresses(march[0].addrOrder, memSize);
      AddressesMeaning(march[0].addrOrder, memSize);
      var (rep', s') := RunAddrs(fm, rep, s, march[0].ops, addrs);
      RunAddrsBounded(fm, rep, s, march[0].ops, addrs, memSize, readPos);
      forall i, j | 0 <= i < |march[1..]| && 0 <= j < |march[1..][i].ops| && march[1..][i].ops[j].op.opType == RC.R
        ensures march[1..][i].ops[j].idx in readPos
      {
        assert march[1..][i] == march[i + 1];
      }
      RunMarchBounded(fm, rep', s', march[1..], memSize, readPos);
      BoundedTrans(rep, rep', RunMarch(fm, rep, s, march, memSize).0, memSize, readPos);
    }
  }

  /**
   * Executing a March test keeps every key, flag and address of the report
   * and its coherence, records only addresses of the memory, and sets only
   * flags of the test's READ operations.
   */
  lemma ExecuteBounded<S>(fm: FaultModel<S>, rep: RC.DetectionReport, s: S, march: seq<RC.MarchElement>, memSize: int)
    ensures Bounded(rep, Executed(fm, rep, s, march, memSize).0, memSize, RC.ReadIdxs(march))
  {
    forall i, j | 0 <= i < |march| && 0 <= j < |march[i].ops| && march[i].ops[j].op.opType == RC.R
      ensures march[i].ops[j].idx in RC.ReadIdxs(march)
    {
      RC.ReadIdxsHas(march, i, j);
    }
    RunMarchBounded(fm, rep, s, march, memSize, RC.ReadIdxs(march));
  }

  /** A fault whose reads always return the expected value. */
  ghost predicate FaultFree<S(!new)>(fm: FaultModel<S>) {
    forall s: S, addr: int, op: RC.Op :: fm.readProcess(s, addr, op).1 == op.value
  }

  lemma {:induction false} RunOpsFaultFree<S(!new)>(fm: FaultModel<S>, rep: RC.DetectionReport, s: S, ops: seq<RC.OpC>, addr: int)
    requires FaultFree(fm)
    ensures RunOps(fm, rep, s, ops, addr).0 == rep
    decreases |ops|
  {
    if ops != [] {
      var (rep', s') := OpStep(fm, rep, s, ops[0], addr);
      assert fm.readProcess(s, addr, ops[0].op).1 == ops[0].op.value;
      RunOpsFaultFree(fm, rep', s', ops[1..], addr);
    }
  }

  lemma {:induction false} RunAddrsFaultFree<S(!new)>(fm: FaultModel<S>, rep: RC.DetectionReport, s: S, ops: seq<RC.OpC>, addrs: seq<int>)
    requires FaultFree(fm)
    ensures RunAddrs(fm, rep, s, ops, addrs).0 == rep
    decreases |addrs|
  {
    if addrs != [] {
      var (rep', s') := RunOps(fm, rep, s, ops, addrs[0]);
      RunOpsFaultFree(fm, rep, s, ops, addrs[0]);
      RunAddrsFaultFree(fm, rep', s', ops, addrs[1..]);
    }
  }

  lemma {:induction false} RunMarchFaultFree<S(!new)>(fm: FaultModel<S>, rep: RC.DetectionReport, s: S, march: seq<RC.MarchElement>, memSize: int)
    requires FaultFree(fm)
    ensures RunMarch(fm, rep, s, march, memSize).0 == rep
    decreases |march|
  {
    if march != [] {
      var addrs := Addresses(march[0].addrOrder, memSize);
      var (rep', s') := RunAddrs(fm, rep, s, march[0].ops, addrs);
      RunAddrsFaultFree(fm, rep, s, march[0].ops, addrs);
      RunMarchFaultFree(fm, rep', s', march[1..], memSize);
    }
  }

  /** A fault-free memory never produces a detection, whatever the March test. */
  lemma ExecuteFaultFree<S(!new)>(fm: FaultModel<S>, rep: RC.DetectionReport, s: S, march: seq<RC.MarchElement>, memSize: int)
    requires FaultFree(fm)
    ensures Executed(fm, rep, s, march, memSize).0 == rep
  {
    RunMarchFaultFree(fm, rep, s, march, memSize);
  }

  /** Without memory or without elements the report and the fault are untouched. */
  lemma ExecuteNothing<S>(fm: FaultModel<S>, rep: RC.DetectionReport, s: S, march: seq<RC.MarchElement>, memSize: int)
    requires memSize <= 0 || march == []
    ensures Executed(fm, rep, s, march, memSize) == (rep, s)
  {
  }
}
