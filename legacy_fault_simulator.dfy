/**
 * The older fault simulator of `faultSimulator.cpp`: every cell of a memory
 * of `side * side` cells keeps a bounded history of the operations applied to
 * it and fires its fault when a trigger value, or a trigger value followed by
 * a sequence of operations, is seen; a subcase walks the whole March test
 * over all addresses and records, per read operation, at which addresses the
 * value read differed from the one expected.
 *
 * The behaviour is first stated on values (`CellState`, `seq<CellState>` for
 * the memory, `SubcaseSynd` for the syndrome); the classes `Cell`, `Memory`
 * and `FaultSimulator` are proved to follow it.
 */
module LegacyFaultSimulator {
  import opened Wrappers
  import opened LegacyTypes
  import NewFaultTypes
  import NewFaultSimulator

  // ---------------------------------------------------------------------
  // One cell, on values
  // ---------------------------------------------------------------------

  datatype CellState = CellState(
    value: int, triggerValue: int, maxQueue: nat, faultValue: int, finalReadValue: int,
    faultSeq: seq<SingleOp>, history: seq<OperationRecord>)
  {
    /** The history never holds more than `maxQueue` records. */
    predicate Bounded() {
      |history| <= maxQueue
    }

    /** A trigger installed by `installFault`: the queue is as long as the sequence. */
    predicate Armed() {
      Bounded() && maxQueue == |faultSeq|
    }
  }

  /** A default-constructed cell. */
  const DEFAULT_CELL := CellState(0, UNSET, 0, UNSET, UNSET, [], [])

  function InitCell(s: CellState, init: int): CellState {
    s.(value := init, triggerValue := UNSET, faultValue := UNSET, finalReadValue := UNSET,
       maxQueue := 0, history := [])
  }

  /** `installFault` with a trigger sequence. */
  function InstallSeq(s: CellState, ops: seq<SingleOp>, triggerI: int, finalF: int, finalR: int): (r: CellState)
    ensures r.Armed() && r.history == []
  {
    s.(faultSeq := ops, triggerValue := triggerI, maxQueue := |ops|, history := [],
       faultValue := finalF, finalReadValue := finalR)
  }

  /** `installFault` with a trigger value only. */
  function InstallValue(s: CellState, triggerI: int, finalF: int, finalR: int): (r: CellState)
    ensures r.Armed() && r.history == [] && r.faultSeq == []
  {
    s.(faultSeq := [], triggerValue := triggerI, maxQueue := 0, history := [],
       faultValue := finalF, finalReadValue := finalR)
  }

  /** The most recent `n` records of `h`, oldest first. */
  function Window(h: seq<OperationRecord>, n: nat): (r: seq<OperationRecord>)
    ensures |r| <= n && |r| <= |h| && r == h[|h| - |r|..]
    ensures |h| <= n ==> r == h
  {
    if |h| <= n then h else h[|h| - n..]
  }

  /**
   * `recordOperation`: one record is appended and, past `maxQueue`, the
   * oldest one dropped; a bounded history thus keeps exactly the latest
   * `maxQueue` records, and none when `maxQueue` is 0.
   */
  function Recorded(s: CellState, op: SingleOp, before: int): (r: CellState)
    ensures s.Bounded() ==> r.Bounded() && r.history == Window(s.history + [OperationRecord(before, op, s.value)], s.maxQueue)
    ensures s.Bounded() && s.maxQueue == 0 ==> r.history == []
    ensures r == s.(history := r.history)
  {
    var h := s.history + [OperationRecord(before, op, s.value)];
    s.(history := if |h| > s.maxQueue then h[1..] else h)
  }

  /** Two operations agree in type and value (their numbers in the test are not compared). */
  predicate SameOp(a: SingleOp, b: SingleOp) {
    a.opType == b.opType && a.value == b.value
  }

  /**
   * `historyMatches`: the history holds at least as many records as the
   * trigger sequence, the oldest starts from the trigger value, and the
   * records agree with the sequence from the oldest on.
   */
  predicate MatchesHistory(s: CellState)
    requires s.faultSeq != [] || s.history != []
  {
    |s.history| >= |s.faultSeq|
    && s.history[0].beforeValue == s.triggerValue
    && forall k :: 0 <= k < |s.faultSeq| ==> SameOp(s.history[k].op, s.faultSeq[k])
  }

  /** `checkTrigger`, on the state after the operation was recorded. */
  predicate TriggerHolds(s: CellState) {
    if s.triggerValue == UNSET then false
    else if s.faultSeq == [] then s.value == s.triggerValue
    else MatchesHistory(s)
  }

  /** `triggerFault`: the cell takes the fault value, unless that is unset. */
  function Triggered(s: CellState): (r: CellState)
    ensures s.faultValue == UNSET ==> r == s
    ensures s.faultValue != UNSET ==> r == s.(value := s.faultValue)
  {
    if s.faultValue == UNSET then s else s.(value := s.faultValue)
  }

  /** The value of the cell once `op` has been performed and before any trigger. */
  function Written(s: CellState, op: SingleOp): int {
    if op.opType == Write then op.value else s.value
  }

  /** Whether `op` fires the cell's fault. */
  predicate Fires(s: CellState, op: SingleOp) {
    TriggerHolds(Recorded(s.(value := Written(s, op)), op, s.value))
  }

  /** `applyOp`: the new state of the cell and the value returned (-1 for a write). */
  function StepCell(s: CellState, op: SingleOp): (CellState, int) {
    var recorded := Recorded(s.(value := Written(s, op)), op, s.value);
    if TriggerHolds(recorded) then
      var t := Triggered(recorded);
      (t, if op.opType == Read then (if t.finalReadValue != UNSET then t.finalReadValue else t.value) else UNSET)
    else
      (recorded, if op.opType == Read then recorded.value else UNSET)
  }

  /**
   * What one operation does: a write stores its value first; a firing fault
   * then forces the fault value unless that is -1; a read returns the final
   * read value when the fault fired and it is set, and the cell's value
   * otherwise; a write returns -1. Only the value and the history change.
   */
  lemma StepMeaning(s: CellState, op: SingleOp)
    ensures var (t, out) := StepCell(s, op);
            && t.value == (if Fires(s, op) && s.faultValue != UNSET then s.faultValue else Written(s, op))
            && (op.opType == Write ==> out == UNSET)
            && (op.opType == Read ==>
                  out == (if Fires(s, op) && s.finalReadValue != UNSET then s.finalReadValue else t.value))
            && t == s.(value := t.value, history := t.history)
  {
  }

  /**
   * When the trigger fires, for an armed cell: never with trigger value -1;
   * for a value trigger, exactly when the value after the operation equals
   * the trigger value; for a sequence trigger, exactly when the latest
   * `|faultSeq|` operations, this one included, agree with the sequence and
   * the oldest of them started from the trigger value.
   */
  lemma FiresMeaning(s: CellState, op: SingleOp)
    requires s.Armed()
    ensures s.triggerValue == UNSET ==> !Fires(s, op)
    ensures s.triggerValue != UNSET && s.faultSeq == [] ==> (Fires(s, op) <==> Written(s, op) == s.triggerValue)
    ensures s.triggerValue != UNSET && s.faultSeq != [] ==>
              var h := Window(s.history + [OperationRecord(s.value, op, Written(s, op))], |s.faultSeq|);
              (Fires(s, op) <==>
                 && |h| == |s.faultSeq|
                 && h[0].beforeValue == s.triggerValue
                 && forall k :: 0 <= k < |h| ==> SameOp(h[k].op, s.faultSeq[k]))
  {
    var recorded := Recorded(s.(value := Written(s, op)), op, s.value);
    assert recorded.history == Window(s.history + [OperationRecord(s.value, op, Written(s, op))], |s.faultSeq|);
  }

  /** An operation keeps a cell armed. */
  lemma StepKeepsArmed(s: CellState, op: SingleOp)
    requires s.Armed()
    ensures StepCell(s, op).0.Armed()
    ensures StepCell(s, op).0.faultSeq == s.faultSeq && StepCell(s, op).0.triggerValue == s.triggerValue
  {
    var recorded := Recorded(s.(value := Written(s, op)), op, s.value);
    assert recorded.Bounded();
  }

  function RunCell(s: CellState, ops: seq<SingleOp>): CellState
    decreases |ops|
  {
    if ops == [] then s else StepCell(RunCell(s, ops[..|ops| - 1]), ops[|ops| - 1]).0
  }

  /** The value a read returns after the operations `ops`. */
  function ReadAfter(s: CellState, ops: seq<SingleOp>, v: int): int {
    StepCell(RunCell(s, ops), SingleOp(Read, v, 0)).1
  }

  /** The value last written by `ops`, or `initial` when they write nothing. */
  function LastWritten(initial: int, ops: seq<SingleOp>): int
    decreases |ops|
  {
    if ops == [] then initial
    else if ops[|ops| - 1].opType == Write then ops[|ops| - 1].value
    else LastWritten(initial, ops[..|ops| - 1])
  }

  /** A cell that cannot fire (no trigger value) or whose fault changes nothing (fault and read values -1). */
  predicate Inert(s: CellState) {
    s.triggerValue == UNSET || (s.faultValue == UNSET && s.finalReadValue == UNSET)
  }

  /**
   * An inert cell is plain storage: its value is the last value written and
   * a read returns it. This covers a cell after `init` and every aggressor,
   * which is installed with fault and read values -1.
   */
  lemma {:induction false} PlainMemory(s: CellState, ops: seq<SingleOp>, v: int)
    requires Inert(s)
    ensures Inert(RunCell(s, ops))
    ensures RunCell(s, ops).value == LastWritten(s.value, ops)
    ensures ReadAfter(s, ops, v) == LastWritten(s.value, ops)
    decreases |ops|
  {
    if ops != [] {
      var prefix := ops[..|ops| - 1];
      PlainMemory(s, prefix, v);
      StepMeaning(RunCell(s, prefix), ops[|ops| - 1]);
    }
    StepMeaning(RunCell(s, ops), SingleOp(Read, v, 0));
  }

  // ---------------------------------------------------------------------
  // The memory and one subcase, on values
  // ---------------------------------------------------------------------

  /** `Memory(init)`: `n` cells, each initialised to `init`. */
  function InitialMemory(n: nat, init: int): (m: seq<CellState>)
    ensures |m| == n && forall a :: 0 <= a < n ==> m[a] == InitCell(DEFAULT_CELL, init)
  {
    seq(n, _ => InitCell(DEFAULT_CELL, init))
  }

  /** The victim, and for a coupling fault the aggressor, are distinct cells of a memory of `n` cells. */
  predicate CellsFor(n: int, sc: FaultSubcase, vic: int, aggr: int) {
    0 <= vic < n && aggr != vic && (sc.faultType == Coupling ==> 0 <= aggr < n)
  }

  /**
   * `Memory::installFault`, with the trigger value given to an aggressor's
   * trigger sequence as a parameter: the source passes the victim's trigger
   * value `VI` (`InstallFaultAsWritten`), the subcase's aggressor trigger
   * value is `AI` (`InstallFault`).
   */
  function InstallFaultWith(m: seq<CellState>, sc: FaultSubcase, vic: int, aggr: int, aggrSeqTrigger: int): (r: seq<CellState>)
    requires 0 <= vic < |m| && (sc.faultType == Coupling ==> 0 <= aggr < |m|)
    ensures |r| == |m|
  {
    var victim := if sc.seqV != [] then InstallSeq(m[vic], sc.seqV, sc.VI, sc.finalF, sc.finalR)
                  else InstallValue(m[vic], sc.VI, sc.finalF, sc.finalR);
    var m1 := m[vic := victim];
    if sc.faultType == Coupling then
      var aggressor := if sc.seqA != [] then InstallSeq(m1[aggr], sc.seqA, aggrSeqTrigger, UNSET, UNSET)
                       else InstallValue(m1[aggr], sc.AI, UNSET, UNSET);
      m1[aggr := aggressor]
    else m1
  }

  function InstallFaultAsWritten(m: seq<CellState>, sc: FaultSubcase, vic: int, aggr: int): seq<CellState>
    requires 0 <= vic < |m| && (sc.faultType == Coupling ==> 0 <= aggr < |m|)
  {
    InstallFaultWith(m, sc, vic, aggr, sc.VI)
  }

  /**
   * The victim is armed with `seqV` (or just `VI`) and the subcase's final
   * values; a coupling subcase's aggressor with `seqA` (or just `AI`),
   * triggered from `AI`, and fault and read values -1; no other cell changes.
   */
  function InstallFault(m: seq<CellState>, sc: FaultSubcase, vic: int, aggr: int): (r: seq<CellState>)
    requires CellsFor(|m|, sc, vic, aggr)
    ensures |r| == |m|
    ensures r[vic].faultSeq == sc.seqV && r[vic].triggerValue == sc.VI && r[vic].Armed() && r[vic].history == []
    ensures r[vic].faultValue == sc.finalF && r[vic].finalReadValue == sc.finalR && r[vic].value == m[vic].value
    ensures sc.faultType == Coupling ==>
              && r[aggr].faultSeq == sc.seqA && r[aggr].triggerValue == sc.AI && r[aggr].Armed()
              && Inert(r[aggr]) && r[aggr].value == m[aggr].value
    ensures forall a :: 0 <= a < |m| && a != vic && (sc.faultType == Coupling ==> a != aggr) ==> r[a] == m[a]
  {
    InstallFaultWith(m, sc, vic, aggr, sc.AI)
  }

  /**
   * As written, a coupling subcase whose aggressor has a trigger sequence is
   * installed with the victim's trigger value: with `AI` 0 and `VI` 1 the
   * aggressor waits for a sequence starting from 1.
   */
  lemma InstallFaultAsWrittenUsesVictimTrigger()
    ensures var sc := FaultSubcase(Coupling, 0, 0, 1, [SingleOp(Write, 1, 0)], [], SingleOp(Read, 0, 0), 0, UNSET);
            var m := InitialMemory(4, 0);
            && InstallFaultAsWritten(m, sc, 1, 0)[0].triggerValue == 1
            && InstallFault(m, sc, 1, 0)[0].triggerValue == 0
            && sc.AI == 0
  {
  }

  /** The orders of the read operations among `ops`. */
  function ReadOrders(ops: seq<SingleOp>): set<int>
    decreases |ops|
  {
    if ops == [] then {}
    else ReadOrders(ops[..|ops| - 1]) + (if ops[|ops| - 1].opType == Read then {ops[|ops| - 1].order} else {})
  }

  function MarchReadOrders(march: seq<MarchElement>): set<int>
    decreases |march|
  {
    if march == [] then {} else MarchReadOrders(march[..|march| - 1]) + ReadOrders(march[|march| - 1].ops)
  }

  /**
   * A syndrome in which an operation counts as detected exactly when it
   * holds an address, and every address lies in a memory of `n` cells.
   */
  predicate Consistent(synd: SubcaseSynd, n: int) {
    forall k :: k in synd ==>
      (synd[k].detected <==> synd[k].addresses != [])
      && forall j :: 0 <= j < |synd[k].addresses| ==> 0 <= synd[k].addresses[j] < n
  }

  /** `after` keeps every entry of `before`: detection stays, addresses only get appended. */
  predicate Grows(before: SubcaseSynd, after: SubcaseSynd) {
    forall k :: k in before ==>
      k in after && (before[k].detected ==> after[k].detected)
      && before[k].addresses <= after[k].addresses
  }

  lemma GrowsTransitive(a: SubcaseSynd, b: SubcaseSynd, c: SubcaseSynd)
    requires Grows(a, b) && Grows(b, c)
    ensures Grows(a, c)
  {
    forall k | k in a
      ensures k in c && (a[k].detected ==> c[k].detected) && a[k].addresses <= c[k].addresses
    {
      assert a[k].addresses <= b[k].addresses <= c[k].addresses;
    }
  }

  /**
   * One operation of the subcase at `addr`: a write goes to the cell; a read
   * first enters the operation in the syndrome, undetected, if it is not
   * there, then reads, and on a value other than the expected one marks the
   * operation detected and appends `addr`.
   */
  function ProcessOp(m: seq<CellState>, synd: SubcaseSynd, addr: int, op: SingleOp): (r: (seq<CellState>, SubcaseSynd))
    requires 0 <= addr < |m|
    ensures |r.0| == |m|
  {
    if op.opType == Write then
      (m[addr := StepCell(m[addr], SingleOp(Write, op.value, 0)).0], synd)
    else
      var entered := if op.order in synd then synd else synd[op.order := OpSynd(false, [])];
      var (c, readValue) := StepCell(m[addr], SingleOp(Read, op.value, 0));
      var e := entered[op.order];
      (m[addr := c], if readValue != op.value then entered[op.order := OpSynd(true, e.addresses + [addr])] else entered)
  }

  /** The operations of an element, in order, at one address. */
  function RunOps(m: seq<CellState>, synd: SubcaseSynd, addr: int, ops: seq<SingleOp>): (r: (seq<CellState>, SubcaseSynd))
    requires 0 <= addr < |m|
    ensures |r.0| == |m|
    decreases |ops|
  {
    if ops == [] then (m, synd)
    else
      var (m1, s1) := RunOps(m, synd, addr, ops[..|ops| - 1]);
      ProcessOp(m1, s1, addr, ops[|ops| - 1])
  }

  predicate InRange(addrs: seq<int>, n: int) {
    forall k :: 0 <= k < |addrs| ==> 0 <= addrs[k] < n
  }

  /** The operations of an element at each address of `addrs` in turn. */
  function RunAddrs(m: seq<CellState>, synd: SubcaseSynd, addrs: seq<int>, ops: seq<SingleOp>): (r: (seq<CellState>, SubcaseSynd))
    requires InRange(addrs, |m|)
    ensures |r.0| == |m|
    decreases |addrs|
  {
    if addrs == [] then (m, synd)
    else
      var (m1, s1) := RunAddrs(m, synd, addrs[..|addrs| - 1], ops);
      RunOps(m1, s1, addrs[|addrs| - 1], ops)
  }

  /** `iterateAddresses`: all `n` addresses, upwards or (for `descending`) downwards. */
  function Addresses(n: nat, descending: bool): (addrs: seq<int>)
    ensures |addrs| == n && InRange(addrs, n)
    ensures forall k :: 0 <= k < n ==> addrs[k] == (if descending then n - 1 - k else k)
  {
    seq(n, k => if descending then n - 1 - k else k)
  }

  /** Each address of the memory is visited exactly once, in the order asked for. */
  lemma AddressesOnce(n: nat, descending: bool)
    ensures var addrs := Addresses(n, descending);
            && (forall a :: a in addrs <==> 0 <= a < n)
            && (forall i, j :: 0 <= i < j < n ==> (if descending then addrs[i] > addrs[j] else addrs[i] < addrs[j]))
  {
    var addrs := Addresses(n, descending);
    forall a | 0 <= a < n ensures a in addrs {
      var k := if descending then n - 1 - a else a;
      assert addrs[k] == a;
    }
  }

  /** `clearElementQueues`: every history emptied, nothing else changed. */
  function ClearQueues(m: seq<CellState>): (r: seq<CellState>)
    ensures |r| == |m| && forall a :: 0 <= a < |m| ==> r[a] == m[a].(history := [])
  {
    seq(|m|, a requires 0 <= a < |m| => m[a].(history := []))
  }

  /** One March element: its operations at every address in its order, then the histories cleared. */
  function RunElement(m: seq<CellState>, synd: SubcaseSynd, e: MarchElement): (r: (seq<CellState>, SubcaseSynd))
    ensures |r.0| == |m|
  {
    var (m1, s1) := RunAddrs(m, synd, Addresses(|m|, e.addrOrder), e.ops);
    (ClearQueues(m1), s1)
  }

  /** The whole March test, element by element. */
  function RunMarch(m: seq<CellState>, synd: SubcaseSynd, march: seq<MarchElement>): (r: (seq<CellState>, SubcaseSynd))
    ensures |r.0| == |m|
    decreases |march|
  {
    if march == [] then (m, synd)
    else
      var (m1, s1) := RunMarch(m, synd, march[..|march| - 1]);
      RunElement(m1, s1, march[|march| - 1])
  }

  /**
   * How a run changes the syndrome: it keeps every entry (`Grows`), adds an
   * entry for exactly the operations numbered in `keys`, and keeps it
   * `Consistent` for a memory of `n` cells.
   */
  predicate Extends(before: SubcaseSynd, after: SubcaseSynd, keys: set<int>, n: int) {
    Grows(before, after) && after.Keys == before.Keys + keys
    && (Consistent(before, n) ==> Consistent(after, n))
  }

  lemma ExtendsTransitive(a: SubcaseSynd, b: SubcaseSynd, c: SubcaseSynd, k1: set<int>, k2: set<int>, n: int)
    requires Extends(a, b, k1, n) && Extends(b, c, k2, n)
    ensures Extends(a, c, k1 + k2, n)
  {
    GrowsTransitive(a, b, c);
  }

  lemma ProcessOpSyndrome(m: seq<CellState>, synd: SubcaseSynd, addr: int, op: SingleOp)
    requires 0 <= addr < |m|
    ensures Extends(synd, ProcessOp(m, synd, addr, op).1, if op.opType == Read then {op.order} else {}, |m|)
  {
  }

  lemma {:induction false} RunOpsSyndrome(m: seq<CellState>, synd: SubcaseSynd, addr: int, ops: seq<SingleOp>)
    requires 0 <= addr < |m|
    ensures Extends(synd, RunOps(m, synd, addr, ops).1, ReadOrders(ops), |m|)
    decreases |ops|
  {
    if ops != [] {
      var prefix, op := ops[..|ops| - 1], ops[|ops| - 1];
      RunOpsSyndrome(m, synd, addr, prefix);
      var (m1, s1) := RunOps(m, synd, addr, prefix);
      ProcessOpSyndrome(m1, s1, addr, op);
      ExtendsTransitive(synd, s1, ProcessOp(m1, s1, addr, op).1, ReadOrders(prefix), if op.opType == Read then {op.order} else {}, |m|);
    }
  }

  lemma {:induction false} RunAddrsSyndrome(m: seq<CellState>, synd: SubcaseSynd, addrs: seq<int>, ops: seq<SingleOp>)
    requires InRange(addrs, |m|)
    ensures Extends(synd, RunAddrs(m, synd, addrs, ops).1, if addrs == [] then {} else ReadOrders(ops), |m|)
    decreases |addrs|
  {
    if addrs != [] {
      var prefix := addrs[..|addrs| - 1];
      RunAddrsSyndrome(m, synd, prefix, ops);
      var (m1, s1) := RunAddrs(m, synd, prefix, ops);
      RunOpsSyndrome(m1, s1, addrs[|addrs| - 1], ops);
      ExtendsTransitive(synd, s1, RunOps(m1, s1, addrs[|addrs| - 1], ops).1,
                        if prefix == [] then {} else ReadOrders(ops), ReadOrders(ops), |m|);
    }
  }

  /**
   * The syndrome of a whole March test: every read operation of the test,
   * and nothing else, gets an entry (when the memory has a cell); entries
   * only grow; an entry is detected exactly when it holds an address, and
   * every address is a cell of the memory.
   */
  lemma {:induction false} RunMarchSyndrome(m: seq<CellState>, synd: SubcaseSynd, march: seq<MarchElement>)
    ensures Extends(synd, RunMarch(m, synd, march).1, if m == [] then {} else MarchReadOrders(march), |m|)
    decreases |march|
  {
    if march != [] {
      var prefix, e := march[..|march| - 1], march[|march| - 1];
      RunMarchSyndrome(m, synd, prefix);
      var (m1, s1) := RunMarch(m, synd, prefix);
      RunAddrsSyndrome(m1, s1, Addresses(|m1|, e.addrOrder), e.ops);
      ExtendsTransitive(synd, s1, RunElement(m1, s1, e).1,
                        if m == [] then {} else MarchReadOrders(prefix), if m == [] then {} else ReadOrders(e.ops), |m|);
    }
  }

  /** Two cells that differ at most in the trigger value of a fault that changes nothing. */
  predicate Equivalent(a: CellState, b: CellState) {
    a == b || (a == b.(triggerValue := a.triggerValue) && a.faultValue == UNSET && a.finalReadValue == UNSET)
  }

  predicate MemEquivalent(m1: seq<CellState>, m2: seq<CellState>) {
    |m1| == |m2| && forall a :: 0 <= a < |m1| ==> Equivalent(m1[a], m2[a])
  }

  lemma StepEquivalent(a: CellState, b: CellState, op: SingleOp)
    requires Equivalent(a, b)
    ensures Equivalent(StepCell(a, op).0, StepCell(b, op).0) && StepCell(a, op).1 == StepCell(b, op).1
  {
    if a != b {
      StepMeaning(a, op);
      StepMeaning(b, op);
    }
  }

  lemma ProcessOpEquivalent(m1: seq<CellState>, m2: seq<CellState>, synd: SubcaseSynd, addr: int, op: SingleOp)
    requires MemEquivalent(m1, m2) && 0 <= addr < |m1|
    ensures MemEquivalent(ProcessOp(m1, synd, addr, op).0, ProcessOp(m2, synd, addr, op).0)
    ensures ProcessOp(m1, synd, addr, op).1 == ProcessOp(m2, synd, addr, op).1
  {
    StepEquivalent(m1[addr], m2[addr], SingleOp(op.opType, op.value, 0));
  }

  lemma {:induction false} RunOpsEquivalent(m1: seq<CellState>, m2: seq<CellState>, synd: SubcaseSynd, addr: int, ops: seq<SingleOp>)
    requires MemEquivalent(m1, m2) && 0 <= addr < |m1|
    ensures MemEquivalent(RunOps(m1, synd, addr, ops).0, RunOps(m2, synd, addr, ops).0)
    ensures RunOps(m1, synd, addr, ops).1 == RunOps(m2, synd, addr, ops).1
    decreases |ops|
  {
    if ops != [] {
      var prefix := ops[..|ops| - 1];
      RunOpsEquivalent(m1, m2, synd, addr, prefix);
      var r1, r2 := RunOps(m1, synd, addr, prefix), RunOps(m2, synd, addr, prefix);
      ProcessOpEquivalent(r1.0, r2.0, r1.1, addr, ops[|ops| - 1]);
    }
  }

  lemma {:induction false} RunAddrsEquivalent(m1: seq<CellState>, m2: seq<CellState>, synd: SubcaseSynd, addrs: seq<int>, ops: seq<SingleOp>)
    requires MemEquivalent(m1, m2) && InRange(addrs, |m1|)
    ensures MemEquivalent(RunAddrs(m1, synd, addrs, ops).0, RunAddrs(m2, synd, addrs, ops).0)
    ensures RunAddrs(m1, synd, addrs, ops).1 == RunAddrs(m2, synd, addrs, ops).1
    decreases |addrs|
  {
    if addrs != [] {
      var prefix := addrs[..|addrs| - 1];
      RunAddrsEquivalent(m1, m2, synd, prefix, ops);
      var r1, r2 := RunAddrs(m1, synd, prefix, ops), RunAddrs(m2, synd, prefix, ops);
      RunOpsEquivalent(r1.0, r2.0, r1.1, addrs[|addrs| - 1], ops);
    }
  }

  lemma {:induction false} RunMarchEquivalent(m1: seq<CellState>, m2: seq<CellState>, synd: SubcaseSynd, march: seq<MarchElement>)
    requires MemEquivalent(m1, m2)
    ensures MemEquivalent(RunMarch(m1, synd, march).0, RunMarch(m2, synd, march).0)
    ensures RunMarch(m1, synd, march).1 == RunMarch(m2, synd, march).1
    decreases |march|
  {
    if march != [] {
      var prefix, e := march[..|march| - 1], march[|march| - 1];
      RunMarchEquivalent(m1, m2, synd, prefix);
      var r1, r2 := RunMarch(m1, synd, prefix), RunMarch(m2, synd, prefix);
      RunAddrsEquivalent(r1.0, r2.0, r1.1, Addresses(|r1.0|, e.addrOrder), e.ops);
      var a1 := RunAddrs(r1.0, r1.1, Addresses(|r1.0|, e.addrOrder), e.ops).0;
      var a2 := RunAddrs(r2.0, r2.1, Addresses(|r2.0|, e.addrOrder), e.ops).0;
      forall a | 0 <= a < |a1| ensures Equivalent(ClearQueues(a1)[a], ClearQueues(a2)[a]) {
        assert Equivalent(a1[a], a2[a]);
      }
    }
  }

  /**
   * The aggressor's trigger value has no effect on a syndrome: whatever it
   * is, the installed memories run the same March test to the same
   * syndrome, because an aggressor's fault and read values are -1.
   */
  lemma AggressorTriggerUnobserved(m: seq<CellState>, sc: FaultSubcase, vic: int, aggr: int, march: seq<MarchElement>)
    requires CellsFor(|m|, sc, vic, aggr)
    ensures RunMarch(InstallFaultAsWritten(m, sc, vic, aggr), map[], march).1
            == RunMarch(InstallFault(m, sc, vic, aggr), map[], march).1
  {
    var m1, m2 := InstallFaultAsWritten(m, sc, vic, aggr), InstallFault(m, sc, vic, aggr);
    assert MemEquivalent(m1, m2) by {
      forall a | 0 <= a < |m1| ensures Equivalent(m1[a], m2[a]) {
        if sc.faultType == Coupling && a == aggr && sc.seqA != [] {
          assert m1[a] == m2[a].(triggerValue := sc.VI);
        } else {
          assert m1[a] == m2[a];
        }
      }
    }
    RunMarchEquivalent(m1, m2, map[], march);
  }

  // ---------------------------------------------------------------------
  // Choice of the aggressor and the victim
  // ---------------------------------------------------------------------

  /**
   * What the random source may deliver to `chooseAggVictim` in a memory of
   * `side * side` cells: a victim from the range of the branch taken and a
   * 0/1 choice.
   */
  predicate PicksInRange(side: int, sc: FaultSubcase, vic: int, choice: int) {
    side > 0 && (choice == 0 || choice == 1)
    && (sc.faultType == Single ==> 0 <= vic <= side * side - 1)
    && (sc.faultType == Coupling && sc.A == 0 ==> 1 <= vic <= side * side - 1)
    && (sc.faultType == Coupling && sc.A == 1 ==> 0 <= vic <= side * side - 2)
  }

  /** `chooseAggVictim` with the random victim and the random choice as parameters. */
  function ChooseAggVictim(side: int, sc: FaultSubcase, vic: int, choice: int): (int, int)
    requires PicksInRange(side, sc, vic, choice)
  {
    if sc.faultType == Single then (-1, vic)
    else if sc.A == 0 then
      if vic / side == 0 then (vic - 1, vic)
      else if vic % side == 0 then (vic - side, vic)
      else if choice == 0 then (vic - side, vic)
      else (vic - 1, vic)
    else if sc.A == 1 then
      if vic / side == side - 1 then (vic + 1, vic)
      else if vic % side == side - 1 then (vic + side, vic)
      else if choice == 0 then (vic + side, vic)
      else (vic + 1, vic)
    else (-1, -1)
  }

  /** The part of a subcase the newer simulator's choice looks at. */
  function AsFeature(sc: FaultSubcase): NewFaultTypes.FaultFeature {
    NewFaultTypes.FaultFeature(
      if sc.faultType == Single then NewFaultTypes.Single else NewFaultTypes.Coupling,
      sc.A, sc.AI, sc.VI, [], [], sc.finalF, sc.finalR)
  }

  /**
   * The choice is the newer simulator's on a square array, so the same
   * holds: no aggressor for a single-cell fault; for `A` 0 the left or upper
   * neighbour, for `A` 1 the right or lower one, always a cell of the
   * memory; no cells for any other `A`.
   */
  lemma ChooseAggVictimMeaning(side: int, sc: FaultSubcase, vic: int, choice: int)
    requires PicksInRange(side, sc, vic, choice)
    ensures NewFaultSimulator.PicksInRange(side, side, AsFeature(sc), vic, choice)
    ensures ChooseAggVictim(side, sc, vic, choice) == NewFaultSimulator.ChooseAggVictim(side, side, AsFeature(sc), vic, choice)
    ensures var (aggr, v) := ChooseAggVictim(side, sc, vic, choice);
            && (sc.faultType == Single ==> aggr == -1 && v == vic)
            && (sc.faultType == Coupling && sc.A == 0 ==> v == vic && aggr < vic && NewFaultSimulator.Neighbours(side, side, aggr, vic))
            && (sc.faultType == Coupling && sc.A == 1 ==> v == vic && vic < aggr && NewFaultSimulator.Neighbours(side, side, aggr, vic))
            && (sc.faultType == Coupling && sc.A != 0 && sc.A != 1 ==> aggr == -1 && v == -1)
  {
    NewFaultSimulator.ChooseAggVictimMeaning(side, side, AsFeature(sc), vic, choice);
  }

  /** The cells a subcase installs its fault in exist exactly when `A` is 0 or 1 for a coupling fault. */
  lemma ChooseAggVictimCells(side: int, sc: FaultSubcase, vic: int, choice: int)
    requires PicksInRange(side, sc, vic, choice)
    ensures var (aggr, v) := ChooseAggVictim(side, sc, vic, choice);
            CellsFor(side * side, sc, v, aggr) <==> (sc.faultType == Single || sc.A == 0 || sc.A == 1)
  {
    ChooseAggVictimMeaning(side, sc, vic, choice);
  }

  // ---------------------------------------------------------------------
  // The classes
  // ---------------------------------------------------------------------

  class Cell {
    var cellValue: int
    var triggerValue: int
    var maxQueue: nat
    var faultValue: int
    var finalReadValue: int
    var faultSeq: seq<SingleOp>
    var history: seq<OperationRecord>

    ghost function State(): CellState
      reads this
    {
      CellState(cellValue, triggerValue, maxQueue, faultValue, finalReadValue, faultSeq, history)
    }

    constructor()
      ensures State() == DEFAULT_CELL
    {
      cellValue, triggerValue, maxQueue, faultValue, finalReadValue := 0, UNSET, 0, UNSET, UNSET;
      faultSeq, history := [], [];
    }

    method Init(init: int)
      modifies this
      ensures State() == InitCell(old(State()), init)
    {
      cellValue := init;
      triggerValue := UNSET;
      faultValue := UNSET;
      finalReadValue := UNSET;
      maxQueue := 0;
      ClearQueue();
    }

    method InstallFaultSeq(ops: seq<SingleOp>, triggerI: int, finalF: int, finalR: int)
      modifies this
      ensures State() == InstallSeq(old(State()), ops, triggerI, finalF, finalR)
    {
      faultSeq := ops;
      triggerValue := triggerI;
      maxQueue := |ops|;
      ClearQueue();
      faultValue := finalF;
      finalReadValue := finalR;
    }

    method InstallFaultValue(triggerI: int, finalF: int, finalR: int)
      modifies this
      ensures State() == InstallValue(old(State()), triggerI, finalF, finalR)
    {
      faultSeq := [];
      triggerValue := triggerI;
      maxQueue := 0;
      ClearQueue();
      faultValue := finalF;
      finalReadValue := finalR;
    }

    method ClearQueue()
      modifies this
      ensures State() == old(State()).(history := [])
    {
      history := [];
    }

    method RecordOperation(op: SingleOp, before: int)
      modifies this
      ensures State() == Recorded(old(State()), op, before)
    {
      history := history + [OperationRecord(before, op, cellValue)];
      if |history| > maxQueue {
        history := history[1..];
      }
    }

    method HistoryMatches() returns (b: bool)
      requires faultSeq != [] || history != []
      ensures b == MatchesHistory(State())
    {
      if |history| < |faultSeq| {
        return false;
      }
      if history[0].beforeValue != triggerValue {
        return false;
      }
      var i := 0;
      while i < |faultSeq|
        invariant 0 <= i <= |faultSeq|
        invariant forall k :: 0 <= k < i ==> SameOp(history[k].op, faultSeq[k])
      {
        if history[i].op.opType != faultSeq[i].opType || history[i].op.value != faultSeq[i].value {
          return false;
        }
        i := i + 1;
      }
      return true;
    }

    /** The source also reports a trigger sequence without a trigger value on the console. */
    method CheckTrigger() returns (b: bool)
      ensures b == TriggerHolds(State())
    {
      if faultSeq != [] && triggerValue == UNSET {
        return false;
      }
      if faultSeq == [] && triggerValue == UNSET {
        return false;
      }
      if faultSeq == [] && triggerValue != UNSET {
        return cellValue == triggerValue;
      }
      b := HistoryMatches();
    }

    method TriggerFault()
      modifies this
      ensures State() == Triggered(old(State()))
    {
      if faultValue == UNSET {
        return;
      }
      cellValue := faultValue;
    }

    method ApplyOp(op: SingleOp) returns (r: int)
      modifies this
      ensures (State(), r) == StepCell(old(State()), op)
    {
      var before := cellValue;
      if op.opType == Write {
        cellValue := op.value;
      }
      RecordOperation(op, before);
      var fired := CheckTrigger();
      if fired {
        TriggerFault();
        if op.opType == Read {
          return if finalReadValue != UNSET then finalReadValue else cellValue;
        }
      }
      if op.opType == Read {
        return cellValue;
      }
      return UNSET;
    }
  }

  class Memory {
    const cells: array<Cell>
    ghost const Repr: set<Cell>
    /** The state of each cell, by address. */
    ghost var states: seq<CellState>

    ghost predicate Valid()
      reads this, cells, Repr
    {
      && (forall a :: 0 <= a < cells.Length ==> cells[a] in Repr)
      && (forall a, b :: 0 <= a < b < cells.Length ==> cells[a] != cells[b])
      && |states| == cells.Length
      && (forall a :: 0 <= a < cells.Length ==> cells[a].State() == states[a])
    }

    constructor(n: nat, init: int)
      ensures Valid() && fresh(Repr) && fresh(cells)
      ensures cells.Length == n && states == InitialMemory(n, init)
    {
      var cs: seq<Cell> := [];
      while |cs| < n
        invariant |cs| <= n
        invariant forall a :: 0 <= a < |cs| ==> fresh(cs[a]) && cs[a].State() == InitCell(DEFAULT_CELL, init)
        invariant forall a, b :: 0 <= a < b < |cs| ==> cs[a] != cs[b]
      {
        var c := new Cell();
        c.Init(init);
        cs := cs + [c];
      }
      cells := new Cell[n](a requires 0 <= a < n => cs[a]);
      Repr := set a | 0 <= a < n :: cs[a];
      states := InitialMemory(n, init);
    }

    method InstallFault(sc: FaultSubcase, vic: int, aggr: int)
      requires Valid() && 0 <= vic < cells.Length && (sc.faultType == Coupling ==> 0 <= aggr < cells.Length)
      modifies this, Repr
      ensures Valid() && states == InstallFaultAsWritten(old(states), sc, vic, aggr)
    {
      if sc.seqV != [] {
        cells[vic].InstallFaultSeq(sc.seqV, sc.VI, sc.finalF, sc.finalR);
      } else {
        cells[vic].InstallFaultValue(sc.VI, sc.finalF, sc.finalR);
      }
      states := states[vic := cells[vic].State()];
      if sc.faultType == Coupling {
        if sc.seqA != [] {
          cells[aggr].InstallFaultSeq(sc.seqA, sc.VI, UNSET, UNSET);
        } else {
          cells[aggr].InstallFaultValue(sc.AI, UNSET, UNSET);
        }
        states := states[aggr := cells[aggr].State()];
      }
    }

    method ClearElementQueues()
      requires Valid()
      modifies this, Repr
      ensures Valid() && states == ClearQueues(old(states))
    {
      var i := 0;
      while i < cells.Length
        invariant 0 <= i <= cells.Length && Valid()
        invariant |states| == |old(states)|
        invariant forall a :: 0 <= a < i ==> states[a] == old(states)[a].(history := [])
        invariant forall a :: i <= a < cells.Length ==> states[a] == old(states)[a]
      {
        cells[i].ClearQueue();
        states := states[i := cells[i].State()];
        i := i + 1;
      }
    }

    method WriteCell(addr: int, v: int)
      requires Valid() && 0 <= addr < cells.Length
      modifies this, Repr
      ensures Valid() && states == old(states)[addr := StepCell(old(states)[addr], SingleOp(Write, v, 0)).0]
    {
      var _ := cells[addr].ApplyOp(SingleOp(Write, v, 0));
      states := states[addr := cells[addr].State()];
    }

    method ReadCell(addr: int, v: int) returns (r: int)
      requires Valid() && 0 <= addr < cells.Length
      modifies this, Repr
      ensures Valid()
      ensures (states[addr], r) == StepCell(old(states)[addr], SingleOp(Read, v, 0))
      ensures states == old(states)[addr := states[addr]]
    {
      r := cells[addr].ApplyOp(SingleOp(Read, v, 0));
      states := states[addr := cells[addr].State()];
    }
  }

  const INVALID_CELLS := "no cell for the victim or the aggressor"

  class FaultSimulator {
    const marchSeq: seq<MarchElement>
    /** The memory is a square array of `side` by `side` cells. */
    const side: nat

    constructor(marchSeq: seq<MarchElement>, side: nat)
      ensures this.marchSeq == marchSeq && this.side == side
    {
      this.marchSeq := marchSeq;
      this.side := side;
    }

    method IterateAddresses(descending: bool) returns (addrs: seq<int>)
      ensures addrs == Addresses(side * side, descending)
    {
      var n := side * side;
      addrs := [];
      if !descending {
        var i := 0;
        while i < n
          invariant 0 <= i <= n && |addrs| == i
          invariant forall k :: 0 <= k < i ==> addrs[k] == k
        {
          addrs := addrs + [i];
          i := i + 1;
        }
      } else {
        var i := n - 1;
        while i >= 0
          invariant -1 <= i <= n - 1 && |addrs| == n - 1 - i
          invariant forall k :: 0 <= k < |addrs| ==> addrs[k] == n - 1 - k
        {
          addrs := addrs + [i];
          i := i - 1;
        }
      }
    }

    /**
     * One subcase: a memory of `init` values, the fault installed in the
     * chosen cells as the source does it, the whole March test run. Its
     * syndrome is also that of the corrected installation, since the
     * aggressor's trigger value is never observed. The source indexes the cell
     * array with the missing victim (-1) of a coupling subcase with an `A`
     * other than 0 or 1; the model reports that as an error instead.
     */
    method SimulateSubcase(sc: FaultSubcase, init: int, vicPick: int, choice: int) returns (r: Result<SubcaseSynd, string>)
      requires PicksInRange(side, sc, vicPick, choice)
      ensures r.Err? <==> sc.faultType == Coupling && sc.A != 0 && sc.A != 1
      ensures r.Ok? ==>
                var (aggr, vic) := ChooseAggVictim(side, sc, vicPick, choice);
                && CellsFor(side * side, sc, vic, aggr)
                && r.value == RunMarch(InstallFaultAsWritten(InitialMemory(side * side, init), sc, vic, aggr), map[], marchSeq).1
                && r.value == RunMarch(InstallFault(InitialMemory(side * side, init), sc, vic, aggr), map[], marchSeq).1
    {
      var n := side * side;
      var mem := new Memory(n, init);
      var (aggr, vic) := ChooseAggVictim(side, sc, vicPick, choice);
      ChooseAggVictimCells(side, sc, vicPick, choice);
      if !CellsFor(n, sc, vic, aggr) {
        return Err(INVALID_CELLS);
      }
      mem.InstallFault(sc, vic, aggr);
      var synd := RunMarchOn(mem);
      AggressorTriggerUnobserved(InitialMemory(n, init), sc, vic, aggr, marchSeq);
      return Ok(synd);
    }

    /** The loop over the March elements of `simulateSubcase`, from an empty syndrome. */
    method RunMarchOn(mem: Memory) returns (synd: SubcaseSynd)
      requires mem.Valid() && mem.cells.Length == side * side
      modifies mem, mem.Repr
      ensures mem.Valid() && (mem.states, synd) == RunMarch(old(mem.states), map[], marchSeq)
    {
      synd := map[];
      var j := 0;
      while j < |marchSeq|
        invariant 0 <= j <= |marchSeq| && mem.Valid() && mem.cells.Length == side * side
        invariant (mem.states, synd) == RunMarch(old(mem.states), map[], marchSeq[..j])
      {
        synd := RunElementOn(mem, synd, marchSeq[j]);
        assert marchSeq[..j + 1][..j] == marchSeq[..j];
        j := j + 1;
      }
      assert marchSeq[..j] == marchSeq;
    }

    /** The body of the loop over the March elements of `simulateSubcase`. */
    method RunElementOn(mem: Memory, synd: SubcaseSynd, e: MarchElement) returns (synd': SubcaseSynd)
      requires mem.Valid() && mem.cells.Length == side * side
      modifies mem, mem.Repr
      ensures mem.Valid() && (mem.states, synd') == RunElement(old(mem.states), synd, e)
    {
      var addrs := IterateAddresses(e.addrOrder);
      synd' := RunAddrsOn(mem, synd, addrs, e.ops);
      mem.ClearElementQueues();
    }

    /** The loop over the addresses of `simulateSubcase`. */
    method RunAddrsOn(mem: Memory, synd: SubcaseSynd, addrs: seq<int>, ops: seq<SingleOp>) returns (synd': SubcaseSynd)
      requires mem.Valid() && InRange(addrs, mem.cells.Length)
      modifies mem, mem.Repr
      ensures mem.Valid() && (mem.states, synd') == RunAddrs(old(mem.states), synd, addrs, ops)
    {
      synd' := synd;
      var k := 0;
      while k < |addrs|
        invariant 0 <= k <= |addrs| && mem.Valid()
        invariant (mem.states, synd') == RunAddrs(old(mem.states), synd, addrs[..k], ops)
      {
        synd' := RunOpsOn(mem, synd', addrs[k], ops);
        assert addrs[..k + 1][..k] == addrs[..k];
        k := k + 1;
      }
      assert addrs[..k] == addrs;
    }

    /** The body of the loop over the addresses of `simulateSubcase`. */
    method RunOpsOn(mem: Memory, synd: SubcaseSynd, addr: int, ops: seq<SingleOp>) returns (synd': SubcaseSynd)
      requires mem.Valid() && 0 <= addr < mem.cells.Length
      modifies mem, mem.Repr
      ensures mem.Valid() && (mem.states, synd') == RunOps(old(mem.states), synd, addr, ops)
    {
      synd' := synd;
      var l := 0;
      while l < |ops|
        invariant 0 <= l <= |ops| && mem.Valid()
        invariant (mem.states, synd') == RunOps(old(mem.states), synd, addr, ops[..l])
      {
        var op := ops[l];
        if op.opType == Write {
          mem.WriteCell(addr, op.value);
        } else {
          if op.order !in synd' {
            synd' := synd'[op.order := OpSynd(false, [])];
          }
          var readValue := mem.ReadCell(addr, op.value);
          if readValue != op.value {
            synd' := synd'[op.order := OpSynd(true, synd'[op.order].addresses + [addr])];
          }
        }
        assert ops[..l + 1][..l] == ops[..l];
        l := l + 1;
      }
      assert ops[..l] == ops;
    }
  }
}
