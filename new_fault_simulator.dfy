/**
 * The fault simulator of `newFaultSimulator.cpp`: trigger matchers that watch
 * the operations applied to a memory cell, the cell that forces its value
 * when its matcher fires, the choice of a victim cell and a neighbouring
 * aggressor, and the walk of a March test over the cells of one fault subcase.
 *
 * A cell's behaviour is specified on values (`CellState`, `Step`, `RunCell`);
 * the classes are proved to follow it.
 */
module NewFaultSimulator {
  import opened Wrappers
  import opened NewFaultTypes
  import StdText

  // ---------------------------------------------------------------------
  // Specification of a cell on values
  // ---------------------------------------------------------------------

  /** Operation types and values agree position by position (positions in the test are not compared). */
  predicate OpsAgree(buffer: seq<OperationRecord>, pattern: seq<SingleOp>) {
    |buffer| == |pattern|
    && forall k :: 0 <= k < |buffer| ==> buffer[k].op.opType == pattern[k].opType && buffer[k].op.value == pattern[k].value
  }

  /** The last `n` records of `h`, oldest first (all of them when there are fewer). */
  function Last(h: seq<OperationRecord>, n: nat): (r: seq<OperationRecord>)
    ensures |r| <= n && |r| <= |h|
    ensures r == h[|h| - |r|..]
    ensures |h| <= n ==> r == h
  {
    if |h| <= n then h else h[|h| - n..]
  }

  /** A sliding window of `n` records after one more arrives: append it, drop the oldest when over `n`. */
  function Push(buffer: seq<OperationRecord>, rec: OperationRecord, n: nat): seq<OperationRecord> {
    var b := buffer + [rec];
    if |b| > n then b[1..] else b
  }

  /** Pushing onto the last `n` records gives the last `n` records of the longer history. */
  lemma LastSnoc(h: seq<OperationRecord>, rec: OperationRecord, n: nat)
    requires n > 0
    ensures Last(h + [rec], n) == Push(Last(h, n), rec, n)
  {
    var h' := h + [rec];
    if |h| >= n {
      var w := h[|h| - n..];
      assert Last(h, n) == w;
      assert (w + [rec])[1..] == h'[|h'| - n..];
    }
  }

  /**
   * A sequence trigger fires when its window is full, the oldest record in
   * it started from the trigger value, and the operations in it are the
   * pattern's, in order.
   */
  predicate Fires(buffer: seq<OperationRecord>, pattern: seq<SingleOp>, trigger: int) {
    |buffer| == |pattern| && |buffer| > 0 && buffer[0].beforeValue == trigger && OpsAgree(buffer, pattern)
  }

  datatype MatcherState =
    | NoMatcher
    | ValueTrigger(trigger: int)
    | SequenceTrigger(pattern: seq<SingleOp>, trigger: int, buffer: seq<OperationRecord>)

  /** The state of one cell: its value, the value a firing forces, the value a faulty read returns, its matcher. */
  datatype CellState = CellState(value: int, finalCellValue: int, finalReadValue: int, matcher: MatcherState)

  /** A cell as constructed: value 0, both final values unset, no matcher. */
  const FRESH_CELL := CellState(0, NOT_SET, NOT_SET, NoMatcher)

  /** The matcher's answer to one operation record, and its state afterwards. */
  function MatchStep(m: MatcherState, rec: OperationRecord): (r: (MatcherState, bool))
    ensures m.NoMatcher? ==> r == (m, false)
    ensures m.ValueTrigger? ==> r == (m, rec.beforeValue == m.trigger)
    ensures m.SequenceTrigger? ==> r.0 == m.(buffer := Push(m.buffer, rec, |m.pattern|))
    ensures m.SequenceTrigger? ==> (r.1 <==> Fires(r.0.buffer, m.pattern, m.trigger))
  {
    match m
    case NoMatcher => (m, false)
    case ValueTrigger(t) => (m, rec.beforeValue == t)
    case SequenceTrigger(p, t, b) =>
      var b' := Push(b, rec, |p|);
      (SequenceTrigger(p, t, b'), Fires(b', p, t))
  }

  /** The state after one operation, and what the operation returns (-1 for a write). */
  function Step(s: CellState, op: SingleOp): (CellState, int) {
    var written := if op.opType == Write then op.value else s.value;
    var (m, fired) := MatchStep(s.matcher, OperationRecord(s.value, op, written));
    var v := if fired then s.finalCellValue else written;
    var out := if op.opType == Write then -1
               else if fired && s.finalReadValue != NOT_SET then s.finalReadValue
               else v;
    (s.(value := v, matcher := m), out)
  }

  /** Whether the cell's matcher fires on operation `op`. */
  function FiresOn(s: CellState, op: SingleOp): bool {
    var written := if op.opType == Write then op.value else s.value;
    MatchStep(s.matcher, OperationRecord(s.value, op, written)).1
  }

  /**
   * What one operation does to a cell: a write stores its value before the
   * matcher looks; a firing matcher forces the final cell value, even when it
   * is -1; a read returns the final read value when the matcher fired and it
   * is set, otherwise the cell's value; a write returns -1. The final values
   * and the matcher's pattern and trigger do not change.
   */
  lemma StepMeaning(s: CellState, op: SingleOp)
    ensures var (t, out) := Step(s, op);
            var written := if op.opType == Write then op.value else s.value;
            && t.value == (if FiresOn(s, op) then s.finalCellValue else written)
            && (op.opType == Write ==> out == -1)
            && (op.opType == Read ==> out == (if FiresOn(s, op) && s.finalReadValue != NOT_SET then s.finalReadValue else t.value))
            && t.finalCellValue == s.finalCellValue && t.finalReadValue == s.finalReadValue
            && t.matcher.NoMatcher? == s.matcher.NoMatcher? && t.matcher.ValueTrigger? == s.matcher.ValueTrigger?
  {
  }

  /** A value trigger fires exactly when the cell held the trigger value before the operation. */
  lemma ValueTriggerMeaning(s: CellState, op: SingleOp)
    requires s.matcher.ValueTrigger?
    ensures FiresOn(s, op) <==> s.value == s.matcher.trigger
  {
  }

  /** The state after a run of operations, applied in order. */
  function RunCell(s: CellState, ops: seq<SingleOp>): CellState
    decreases |ops|
  {
    if ops == [] then s else Step(RunCell(s, ops[..|ops| - 1]), ops[|ops| - 1]).0
  }

  /** What each operation of a run returns. */
  function Outputs(s: CellState, ops: seq<SingleOp>): (outs: seq<int>)
    ensures |outs| == |ops|
    decreases |ops|
  {
    if ops == [] then []
    else Outputs(s, ops[..|ops| - 1]) + [Step(RunCell(s, ops[..|ops| - 1]), ops[|ops| - 1]).1]
  }

  /** Running two runs in turn is running them joined. */
  lemma {:induction false} RunCellAppend(s: CellState, a: seq<SingleOp>, b: seq<SingleOp>)
    ensures RunCell(s, a + b) == RunCell(RunCell(s, a), b)
    decreases |b|
  {
    if b == [] {
      assert a + b == a;
    } else {
      var b' := b[..|b| - 1];
      assert (a + b)[..|a + b| - 1] == a + b';
      assert (a + b)[|a + b| - 1] == b[|b| - 1];
      RunCellAppend(s, a, b');
    }
  }

  /** The value of the latest write among `ops`, or `initial` when there is none. */
  function LastWritten(initial: int, ops: seq<SingleOp>): int
    decreases |ops|
  {
    if ops == [] then initial
    else if ops[|ops| - 1].opType == Write then ops[|ops| - 1].value
    else LastWritten(initial, ops[..|ops| - 1])
  }

  /**
   * Without a matcher a cell is plain storage: its value is the latest value
   * written, and every read returns it.
   */
  lemma {:induction false} PlainStorage(s: CellState, ops: seq<SingleOp>)
    requires s.matcher.NoMatcher?
    ensures RunCell(s, ops) == s.(value := LastWritten(s.value, ops))
    ensures forall k :: 0 <= k < |ops| && ops[k].opType == Read ==> Outputs(s, ops)[k] == LastWritten(s.value, ops[..k])
    decreases |ops|
  {
    if ops != [] {
      var init := ops[..|ops| - 1];
      PlainStorage(s, init);
      forall k | 0 <= k < |ops| && ops[k].opType == Read
        ensures Outputs(s, ops)[k] == LastWritten(s.value, ops[..k])
      {
        if k < |ops| - 1 {
          assert ops[..k] == init[..k];
          assert Outputs(s, ops)[k] == Outputs(s, init)[k];
        } else {
          assert ops[..k] == init;
        }
      }
    }
  }

  // ---------------------------------------------------------------------
  // Matchers and cells
  // ---------------------------------------------------------------------

  /** `ValueMatcher`: fires when the cell held the trigger value before the operation; it keeps no state. */
  datatype ValueMatcher = ValueMatcher(triggerValue: int) {

    function Match(rec: OperationRecord): (fires: bool)
      ensures fires == MatchStep(ValueTrigger(triggerValue), rec).1
    {
      rec.beforeValue == triggerValue
    }

    /** `reset`: there is nothing to clear. */
    function Reset(): (m: ValueMatcher)
      ensures m == this
    {
      this
    }
  }

  /** `SequenceMatcher`: a window over the most recent operation records, compared with a pattern. */
  class SequenceMatcher {
    var buffer: seq<OperationRecord>
    const pattern: seq<SingleOp>
    const triggerValue: int
    /** The records matched since construction or the last reset, oldest first. */
    ghost var history: seq<OperationRecord>

    /** The window holds the last `|pattern|` records of the history, oldest first. */
    ghost predicate Valid()
      reads this
    {
      buffer == Last(history, |pattern|)
    }

    constructor (pattern: seq<SingleOp>, triggerValue: int)
      ensures this.pattern == pattern && this.triggerValue == triggerValue
      ensures buffer == [] && history == [] && Valid()
    {
      this.pattern := pattern;
      this.triggerValue := triggerValue;
      buffer := [];
      history := [];
    }

    /**
     * `match`: take the record into the window, then fire when the window is
     * full, starts from the trigger value and follows the pattern. The
     * pattern must not be empty: the window's front is read.
     */
    method Match(rec: OperationRecord) returns (fires: bool)
      requires Valid() && |pattern| > 0
      modifies this
      ensures Valid() && history == old(history) + [rec]
      ensures buffer == Push(old(buffer), rec, |pattern|)
      ensures fires == Fires(buffer, pattern, triggerValue)
    {
      LastSnoc(history, rec, |pattern|);
      buffer := buffer + [rec];
      if |buffer| > |pattern| {
        buffer := buffer[1..];
      }
      history := history + [rec];
      if |buffer| == |pattern| && buffer[0].beforeValue == triggerValue {
        fires := OpsAgree(buffer, pattern);
      } else {
        fires := false;
      }
    }

    /** `reset`: empty the window. */
    method Reset()
      modifies this
      ensures buffer == [] && history == [] && Valid()
    {
      buffer := [];
      history := [];
    }
  }

  /**
   * `Cell`: a value, the installed matcher and the two final values. The
   * matcher the cell owns is kept as its state (`MatcherState`), which a
   * firing or a `match` call updates in place.
   */
  class Cell {
    var value: int
    var finalCellValue: int
    var finalReadValue: int
    var matcher: MatcherState

    /** The cell seen as a value. */
    ghost function State(): CellState
      reads this
    {
      CellState(value, finalCellValue, finalReadValue, matcher)
    }

    constructor ()
      ensures State() == FRESH_CELL
    {
      value := 0;
      finalCellValue := NOT_SET;
      finalReadValue := NOT_SET;
      matcher := NoMatcher;
    }

    /** `installFault`: take the matcher and set the two final values; the value is kept. */
    method InstallFault(m: MatcherState, finalCell: int, finalRead: int)
      modifies this
      ensures State() == CellState(old(value), finalCell, finalRead, m)
    {
      matcher := m;
      finalCellValue := finalCell;
      finalReadValue := finalRead;
    }

    /** `applyOp`: one operation on the cell, returning what a read sees, or -1. */
    method ApplyOp(op: SingleOp) returns (r: int)
      modifies this
      ensures (State(), r) == Step(old(State()), op)
    {
      var before := value;
      if op.opType == Write {
        value := op.value;
      }
      var rec := OperationRecord(before, op, value);
      var fired;
      matcher, fired := MatchStep(matcher, rec).0, MatchStep(matcher, rec).1;
      if fired {
        value := finalCellValue;
        if op.opType == Read && finalReadValue != NOT_SET {
          return finalReadValue;
        }
      }
      r := if op.opType == Read then value else -1;
    }

    /** The operations of one March element at this cell, in order. */
    method ApplyOps(ops: seq<SingleOp>)
      modifies this
      ensures State() == RunCell(old(State()), ops)
    {
      var k := 0;
      while k < |ops|
        invariant 0 <= k <= |ops|
        invariant State() == RunCell(old(State()), ops[..k])
      {
        assert ops[..k + 1][..k] == ops[..k];
        var _ := ApplyOp(ops[k]);
        k := k + 1;
      }
      assert ops[..k] == ops;
    }

    /** `clearMatcher`: a sequence matcher forgets its window; nothing else changes. */
    method ClearMatcher()
      modifies this
      ensures State() == old(State()).(matcher := if old(matcher).SequenceTrigger? then old(matcher).(buffer := []) else old(matcher))
    {
      if matcher.SequenceTrigger? {
        matcher := matcher.(buffer := []);
      }
    }
  }

  // ---------------------------------------------------------------------
  // Victim and aggressor
  // ---------------------------------------------------------------------

  /**
   * What the random source may deliver to `chooseAggVictim`: a victim drawn
   * from the range of the branch taken, and a 0/1 choice.
   */
  predicate PicksInRange(rows: int, cols: int, sc: FaultFeature, vic: int, choice: int) {
    cols > 0 && (choice == 0 || choice == 1)
    && (sc.faultType == Single ==> 0 <= vic <= rows * cols - 1)
    && (sc.faultType == Coupling && sc.A == 0 ==> 1 <= vic <= rows * cols - 1)
    && (sc.faultType == Coupling && sc.A == 1 ==> 0 <= vic <= rows * cols - 2)
  }

  /**
   * `chooseAggVictim` as written, with the random victim and the random
   * choice as parameters. The last-row test for an aggressor above the victim
   * compares the victim's row with `cols - 1`.
   */
  function ChooseAggVictimAsWritten(rows: int, cols: int, sc: FaultFeature, vic: int, choice: int): (int, int)
    requires PicksInRange(rows, cols, sc, vic, choice)
  {
    if sc.faultType == Single then (-1, vic)
    else if sc.A == 0 then
      if vic / cols == 0 then (vic - 1, vic)
      else if vic % cols == 0 then (vic - cols, vic)
      else if choice == 0 then (vic - cols, vic)
      else (vic - 1, vic)
    else if sc.A == 1 then
      if vic / cols == cols - 1 then (vic + 1, vic)
      else if vic % cols == cols - 1 then (vic + cols, vic)
      else if choice == 0 then (vic + cols, vic)
      else (vic + 1, vic)
    else (-1, -1)
  }

  /** `chooseAggVictim` with the last-row test comparing the victim's row with `rows - 1`. */
  function ChooseAggVictim(rows: int, cols: int, sc: FaultFeature, vic: int, choice: int): (int, int)
    requires PicksInRange(rows, cols, sc, vic, choice)
  {
    if sc.faultType == Single then (-1, vic)
    else if sc.A == 0 then
      if vic / cols == 0 then (vic - 1, vic)
      else if vic % cols == 0 then (vic - cols, vic)
      else if choice == 0 then (vic - cols, vic)
      else (vic - 1, vic)
    else if sc.A == 1 then
      if vic / cols == rows - 1 then (vic + 1, vic)
      else if vic % cols == cols - 1 then (vic + cols, vic)
      else if choice == 0 then (vic + cols, vic)
      else (vic + 1, vic)
    else (-1, -1)
  }

  /** `a` and `b` are cells of a `rows` by `cols` array next to each other in a row or in a column. */
  predicate Neighbours(rows: int, cols: int, a: int, b: int)
    requires cols > 0
  {
    0 <= a < rows * cols && 0 <= b < rows * cols
    && ((a / cols == b / cols && (a == b + 1 || b == a + 1)) || a == b + cols || b == a + cols)
  }

  lemma MulMono(a: int, b: int, c: int)
    requires a >= b && c > 0
    ensures a * c >= b * c
  {
    assert a * c - b * c == (a - b) * c;
  }

  /** The cell at column `col` of row `row` lies in row `row`. */
  lemma RowOfCell(row: int, col: int, cols: int)
    requires 0 <= col < cols
    ensures (row * cols + col) / cols == row && (row * cols + col) % cols == col
  {
    var x := row * cols + col;
    var q, r := x / cols, x % cols;
    assert (q - row) * cols == col - r;
    if q > row {
      MulMono(q - row, 1, cols);
    } else if q < row {
      MulMono(row - q, 1, cols);
    }
  }

  /** The row and column of a cell inside a `rows` by `cols` array. */
  lemma Coordinates(rows: int, cols: int, vic: int)
    requires cols > 0 && 0 <= vic < rows * cols
    ensures 0 <= vic / cols < rows && 0 <= vic % cols < cols
    ensures vic == (vic / cols) * cols + vic % cols
  {
    if vic / cols >= rows {
      MulMono(vic / cols, rows, cols);
    }
  }

  /**
   * The aggressor and victim chosen: a single-cell fault has no aggressor; an
   * aggressor below the victim (`A` 0) is its left or upper neighbour, one
   * above it (`A` 1) its right or lower neighbour, always inside the array;
   * any other `A` yields no cells.
   */
  lemma ChooseAggVictimMeaning(rows: int, cols: int, sc: FaultFeature, vic: int, choice: int)
    requires PicksInRange(rows, cols, sc, vic, choice)
    ensures var (aggr, v) := ChooseAggVictim(rows, cols, sc, vic, choice);
            && (sc.faultType == Single ==> aggr == -1 && v == vic)
            && (sc.faultType == Coupling && sc.A == 0 ==> v == vic && aggr < vic && Neighbours(rows, cols, aggr, vic))
            && (sc.faultType == Coupling && sc.A == 1 ==> v == vic && vic < aggr && Neighbours(rows, cols, aggr, vic))
            && (sc.faultType == Coupling && sc.A != 0 && sc.A != 1 ==> aggr == -1 && v == -1)
  {
    if sc.faultType == Coupling && (sc.A == 0 || sc.A == 1) {
      var (aggr, v) := ChooseAggVictim(rows, cols, sc, vic, choice);
      Coordinates(rows, cols, vic);
      var row, col := vic / cols, vic % cols;
      RowOfCell(row, col, cols);
      var left := sc.A == 0 && (row == 0 || (col != 0 && choice == 1));
      var right := sc.A == 1 && (row == rows - 1 || (col != cols - 1 && choice == 1));
      if left {
        assert aggr == row * cols + (col - 1);
        RowOfCell(row, col - 1, cols);
      } else if right {
        assert aggr == row * cols + (col + 1);
        RowOfCell(row, col + 1, cols);
      } else if sc.A == 1 {
        assert aggr == (row + 1) * cols + col;
        MulMono(rows, row + 2, cols);
        assert (row + 2) * cols == (row + 1) * cols + cols;
      } else {
        assert aggr == (row - 1) * cols + col;
        MulMono(row - 1, 0, cols);
      }
    }
  }

  /** The victim is set whenever the aggressor is, and they differ. */
  lemma ChooseAggVictimDistinct(rows: int, cols: int, sc: FaultFeature, vic: int, choice: int)
    requires PicksInRange(rows, cols, sc, vic, choice)
    ensures var (aggr, v) := ChooseAggVictim(rows, cols, sc, vic, choice);
            (aggr != -1 ==> v != -1 && aggr != v) && (v != -1 ==> 0 <= v < rows * cols)
  {
    ChooseAggVictimMeaning(rows, cols, sc, vic, choice);
  }

  /**
   * As written, too, a set aggressor comes with a set victim, one step or one
   * row away from it, and the victim lies inside the array.
   */
  lemma ChooseAggVictimAsWrittenDistinct(rows: int, cols: int, sc: FaultFeature, vic: int, choice: int)
    requires PicksInRange(rows, cols, sc, vic, choice)
    ensures var (aggr, v) := ChooseAggVictimAsWritten(rows, cols, sc, vic, choice);
            && (aggr != -1 ==> v == vic && (aggr == v - 1 || aggr == v + 1 || aggr == v - cols || aggr == v + cols))
            && (sc.faultType == Coupling && (sc.A == 0 || sc.A == 1) ==> aggr != -1 && aggr >= 0)
            && (v != -1 ==> 0 <= v < rows * cols)
  {
    if sc.faultType == Coupling && sc.A == 0 && vic / cols != 0 {
      assert vic >= cols;
    }
  }

  /**
   * As written, the aggressor above a victim can fall outside the array: in
   * a 3 by 2 array, victim 4 with the choice of the lower neighbour gives
   * aggressor 6.
   */
  lemma ChooseAggVictimAsWrittenLeavesArray()
    ensures var sc := FaultFeature(Coupling, 1, 0, 0, [], [], 0, -1);
            && PicksInRange(3, 2, sc, 4, 0)
            && ChooseAggVictimAsWritten(3, 2, sc, 4, 0) == (6, 4)
            && ChooseAggVictimAsWritten(3, 2, sc, 4, 0).0 >= 3 * 2
  {
  }

  /** On a square array the written test and the corrected one agree. */
  lemma ChooseAggVictimSquare(side: int, sc: FaultFeature, vic: int, choice: int)
    requires PicksInRange(side, side, sc, vic, choice)
    ensures ChooseAggVictimAsWritten(side, side, sc, vic, choice) == ChooseAggVictim(side, side, sc, vic, choice)
  {
  }

  // ---------------------------------------------------------------------
  // Simulation of one subcase
  // ---------------------------------------------------------------------

  /** The addresses of the cells a subcase uses: the aggressor and the victim, when set. */
  function Present(aggr: int, vic: int): set<int> {
    (if aggr != -1 then {aggr} else {}) + (if vic != -1 then {vic} else {})
  }

  /** Those addresses in increasing order, as a `std::map` iterates them. */
  function Ascending(aggr: int, vic: int): (addrs: seq<int>)
    ensures forall a, b :: 0 <= a < b < |addrs| ==> addrs[a] < addrs[b]
    ensures forall x :: x in addrs <==> x in Present(aggr, vic)
  {
    if aggr == -1 && vic == -1 then []
    else if aggr == -1 then [vic]
    else if vic == -1 || vic == aggr then [aggr]
    else if aggr < vic then [aggr, vic]
    else [vic, aggr]
  }

  function Reverse(s: seq<int>): (r: seq<int>)
    ensures |r| == |s| && forall k :: 0 <= k < |s| ==> r[k] == s[|s| - 1 - k]
    ensures forall x :: x in r <==> x in s
    decreases |s|
  {
    if s == [] then [] else Reverse(s[1..]) + [s[0]]
  }

  /** The order in which one element visits the cells: ascending, or the reverse. */
  function ElementOrder(e: MarchElement, addrs: seq<int>): seq<int> {
    if e.isAscending then addrs else Reverse(addrs)
  }

  /** The cell addresses visited by the elements of `march`, in visiting order. */
  function VisitOrder(march: seq<MarchElement>, addrs: seq<int>): seq<int>
    decreases |march|
  {
    if march == [] then [] else VisitOrder(march[..|march| - 1], addrs) + ElementOrder(march[|march| - 1], addrs)
  }

  /** All operations of `march`, element after element. */
  function AllOps(march: seq<MarchElement>): seq<SingleOp>
    decreases |march|
  {
    if march == [] then [] else AllOps(march[..|march| - 1]) + march[|march| - 1].ops
  }

  /** A cell's state after the elements of `march`, each running its operations at the cell. */
  function RunElements(s: CellState, march: seq<MarchElement>): CellState
    decreases |march|
  {
    if march == [] then s else RunCell(RunElements(s, march[..|march| - 1]), march[|march| - 1].ops)
  }

  /** One more element adds its visiting order to the trace. */
  lemma MarchStep(march: seq<MarchElement>, j: int, addrs: seq<int>)
    requires 0 <= j < |march|
    ensures VisitOrder(march[..j + 1], addrs) == VisitOrder(march[..j], addrs) + ElementOrder(march[j], addrs)
  {
    assert march[..j + 1][..j] == march[..j];
  }

  /** Running the elements one by one is running all of the test's operations in order. */
  lemma {:induction false} RunElementsIsRunCell(s: CellState, march: seq<MarchElement>)
    ensures RunElements(s, march) == RunCell(s, AllOps(march))
    decreases |march|
  {
    if march != [] {
      var init := march[..|march| - 1];
      RunElementsIsRunCell(s, init);
      RunCellAppend(s, AllOps(init), march[|march| - 1].ops);
    }
  }

  /** The victim after installation: a sequence trigger on `seqV` when it is not empty, else a value trigger. */
  function VictimState(sc: FaultFeature): CellState {
    CellState(0, sc.finalF, sc.finalR,
              if sc.seqV == [] then ValueTrigger(sc.VI) else SequenceTrigger(sc.seqV, sc.VI, []))
  }

  /** The aggressor after installation: both final values are `initValue` (-1), so a firing sets its value to -1. */
  function AggressorState(sc: FaultFeature): CellState {
    CellState(0, -1, -1,
              if sc.seqA == [] then ValueTrigger(sc.AI) else SequenceTrigger(sc.seqA, sc.AI, []))
  }

  const NO_CELLS := "No aggressor or victim selected for simulation."
  const EMPTY_MARCH := "March sequence is empty."

  /** Different addresses hold different cells. */
  predicate CellsDistinct(mem: map<int, Cell>) {
    forall a, b :: a in mem && b in mem && a != b ==> mem[a] != mem[b]
  }

  /** The cells in turn, each running `ops`; every cell appears once. */
  method RunCells(cells: seq<Cell>, ops: seq<SingleOp>)
    requires forall a, b :: 0 <= a < b < |cells| ==> cells[a] != cells[b]
    modifies set c | c in cells
    ensures forall i :: 0 <= i < |cells| ==> cells[i].State() == RunCell(old(cells[i].State()), ops)
  {
    var k := 0;
    while k < |cells|
      invariant 0 <= k <= |cells|
      invariant forall i :: 0 <= i < k ==> cells[i].State() == RunCell(old(cells[i].State()), ops)
      invariant forall i :: k <= i < |cells| ==> cells[i].State() == old(cells[i].State())
    {
      cells[k].ApplyOps(ops);
      k := k + 1;
    }
  }

  class FaultSimulator {
    const rows: int
    const cols: int
    var mem: map<int, Cell>

    constructor (rows: int, cols: int)
      ensures this.rows == rows && this.cols == cols && mem == map[]
    {
      this.rows := rows;
      this.cols := cols;
      mem := map[];
    }

    /** The cells in `mem`. */
    ghost function Cells(): set<Cell>
      reads this
    {
      set a | a in mem :: mem[a]
    }

    /**
     * One March element: its operations at every cell, the cells taken in
     * increasing address order, or decreasing when the element descends.
     * Each cell runs the element's operations once; the visiting order is
     * returned as `visited`.
     */
    method RunElement(e: MarchElement, addrs: seq<int>, ghost start: map<int, CellState>, ghost done: seq<MarchElement>)
      returns (ghost visited: seq<int>)
      requires CellsDistinct(mem)
      requires forall x :: x in mem <==> x in addrs
      requires forall a, b :: 0 <= a < b < |addrs| ==> addrs[a] != addrs[b]
      requires forall a :: a in mem ==> a in start && mem[a].State() == RunElements(start[a], done)
      modifies Cells()
      ensures forall a :: a in mem ==> mem[a].State() == RunElements(start[a], done + [e])
      ensures visited == ElementOrder(e, addrs)
    {
      var order := if e.isAscending then addrs else Reverse(addrs);
      assert forall a, b :: 0 <= a < b < |order| ==> order[a] != order[b];
      assert forall x :: x in mem <==> x in order;
      var m := mem;
      var cells := seq(|order|, i requires 0 <= i < |order| => m[order[i]]);
      forall a, b | 0 <= a < b < |cells|
        ensures cells[a] != cells[b]
      {
        assert order[a] != order[b] && cells[a] == m[order[a]] && cells[b] == m[order[b]];
      }
      assert forall i :: 0 <= i < |cells| ==> cells[i] in Cells();
      RunCells(cells, e.ops);
      forall a | a in mem
        ensures mem[a].State() == RunElements(start[a], done + [e])
      {
        var i :| 0 <= i < |order| && order[i] == a;
        assert cells[i] == mem[a];
        assert (done + [e])[..|done|] == done;
      }
      visited := order;
    }

    /**
     * `simulateSubcase` with the random picks as parameters: set up the
     * victim and the aggressor (when there is one), install their matchers,
     * then run every March element over the cells.
     */
    method SimulateSubcase(sc: FaultFeature, march: seq<MarchElement>, vicPick: int, choice: int)
      returns (r: Result<(), string>, ghost trace: seq<int>)
      requires PicksInRange(rows, cols, sc, vicPick, choice)
      modifies this
      ensures var (aggr, vic) := ChooseAggVictimAsWritten(rows, cols, sc, vicPick, choice);
              && mem.Keys == Present(aggr, vic)
              && (r == Err(NO_CELLS) <==> mem.Keys == {})
              && (r == Err(EMPTY_MARCH) <==> mem.Keys != {} && march == [])
              && (r.Err? ==> r == Err(NO_CELLS) || r == Err(EMPTY_MARCH))
              && (r.Ok? ==>
                    && CellsDistinct(mem)
                    && (vic in mem ==> mem[vic].State() == RunCell(VictimState(sc), AllOps(march)))
                    && (aggr in mem ==> mem[aggr].State() == RunCell(AggressorState(sc), AllOps(march)))
                    && trace == VisitOrder(march, Ascending(aggr, vic)))
    {
      var (aggr, vic) := ChooseAggVictimAsWritten(rows, cols, sc, vicPick, choice);
      ChooseAggVictimAsWrittenDistinct(rows, cols, sc, vicPick, choice);
      trace := [];
      PlaceCells(aggr, vic);
      if mem == map[] {
        return Err(NO_CELLS), trace;
      }
      if march == [] {
        return Err(EMPTY_MARCH), trace;
      }
      r := Ok(());
      InstallFaults(sc, aggr, vic);
      trace := RunMarch(march, Ascending(aggr, vic));
      RunElementsIsRunCell(VictimState(sc), march);
      RunElementsIsRunCell(AggressorState(sc), march);
    }

    /** A fresh cell at the aggressor's address and at the victim's, when they are set. */
    method PlaceCells(aggr: int, vic: int)
      modifies this
      ensures mem.Keys == Present(aggr, vic) && CellsDistinct(mem)
      ensures forall a :: a in mem ==> fresh(mem[a]) && mem[a].State() == FRESH_CELL
    {
      mem := map[];
      if aggr != -1 {
        var c := new Cell();
        mem := mem[aggr := c];
      }
      if vic != -1 {
        var c := new Cell();
        mem := mem[vic := c];
      }
    }

    /**
     * The victim gets a value matcher on `VI` when `seqV` is empty, else a
     * sequence matcher on `seqV` and `VI`, and the subcase's final values;
     * the aggressor, when there is one, a sequence matcher on `seqA` and
     * `AI`, or a value matcher on `AI` when `seqA` is empty, and final
     * values left unset.
     */
    method InstallFaults(sc: FaultFeature, aggr: int, vic: int)
      requires vic in mem && aggr != vic && CellsDistinct(mem)
      requires forall a :: a in mem ==> mem[a].State() == FRESH_CELL
      modifies Cells()
      ensures mem[vic].State() == VictimState(sc)
      ensures aggr in mem ==> mem[aggr].State() == AggressorState(sc)
    {
      var victim := mem[vic];
      if sc.seqV == [] {
        victim.InstallFault(ValueTrigger(sc.VI), sc.finalF, sc.finalR);
      } else {
        victim.InstallFault(SequenceTrigger(sc.seqV, sc.VI, []), sc.finalF, sc.finalR);
      }
      if aggr in mem {
        var aggressor := mem[aggr];
        if sc.seqA != [] {
          aggressor.InstallFault(SequenceTrigger(sc.seqA, sc.AI, []), -1, -1);
        } else {
          aggressor.InstallFault(ValueTrigger(sc.AI), -1, -1);
        }
      }
    }

    /** Every element of `march` in turn. */
    method RunMarch(march: seq<MarchElement>, addrs: seq<int>) returns (ghost trace: seq<int>)
      requires CellsDistinct(mem)
      requires forall x :: x in mem <==> x in addrs
      requires forall a, b :: 0 <= a < b < |addrs| ==> addrs[a] != addrs[b]
      modifies Cells()
      ensures forall a :: a in mem ==> mem[a].State() == RunElements(old(mem[a].State()), march)
      ensures trace == VisitOrder(march, addrs)
    {
      ghost var start := map a | a in mem :: mem[a].State();
      trace := [];
      var j := 0;
      while j < |march|
        invariant 0 <= j <= |march|
        invariant mem == old(mem)
        invariant forall a :: a in mem ==> mem[a].State() == RunElements(start[a], march[..j])
        invariant trace == VisitOrder(march[..j], addrs)
      {
        var visited := RunElement(march[j], addrs, start, march[..j]);
        StdText.TakeSnoc(march, j);
        MarchStep(march, j, addrs);
        trace := trace + visited;
        j := j + 1;
      }
      assert march[..j] == march;
    }
  }
}
