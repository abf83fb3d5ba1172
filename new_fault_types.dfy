/**
 * The value types of `newFaultSimulator.hpp`: operations of a March test and
 * their position in it, the record of one operation applied to a cell, fault
 * identifiers and fault features, with the header's comparison operators and
 * default member values.
 */
module NewFaultTypes {

  datatype OperationType = Read | Write

  /** Position of an operation in a March test: element number, then operation number. */
  datatype MarchOpIdx = MarchOpIdx(marchOrder: int, opOrder: int) {

    /** `operator==`: both fields equal. */
    predicate Same(other: MarchOpIdx) {
      marchOrder == other.marchOrder && opOrder == other.opOrder
    }

    /** `operator<`: `std::tie(marchOrder, opOrder)` compared lexicographically. */
    predicate Less(other: MarchOpIdx) {
      marchOrder < other.marchOrder || (marchOrder == other.marchOrder && opOrder < other.opOrder)
    }
  }

  /** `operator==` on positions is equality of the pair. */
  lemma SameIsEquality(a: MarchOpIdx, b: MarchOpIdx)
    ensures a.Same(b) <==> a == b
  {
  }

  /**
   * `operator<` is a strict total order on positions, consistent with
   * `operator==`: of `a < b`, `a == b` and `b < a` exactly one holds.
   */
  lemma LessIsStrictTotalOrder(a: MarchOpIdx, b: MarchOpIdx, c: MarchOpIdx)
    ensures !a.Less(a)
    ensures a.Less(b) && b.Less(c) ==> a.Less(c)
    ensures a.Less(b) ==> !b.Less(a)
    ensures (a.Less(b) && !a.Same(b) && !b.Less(a))
         || (!a.Less(b) && a.Same(b) && !b.Less(a))
         || (!a.Less(b) && !a.Same(b) && b.Less(a))
  {
  }

  /** One March operation: read or write, the value written or expected, and its position. */
  datatype SingleOp = SingleOp(opType: OperationType, value: int, idx: MarchOpIdx)

  /** One March element: its operations, applied to each address in turn, ascending or descending. */
  datatype MarchElement = MarchElement(ops: seq<SingleOp>, isAscending: bool)

  /** The state of a cell around one operation. */
  datatype OperationRecord = OperationRecord(beforeValue: int, op: SingleOp, afterValue: int)

  datatype FaultType = Single | Coupling

  /** A fault's name and the number of one of its subcases. */
  datatype FaultID = FaultID(faultName: string, subcaseIdx: int) {

    /** `operator==`: the names and the subcase numbers are equal. */
    predicate Same(other: FaultID) {
      faultName == other.faultName && subcaseIdx == other.subcaseIdx
    }
  }

  /** `operator==` on fault identifiers needs both the name and the subcase number to agree. */
  lemma FaultIdSameIsEquality(a: FaultID, b: FaultID)
    ensures a.Same(b) <==> a == b
  {
  }

  /**
   * One fault subcase: its type, which side the aggressor lies on (`A`: 0
   * below the victim, 1 above), the aggressor's and the victim's trigger
   * values and sequences, the value the victim is forced to and the value a
   * faulty read returns (-1 for none).
   */
  datatype FaultFeature = FaultFeature(
    faultType: FaultType, A: int, AI: int, VI: int,
    seqA: seq<SingleOp>, seqV: seq<SingleOp>, finalF: int, finalR: int)

  /** The value the header uses for "not set": trigger values and final values start at it. */
  const NOT_SET: int := -1
}
