/**
 * The value types the older simulator (`faultSimulator.cpp`) and the March
 * generator (`MarchGenerator.cpp`) work with. The header that defines them is
 * not part of this model; they are declared from their use: an operation
 * carries its type, its value and its number in the test, an element its
 * operations and its address order (`true` meaning descending), a fault
 * subcase the same fields as the newer `FaultFeature` plus the detecting
 * read `opD`.
 */
module LegacyTypes {

  datatype OpType = Read | Write

  datatype SingleOp = SingleOp(opType: OpType, value: int, order: int)

  /** A March element; `addrOrder` false walks the addresses upwards, true downwards. */
  datatype MarchElement = MarchElement(ops: seq<SingleOp>, addrOrder: bool)

  /** The state of a cell around one operation. */
  datatype OperationRecord = OperationRecord(beforeValue: int, op: SingleOp, afterValue: int)

  datatype FaultType = Single | Coupling

  datatype FaultSubcase = FaultSubcase(
    faultType: FaultType, A: int, AI: int, VI: int,
    seqA: seq<SingleOp>, seqV: seq<SingleOp>, opD: SingleOp, finalF: int, finalR: int)

  /** A fault primitive: a name and its subcases. */
  datatype FaultPrimitive = FaultPrimitive(name: string, subs: seq<FaultSubcase>)

  /** What one read operation of the test saw: whether it ever mismatched, and at which addresses. */
  datatype OpSynd = OpSynd(detected: bool, addresses: seq<int>)

  /** The syndrome of one subcase: per read operation (by its number in the test). */
  type SubcaseSynd = map<int, OpSynd>

  /** The "not set" value for trigger, fault and final read values. */
  const UNSET: int := -1
}
