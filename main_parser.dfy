/**
 * The readers of `main.cpp` for the older simulator: `parseFaultFile` turns
 * each fault's condition strings into `FaultSubcase`s, and
 * `parseMarchString` turns a March string into `MarchElement`s.
 *
 * The JSON document is given as its fault entries (name and condition
 * strings). The abnormal ends are `std::stoi` exceptions and undefined
 * behaviour (a missing field, or the second character of an empty token),
 * both an `Err`.
 */
module MainParser {
  import opened Wrappers
  import opened StdText
  import opened FaultText
  import opened LegacyTypes

  /** How parsing ends abnormally: a `std::stoi` exception, or undefined behaviour. */
  datatype ParseError = Number(e: NumberError) | Undefined

  /** A fault entry of the JSON document: its name and its condition strings. */
  datatype FaultEntry = FaultEntry(name: string, conditions: seq<string>)

  function Num(f: string): Result<int, ParseError> {
    match Stoi(f)
    case Ok(v) => Ok(v)
    case Err(e) => Err(Number(e))
  }

  /** A decoded operation, numbered 0 (the parsers never number operations). */
  function OpOf(raw: RawOp): SingleOp {
    SingleOp(if raw.isRead then Read else Write, raw.value, 0)
  }

  function OpsOf(raws: seq<RawOp>): (ops: seq<SingleOp>)
    ensures |ops| == |raws| && forall k :: 0 <= k < |raws| ==> ops[k] == OpOf(raws[k])
  {
    seq(|raws|, k requires 0 <= k < |raws| => OpOf(raws[k]))
  }

  /** A trigger-sequence field: "-" is no operation, otherwise its ','-separated 'R'/'W' tokens. */
  function SeqField(f: string): Result<seq<SingleOp>, ParseError> {
    if f == "-" then Ok([])
    else match RawOps(Split(f, ','), 'R')
      case None => Err(Undefined)
      case Some(raws) => Ok(OpsOf(raws))
  }

  /** The detecting read: a read of the field's second character minus '0'. */
  function OpD(f: string): Result<SingleOp, ParseError> {
    match CharAt(f, 1)
    case None => Err(Undefined)
    case Some(c) => Ok(SingleOp(Read, c as int - '0' as int, 0))
  }

  /** The final read value: `UNSET` for "-", otherwise the first character minus '0'. */
  function FinalR(f: string): int {
    if f == "-" then UNSET else CharAt(f, 0).GetOr('\0') as int - '0' as int
  }

  /** Eight fields with an aggressor make a coupling subcase. */
  predicate IsCoupling(fields: seq<string>) {
    |fields| == 8 && fields[0] != "-"
  }

  /** The subcase built from a condition's fields, in the order the source reads them. */
  function Subcase(fields: seq<string>): Result<FaultSubcase, ParseError> {
    if IsCoupling(fields) then
      var a :- Num(fields[0]);
      var ai :- Num(fields[1]);
      var vi :- Num(fields[2]);
      var seqA :- SeqField(fields[3]);
      var seqV :- SeqField(fields[4]);
      var opD :- OpD(fields[5]);
      var finalF :- Num(fields[6]);
      Ok(FaultSubcase(Coupling, a, ai, vi, seqA, seqV, opD, finalF, FinalR(fields[7])))
    else
      var f0 :- FieldAt(fields, 0);
      var vi :- Num(f0);
      var f1 :- FieldAt(fields, 1);
      var seqV :- SeqField(f1);
      var f2 :- FieldAt(fields, 2);
      var opD :- OpD(f2);
      var f3 :- FieldAt(fields, 3);
      var finalF :- Num(f3);
      var f4 :- FieldAt(fields, 4);
      Ok(FaultSubcase(Single, UNSET, UNSET, vi, [], seqV, opD, finalF, FinalR(f4)))
  }

  /** `fields[k]`, which is undefined behaviour past the end of the field list. */
  function FieldAt(fields: seq<string>, k: nat): Result<string, ParseError> {
    if k < |fields| then Ok(fields[k]) else Err(Undefined)
  }

  function Subcases(conds: seq<string>): Result<seq<FaultSubcase>, ParseError> {
    if conds == [] then Ok([])
    else
      var sc :- Subcase(ConditionFields(conds[0]));
      var rest :- Subcases(conds[1..]);
      Ok([sc] + rest)
  }

  /** The fault list of the document, in order; the first abnormal end aborts it. */
  function FaultList(entries: seq<FaultEntry>): Result<seq<FaultPrimitive>, ParseError> {
    if entries == [] then Ok([])
    else
      var subs :- Subcases(entries[0].conditions);
      var rest :- FaultList(entries[1..]);
      Ok([FaultPrimitive(entries[0].name, subs)] + rest)
  }

  /** One sequence field, read with its `getline` loop. */
  method ParseSeqField(f: string) returns (r: Result<seq<SingleOp>, ParseError>)
    ensures r == SeqField(f)
  {
    if f == "-" {
      return Ok([]);
    }
    var raws := ParseOps(f, 'R');
    if raws.None? {
      return Err(Undefined);
    }
    var ops: seq<SingleOp> := [];
    var k := 0;
    while k < |raws.value|
      invariant 0 <= k <= |raws.value| && ops == OpsOf(raws.value[..k])
    {
      ops := ops + [OpOf(raws.value[k])];
      k := k + 1;
    }
    assert raws.value[..k] == raws.value;
    return Ok(ops);
  }

  /** The fields of `sc` assigned one by one, as the source does. */
  method ParseSubcase(fields: seq<string>) returns (r: Result<FaultSubcase, ParseError>)
    ensures r == Subcase(fields)
  {
    if IsCoupling(fields) {
      var a := Num(fields[0]);
      if a.Err? { return Err(a.error); }
      var ai := Num(fields[1]);
      if ai.Err? { return Err(ai.error); }
      var vi := Num(fields[2]);
      if vi.Err? { return Err(vi.error); }
      var seqA := ParseSeqField(fields[3]);
      if seqA.Err? { return Err(seqA.error); }
      var seqV := ParseSeqField(fields[4]);
      if seqV.Err? { return Err(seqV.error); }
      var opD := OpD(fields[5]);
      if opD.Err? { return Err(opD.error); }
      var finalF := Num(fields[6]);
      if finalF.Err? { return Err(finalF.error); }
      return Ok(FaultSubcase(Coupling, a.value, ai.value, vi.value, seqA.value, seqV.value, opD.value,
                             finalF.value, FinalR(fields[7])));
    }
    if |fields| < 1 { return Err(Undefined); }
    var vi := Num(fields[0]);
    if vi.Err? { return Err(vi.error); }
    if |fields| < 2 { return Err(Undefined); }
    var seqV := ParseSeqField(fields[1]);
    if seqV.Err? { return Err(seqV.error); }
    if |fields| < 3 { return Err(Undefined); }
    var opD := OpD(fields[2]);
    if opD.Err? { return Err(opD.error); }
    if |fields| < 4 { return Err(Undefined); }
    var finalF := Num(fields[3]);
    if finalF.Err? { return Err(finalF.error); }
    if |fields| < 5 { return Err(Undefined); }
    return Ok(FaultSubcase(Single, UNSET, UNSET, vi.value, [], seqV.value, opD.value, finalF.value, FinalR(fields[4])));
  }

  /** `parseFaultFile` after the JSON is read: a loop over the faults, and one over each fault's conditions. */
  method ParseFaultFile(entries: seq<FaultEntry>) returns (r: Result<seq<FaultPrimitive>, ParseError>)
    ensures r == FaultList(entries)
  {
    var list: seq<FaultPrimitive> := [];
    var i := 0;
    PrependOkNil(FaultList(entries));
    while i < |entries|
      invariant 0 <= i <= |entries|
      invariant FaultList(entries) == PrependOk(list, FaultList(entries[i..]))
    {
      var subs := ParseConditions(entries[i].conditions);
      FaultListStep(entries, i);
      if subs.Err? {
        return Err(subs.error);
      }
      var fp := FaultPrimitive(entries[i].name, subs.value);
      PrependOkStep(list, fp, FaultList(entries[i + 1..]));
      list := list + [fp];
      i := i + 1;
    }
    assert entries[i..] == [];
    PrependOkEnd<FaultPrimitive, ParseError>(list);
    return Ok(list);
  }

  lemma FaultListStep(entries: seq<FaultEntry>, i: nat)
    requires i < |entries|
    ensures FaultList(entries[i..]) ==
              match Subcases(entries[i].conditions)
              case Err(e) => Err(e)
              case Ok(subs) => PrependOk([FaultPrimitive(entries[i].name, subs)], FaultList(entries[i + 1..]))
  {
    assert entries[i..][0] == entries[i] && entries[i..][1..] == entries[i + 1..];
  }

  lemma SubcasesStep(conds: seq<string>, j: nat)
    requires j < |conds|
    ensures Subcases(conds[j..]) ==
              match Subcase(ConditionFields(conds[j]))
              case Err(e) => Err(e)
              case Ok(sc) => PrependOk([sc], Subcases(conds[j + 1..]))
  {
    assert conds[j..][0] == conds[j] && conds[j..][1..] == conds[j + 1..];
  }

  /** The subcases of one fault, in the order of its conditions. */
  method ParseConditions(conds: seq<string>) returns (r: Result<seq<FaultSubcase>, ParseError>)
    ensures r == Subcases(conds)
  {
    var subs: seq<FaultSubcase> := [];
    var j := 0;
    PrependOkNil(Subcases(conds));
    while j < |conds|
      invariant 0 <= j <= |conds|
      invariant Subcases(conds) == PrependOk(subs, Subcases(conds[j..]))
    {
      var fields := SplitCondition(conds[j]);
      var sc := ParseSubcase(fields);
      SubcasesStep(conds, j);
      if sc.Err? {
        return Err(sc.error);
      }
      PrependOkStep(subs, sc.value, Subcases(conds[j + 1..]));
      subs := subs + [sc.value];
      j := j + 1;
    }
    assert conds[j..] == [];
    PrependOkEnd<FaultSubcase, ParseError>(subs);
    return Ok(subs);
  }

  /** A March element as this simulator holds it: `addrOrder` is 1 (true) for a 'd' element. */
  function ElementOf(e: RawElement): MarchElement {
    MarchElement(OpsOf(e.ops), e.descending)
  }

  function MarchOf(march: string): Result<seq<MarchElement>, ParseError> {
    match RawMarch(Split(march, ';'))
    case None => Err(Undefined)
    case Some(es) => Ok(seq(|es|, k requires 0 <= k < |es| => ElementOf(es[k])))
  }

  /** `parseMarchString`. */
  method ParseMarchString(march: string) returns (r: Result<seq<MarchElement>, ParseError>)
    ensures r == MarchOf(march)
  {
    var raw := SplitMarch(march);
    if raw.None? {
      return Err(Undefined);
    }
    var es := raw.value;
    var elems: seq<MarchElement> := [];
    var k := 0;
    while k < |es|
      invariant 0 <= k <= |es| && |elems| == k
      invariant forall j :: 0 <= j < k ==> elems[j] == ElementOf(es[j])
    {
      elems := elems + [ElementOf(es[k])];
      k := k + 1;
    }
    assert elems == seq(|es|, k requires 0 <= k < |es| => ElementOf(es[k]));
    return Ok(elems);
  }

  /**
   * A March string written with 'a'/'d' elements of letter-and-digit
   * operations parses to those elements: 'd' ones walk downwards, reads
   * are the 'r' tokens, and every value is its digit.
   */
  lemma MarchRoundTrip(es: seq<RawElement>)
    requires DigitMarch(es)
    ensures MarchOf(MarchText(es)).Ok?
    ensures var r := MarchOf(MarchText(es)).value;
            |r| == |es| && forall k :: 0 <= k < |es| ==>
              r[k].addrOrder == es[k].descending && |r[k].ops| == |es[k].ops|
              && forall j :: 0 <= j < |es[k].ops| ==>
                   r[k].ops[j] == SingleOp(if es[k].ops[j].isRead then Read else Write, es[k].ops[j].value, 0)
  {
    MarchTextRoundTrip(es);
  }

  /**
   * A sequence field is "-" (no operation) or holds at most one operation,
   * since the fields were already cut at ','; a one-operation field reads
   * when it starts with 'R', and its value is its second character minus
   * '0' (NUL for a one-character field).
   */
  lemma SeqFieldMeaning(f: string)
    requires ',' !in f
    ensures f == "-" || f == [] ==> SeqField(f) == Ok([])
    ensures f != "-" && f != [] ==>
              SeqField(f) == Ok([SingleOp(if f[0] == 'R' then Read else Write,
                                          CharAt(f, 1).value as int - '0' as int, 0)])
  {
    if f != "-" && f != [] {
      assert FindChar(f, ',', 0) == None;
      assert Split(f, ',') == [f];
      assert [f][0] == f && [f][1..] == [];
      var raw := RawOp(CharAt(f, 0) == Some('R'), CharAt(f, 1).value as int - '0' as int);
      assert DecodeOp(f, 'R') == Some((raw.isRead, raw.value));
      assert RawOps([], 'R') == Some([]);
      assert RawOps([f], 'R') == Some([raw] + []);
      assert [raw] + [] == [raw];
      assert OpsOf([raw]) == [OpOf(raw)];
    }
  }

  /** The first three single-cell fields, VI, VS and D, read without an abnormal end. */
  predicate FirstThreeRead(fields: seq<string>)
    requires |fields| >= 3
  {
    Num(fields[0]).Ok? && SeqField(fields[1]).Ok? && OpD(fields[2]).Ok?
  }

  /**
   * A subcase is a coupling subcase exactly when its condition has eight
   * fields and the first is not "-"; a single-cell subcase has no aggressor
   * (`A` and `AI` are `UNSET`, `seqA` is empty). A single-cell condition
   * with fewer than five fields never parses: the fields are read in order,
   * so a `std::stoi` failure on a field that is there comes first, and
   * reading past the field list ends it otherwise. Eight fields with a "-"
   * aggressor make `std::stoi("-")` throw.
   */
  lemma SubcaseKind(fields: seq<string>)
    ensures Subcase(fields).Ok? ==>
              (Subcase(fields).value.faultType == Coupling <==> IsCoupling(fields))
    ensures Subcase(fields).Ok? && Subcase(fields).value.faultType == Single ==>
              var sc := Subcase(fields).value;
              sc.A == UNSET && sc.AI == UNSET && sc.seqA == [] && sc.VI == Stoi(fields[0]).value
    ensures !IsCoupling(fields) && |fields| < 5 ==> Subcase(fields).Err?
    ensures !IsCoupling(fields) && fields == [] ==> Subcase(fields) == Err(Undefined)
    ensures !IsCoupling(fields) && fields != [] && Num(fields[0]).Err? ==> Subcase(fields) == Err(Num(fields[0]).error)
    ensures !IsCoupling(fields) && |fields| == 4 && FirstThreeRead(fields) && Num(fields[3]).Err? ==>
              Subcase(fields) == Err(Num(fields[3]).error)
    ensures !IsCoupling(fields) && |fields| == 4 && FirstThreeRead(fields) && Num(fields[3]).Ok? ==>
              Subcase(fields) == Err(Undefined)
    ensures |fields| == 8 && fields[0] == "-" ==> Subcase(fields) == Err(Number(InvalidArgument))
  {
    if |fields| == 8 && fields[0] == "-" {
      assert SkipWhile(IsCSpace, fields[0], 0) == 0;
      assert SkipWhile(IsCSpace, fields[0], 0) < |fields[0]| && fields[0][0] == '-';
    }
  }

  /**
   * Short single-cell conditions whose fields read in order hit a bad number
   * before the missing field: "x" fails on VI, "1,-,R0,x" on F.
   */
  lemma ShortConditionThrows()
    ensures Subcase(["x"]) == Err(Number(InvalidArgument))
    ensures Subcase(["1", "-", "R0", "x"]) == Err(Number(InvalidArgument))
  {
    NumDigit(1);
    assert SkipWhile(IsCSpace, "x", 0) == 0;
    assert Num("x") == Err(Number(InvalidArgument));
    assert CharAt("R0", 1) == Some('0');
    SubcaseKind(["1", "-", "R0", "x"]);
  }

  /** `std::stoi` of a single digit is that digit. */
  lemma StoiDigit(v: int)
    requires 0 <= v <= 9
    ensures Stoi([DigitChar(v)]) == Ok(v)
  {
    var s := [DigitChar(v)];
    assert SkipWhile(IsCSpace, s, 0) == 0;
    assert SkipWhile(IsDigit, s, 0) == 1;
    assert s[0..1] == s;
    assert DigitsValue(s) == 10 * DigitsValue([]) + v by {
      assert s[..0] == [];
    }
  }

  lemma NumDigit(v: int)
    requires 0 <= v <= 9
    ensures Num([DigitChar(v)]) == Ok(v)
  {
    StoiDigit(v);
  }

  /** A value written as its digit, and "-" for `UNSET`. */
  function ValueText(v: int): string
    requires v == UNSET || 0 <= v <= 9
  {
    if v == UNSET then "-" else [DigitChar(v)]
  }

  /** A subcase that a condition string can describe: digits everywhere, at most one trigger operation per cell, numbering 0. */
  predicate Writable(sc: FaultSubcase) {
    && 0 <= sc.VI <= 9 && 0 <= sc.finalF <= 9 && (sc.finalR == UNSET || 0 <= sc.finalR <= 9)
    && sc.opD.opType == Read && 0 <= sc.opD.value <= 9 && sc.opD.order == 0
    && |sc.seqA| <= 1 && |sc.seqV| <= 1
    && (forall k :: 0 <= k < |sc.seqA| ==> 0 <= sc.seqA[k].value <= 9 && sc.seqA[k].order == 0)
    && (forall k :: 0 <= k < |sc.seqV| ==> 0 <= sc.seqV[k].value <= 9 && sc.seqV[k].order == 0)
    && (sc.faultType == Coupling ==> 0 <= sc.A <= 9 && 0 <= sc.AI <= 9)
    && (sc.faultType == Single ==> sc.A == UNSET && sc.AI == UNSET && sc.seqA == [])
  }

  function OpText(op: SingleOp): string
    requires 0 <= op.value <= 9
  {
    [if op.opType == Read then 'R' else 'W', DigitChar(op.value)]
  }

  function SeqText(ops: seq<SingleOp>): string
    requires |ops| <= 1 && forall k :: 0 <= k < |ops| ==> 0 <= ops[k].value <= 9
  {
    if ops == [] then "-" else OpText(ops[0])
  }

  /** The fields of a condition describing `sc`: A, AI, VI, AS, VS, D, F, R, or VI, VS, D, F, R. */
  function Fields(sc: FaultSubcase): seq<string>
    requires Writable(sc)
  {
    if sc.faultType == Coupling then
      [[DigitChar(sc.A)], [DigitChar(sc.AI)], [DigitChar(sc.VI)], SeqText(sc.seqA), SeqText(sc.seqV),
       OpText(sc.opD), [DigitChar(sc.finalF)], ValueText(sc.finalR)]
    else
      [[DigitChar(sc.VI)], SeqText(sc.seqV), OpText(sc.opD), [DigitChar(sc.finalF)], ValueText(sc.finalR)]
  }

  lemma SeqFieldOfText(ops: seq<SingleOp>)
    requires |ops| <= 1 && forall k :: 0 <= k < |ops| ==> 0 <= ops[k].value <= 9 && ops[k].order == 0
    ensures SeqField(SeqText(ops)) == Ok(ops)
  {
    if ops != [] {
      SeqFieldMeaning(SeqText(ops));
      assert [ops[0]] == ops;
    }
  }

  lemma CouplingOfFields(sc: FaultSubcase)
    requires Writable(sc) && sc.faultType == Coupling
    ensures Subcase(Fields(sc)) == Ok(sc)
  {
    CouplingNumbers(sc);
    CouplingOps(sc);
    CouplingSubcase(Fields(sc), sc);
  }

  /** The numeric fields of a written coupling subcase read back as its values. */
  lemma CouplingNumbers(sc: FaultSubcase)
    requires Writable(sc) && sc.faultType == Coupling
    ensures var f := Fields(sc);
            |f| == 8 && f[0] != "-"
            && Num(f[0]) == Ok(sc.A) && Num(f[1]) == Ok(sc.AI) && Num(f[2]) == Ok(sc.VI) && Num(f[6]) == Ok(sc.finalF)
  {
    NumDigit(sc.A);
    NumDigit(sc.AI);
    NumDigit(sc.VI);
    NumDigit(sc.finalF);
  }

  /** The operation fields of a written coupling subcase read back as its operations. */
  lemma CouplingOps(sc: FaultSubcase)
    requires Writable(sc) && sc.faultType == Coupling
    ensures var f := Fields(sc);
            |f| == 8
            && SeqField(f[3]) == Ok(sc.seqA) && SeqField(f[4]) == Ok(sc.seqV)
            && OpD(f[5]) == Ok(sc.opD) && FinalR(f[7]) == sc.finalR
  {
    SeqFieldOfText(sc.seqA);
    SeqFieldOfText(sc.seqV);
  }

  /** The coupling branch of `Subcase` when every field reads as the subcase's value. */
  lemma CouplingSubcase(f: seq<string>, sc: FaultSubcase)
    requires IsCoupling(f) && sc.faultType == Coupling
    requires Num(f[0]) == Ok(sc.A) && Num(f[1]) == Ok(sc.AI) && Num(f[2]) == Ok(sc.VI)
    requires SeqField(f[3]) == Ok(sc.seqA) && SeqField(f[4]) == Ok(sc.seqV)
    requires OpD(f[5]) == Ok(sc.opD) && Num(f[6]) == Ok(sc.finalF) && FinalR(f[7]) == sc.finalR
    ensures Subcase(f) == Ok(sc)
  {
  }

  lemma SingleOfFields(sc: FaultSubcase)
    requires Writable(sc) && sc.faultType == Single
    ensures Subcase(Fields(sc)) == Ok(sc)
  {
    StoiDigit(sc.VI);
    StoiDigit(sc.finalF);
    SeqFieldOfText(sc.seqV);
  }

  /**
   * Parsing inverts writing: the condition string that joins the fields of
   * a describable subcase with ',' parses back to that subcase.
   */
  lemma SubcaseRoundTrip(sc: FaultSubcase)
    requires Writable(sc)
    ensures Subcase(ConditionFields(Join(Fields(sc), ','))) == Ok(sc)
  {
    var fields := Fields(sc);
    forall k | 0 <= k < |fields| ensures ',' !in fields[k] && fields[k] != []
      && !IsFieldTrim(fields[k][0]) && !IsFieldTrim(fields[k][|fields[k]| - 1])
    {
    }
    ConditionFieldsOfJoin(fields);
    if sc.faultType == Coupling {
      CouplingOfFields(sc);
    } else {
      SingleOfFields(sc);
    }
  }
}
