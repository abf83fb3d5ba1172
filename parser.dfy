/**
 * The reader of `parser.cpp` for the fault-object simulator: each fault's
 * conditions become configured `OneCellFault`/`TwoCellFault` objects, keyed
 * by a `FaultID` whose subcase index counts the fault's conditions from 0;
 * a March pattern is picked by its menu number and parsed.
 *
 * The JSON documents are given as their entries; the number typed at the
 * menu is a parameter. The bodies of the fault setters are not part of this
 * model: a configuration records the values `createFaults` hands to them,
 * a later `setTrigger`/`setFaultType` replacing an earlier one.
 */
module Parser {
  import opened Wrappers
  import opened StdText
  import opened FaultText
  import NewFaultTypes

  type FaultID = NewFaultTypes.FaultID

  /** An operation as `faultSimulator.hpp` declares it: its type and value. */
  datatype SingleOp = SingleOp(opType: NewFaultTypes.OperationType, value: int)

  datatype MarchElement = MarchElement(ops: seq<SingleOp>, isAscending: bool)

  /** How parsing throws: an unsupported field count, a `std::stoi`/`substr` exception, a bad menu number; or undefined behaviour. */
  datatype ParseError = UnsupportedFieldCount | Number(e: NumberError) | InvalidSelection | Undefined

  datatype TwoCellFaultType = Saa | Svv

  /** The arguments of the last `setFaultType`/`setTrigger` pair of a two-cell fault. */
  datatype TwoCellTrigger = TwoCellTrigger(kind: TwoCellFaultType, aLessThanV: bool, ai: int, vi: int, ops: seq<SingleOp>)

  /** A fault as `createFaults` configures it; `finalRead` is `None` when `setFinalReadValue` is not called. */
  datatype FaultConfig =
    | OneCell(id: FaultID, vi: int, seqV: seq<SingleOp>, faultValue: int, finalRead: Option<int>)
    | TwoCell(id: FaultID, trigger: Option<TwoCellTrigger>, faultValue: int, finalRead: Option<int>)

  /** A fault entry of the fault document. */
  datatype FaultEntry = FaultEntry(name: string, conditions: seq<string>)

  /** A March pattern entry of the March document. */
  datatype MarchPattern = MarchPattern(name: string, pattern: string)

  function Num(f: string): Result<int, ParseError> {
    match Stoi(f)
    case Ok(v) => Ok(v)
    case Err(e) => Err(Number(e))
  }

  /** A trigger token: 'R' reads, anything else writes; the value is `stoi` of the rest (`substr(1)` of an empty token throws). */
  function TriggerOp(tok: string): Result<SingleOp, ParseError> {
    if tok == [] then Err(Number(OutOfRange))
    else
      var v :- Num(tok[1..]);
      Ok(SingleOp(if tok[0] == 'R' then NewFaultTypes.Read else NewFaultTypes.Write, v))
  }

  function TriggerOps(toks: seq<string>): (r: Result<seq<SingleOp>, ParseError>)
    ensures r.Ok? ==> |r.value| == |toks|
  {
    if toks == [] then Ok([])
    else
      var op :- TriggerOp(toks[0]);
      var rest :- TriggerOps(toks[1..]);
      Ok([op] + rest)
  }

  /** The operations of a sequence field other than "-". */
  function SeqOps(f: string): Result<seq<SingleOp>, ParseError> {
    TriggerOps(Split(f, ','))
  }

  /** `setFinalReadValue(stoi(f))` unless `f` is "-". */
  function FinalRead(f: string): Result<Option<int>, ParseError> {
    if f == "-" then Ok(None)
    else
      var v :- Num(f);
      Ok(Some(v))
  }

  /** The trigger a two-cell sequence field `fields[k]` sets, if it is not "-". */
  function CellTrigger(fields: seq<string>, k: nat, kind: TwoCellFaultType): Result<Option<TwoCellTrigger>, ParseError>
    requires |fields| == 8 && k < 8
  {
    if fields[k] == "-" then Ok(None)
    else
      var ops :- SeqOps(fields[k]);
      var a :- Num(fields[0]);
      var ai :- Num(fields[1]);
      var vi :- Num(fields[2]);
      Ok(Some(TwoCellTrigger(kind, a != 0, ai, vi, ops)))
  }

  /** `createFaults`: five fields configure a one-cell fault, eight a two-cell fault, other counts throw. */
  function CreateFaults(id: FaultID, fields: seq<string>): Result<FaultConfig, ParseError> {
    if |fields| == 5 then
      var seqV :- if fields[1] == "-" then Ok([]) else SeqOps(fields[1]);
      var vi :- Num(fields[0]);
      var faultValue :- Num(fields[3]);
      var finalRead :- FinalRead(fields[4]);
      Ok(OneCell(id, vi, seqV, faultValue, finalRead))
    else if |fields| == 8 then
      var byA :- CellTrigger(fields, 3, Saa);
      var byV :- CellTrigger(fields, 4, Svv);
      var faultValue :- Num(fields[6]);
      var finalRead :- FinalRead(fields[7]);
      Ok(TwoCell(id, if byV.Some? then byV else byA, faultValue, finalRead))
    else Err(UnsupportedFieldCount)
  }

  /** Five fields make a one-cell fault and eight a two-cell fault; any other count throws. */
  lemma CreateFaultsKind(id: FaultID, fields: seq<string>)
    ensures |fields| != 5 && |fields| != 8 ==> CreateFaults(id, fields) == Err(UnsupportedFieldCount)
    ensures CreateFaults(id, fields).Ok? ==>
              var c := CreateFaults(id, fields).value;
              c.id == id && (c.OneCell? <==> |fields| == 5) && (c.TwoCell? <==> |fields| == 8)
  {
  }

  /** The final read value is set exactly when its field, the last, is not "-", and it is that field's number. */
  lemma CreateFaultsFinalRead(id: FaultID, fields: seq<string>)
    requires CreateFaults(id, fields).Ok?
    ensures var c := CreateFaults(id, fields).value;
            && (c.finalRead.None? <==> fields[|fields| - 1] == "-")
            && (c.finalRead.Some? ==> Stoi(fields[|fields| - 1]) == Ok(c.finalRead.value))
  {
  }

  /**
   * In a two-cell fault a VS field other than "-" decides the trigger (kind
   * `Svv`), overriding the AS field; otherwise an AS field other than "-"
   * does (kind `Saa`); with both "-" no trigger is set. The aggressor-first
   * flag is whether the first field's number is non-zero.
   */
  lemma CreateFaultsTrigger(id: FaultID, fields: seq<string>)
    requires |fields| == 8 && CreateFaults(id, fields).Ok?
    ensures var t := CreateFaults(id, fields).value.trigger;
            && (fields[4] != "-" ==> t.Some? && t.value.kind == Svv && Ok(t.value.ops) == SeqOps(fields[4]))
            && (fields[4] == "-" && fields[3] != "-" ==> t.Some? && t.value.kind == Saa && Ok(t.value.ops) == SeqOps(fields[3]))
            && (fields[4] == "-" && fields[3] == "-" ==> t.None?)
            && (t.Some? ==> Stoi(fields[0]).Ok? && t.value.aLessThanV == (Stoi(fields[0]).value != 0))
  {
  }

  /** A one-cell fault's victim index, sequence and fault value come from fields 0, 1 and 3; a "-" sequence is empty. */
  lemma CreateFaultsOneCell(id: FaultID, fields: seq<string>)
    requires |fields| == 5 && CreateFaults(id, fields).Ok?
    ensures var c := CreateFaults(id, fields).value;
            && c.OneCell?
            && Stoi(fields[0]) == Ok(c.vi) && Stoi(fields[3]) == Ok(c.faultValue)
            && (fields[1] == "-" ==> c.seqV == [])
            && (fields[1] != "-" ==> SeqOps(fields[1]) == Ok(c.seqV))
  {
  }

  /**
   * A trigger list parses exactly when every token is non-empty and the rest
   * of each token is a number; then each operation reads exactly when its
   * token starts with 'R', and its value is that number.
   */
  lemma {:induction false} TriggerOpsMeaning(toks: seq<string>)
    ensures TriggerOps(toks).Ok? <==> forall k :: 0 <= k < |toks| ==> toks[k] != [] && Stoi(toks[k][1..]).Ok?
    ensures TriggerOps(toks).Ok? ==>
              forall k :: 0 <= k < |toks| ==>
                && (TriggerOps(toks).value[k].opType == NewFaultTypes.Read <==> toks[k][0] == 'R')
                && Stoi(toks[k][1..]) == Ok(TriggerOps(toks).value[k].value)
    decreases |toks|
  {
    if toks != [] {
      var rest := toks[1..];
      TriggerOpsMeaning(rest);
      assert forall k :: 1 <= k < |toks| ==> toks[k] == rest[k - 1];
    }
  }

  /** The fault ids of one fault's conditions: its name with indices 0, 1, 2, ... */
  function IdsOf(name: string, n: nat): (ids: seq<FaultID>)
    ensures |ids| == n && forall j :: 0 <= j < n ==> ids[j] == NewFaultTypes.FaultID(name, j)
  {
    seq(n, j requires 0 <= j < n => NewFaultTypes.FaultID(name, j))
  }

  lemma IdsOfSnoc(name: string, n: nat)
    ensures IdsOf(name, n + 1) == IdsOf(name, n) + [NewFaultTypes.FaultID(name, n)]
  {
    var a, b := IdsOf(name, n + 1), IdsOf(name, n) + [NewFaultTypes.FaultID(name, n)];
    forall j | 0 <= j < |a| ensures a[j] == b[j] {
    }
  }

  /** The fault ids of the document, in file order. */
  function AllIds(entries: seq<FaultEntry>): seq<FaultID> {
    if entries == [] then [] else IdsOf(entries[0].name, |entries[0].conditions|) + AllIds(entries[1..])
  }

  /** What `createFaults` makes of each condition of fault `name`, numbered from 0. */
  function Configs(name: string, conds: seq<string>): (rs: seq<Result<FaultConfig, ParseError>>)
    ensures |rs| == |conds|
  {
    seq(|conds|, k requires 0 <= k < |conds| => CreateFaults(NewFaultTypes.FaultID(name, k), ConditionFields(conds[k])))
  }

  /** Stores each configured fault under its id, in order; the first exception aborts. */
  function Store(m: map<FaultID, FaultConfig>, ids: seq<FaultID>, rs: seq<Result<FaultConfig, ParseError>>): Result<map<FaultID, FaultConfig>, ParseError>
    requires |ids| == |rs|
    decreases |rs|
  {
    if rs == [] then Ok(m)
    else
      var c :- rs[0];
      Store(m[ids[0] := c], ids[1..], rs[1..])
  }

  /** The map after the conditions of one fault. */
  function BuildConds(m: map<FaultID, FaultConfig>, name: string, conds: seq<string>): Result<map<FaultID, FaultConfig>, ParseError> {
    Store(m, IdsOf(name, |conds|), Configs(name, conds))
  }

  /** The map after the faults of the document, in file order. */
  function BuildEntries(m: map<FaultID, FaultConfig>, entries: seq<FaultEntry>): Result<map<FaultID, FaultConfig>, ParseError>
    decreases |entries|
  {
    if entries == [] then Ok(m)
    else
      var m' :- BuildConds(m, entries[0].name, entries[0].conditions);
      BuildEntries(m', entries[1..])
  }

  /** No fault id of a document is named `x` when no entry is. */
  lemma {:induction false} AllIdsNames(entries: seq<FaultEntry>, x: string)
    requires forall i :: 0 <= i < |entries| ==> entries[i].name != x
    ensures forall k :: 0 <= k < |AllIds(entries)| ==> AllIds(entries)[k].faultName != x
    decreases |entries|
  {
    if entries != [] {
      AllIdsNames(entries[1..], x);
      var first := IdsOf(entries[0].name, |entries[0].conditions|);
      forall k | 0 <= k < |AllIds(entries)| ensures AllIds(entries)[k].faultName != x {
        if k >= |first| {
          assert AllIds(entries)[k] == AllIds(entries[1..])[k - |first|];
        }
      }
    }
  }

  /**
   * With distinct fault names every fault id of the document is distinct:
   * `faultIDs` lists each configured fault once, and no subcase overwrites
   * another in the map.
   */
  lemma {:induction false} AllIdsDistinct(entries: seq<FaultEntry>)
    requires forall i, j :: 0 <= i < j < |entries| ==> entries[i].name != entries[j].name
    ensures forall k, l :: 0 <= k < l < |AllIds(entries)| ==> AllIds(entries)[k] != AllIds(entries)[l]
    decreases |entries|
  {
    if entries != [] {
      var rest := AllIds(entries[1..]);
      var first := IdsOf(entries[0].name, |entries[0].conditions|);
      AllIdsDistinct(entries[1..]);
      AllIdsNames(entries[1..], entries[0].name);
      var all := AllIds(entries);
      assert all == first + rest;
      forall k, l | 0 <= k < l < |all| ensures all[k] != all[l] {
        if l < |first| {
        } else if k < |first| {
          assert all[l] == rest[l - |first|];
        } else {
          assert all[k] == rest[k - |first|] && all[l] == rest[l - |first|];
        }
      }
    }
  }

  /** One step of storing from position `k` on. */
  /** One condition of `parseFaultFile`'s inner loop: an exception ends the fault's map, otherwise the condition's config is stored under its id. */
  lemma ConditionStep(m0: map<FaultID, FaultConfig>, name: string, conds: seq<string>, m: map<FaultID, FaultConfig>, k: nat)
    requires k < |conds|
    requires BuildConds(m0, name, conds) == Store(m, IdsOf(name, |conds|)[k..], Configs(name, conds)[k..])
    ensures var c := CreateFaults(NewFaultTypes.FaultID(name, k), ConditionFields(conds[k]));
            && (c.Err? ==> BuildConds(m0, name, conds) == Err(c.error))
            && (c.Ok? ==>
                  BuildConds(m0, name, conds)
                  == Store(m[NewFaultTypes.FaultID(name, k) := c.value], IdsOf(name, |conds|)[k + 1..], Configs(name, conds)[k + 1..]))
  {
    StoreStep(m, IdsOf(name, |conds|), Configs(name, conds), k);
  }

  lemma StoreStep(m: map<FaultID, FaultConfig>, ids: seq<FaultID>, rs: seq<Result<FaultConfig, ParseError>>, k: nat)
    requires |ids| == |rs| && k < |rs|
    ensures Store(m, ids[k..], rs[k..]) ==
              match rs[k]
              case Err(e) => Err(e)
              case Ok(c) => Store(m[ids[k] := c], ids[k + 1..], rs[k + 1..])
  {
    assert rs[k..][0] == rs[k] && rs[k..][1..] == rs[k + 1..];
    assert ids[k..][0] == ids[k] && ids[k..][1..] == ids[k + 1..];
  }

  /** Storing adds exactly the given ids as keys. */
  lemma {:induction false} StoreKeys(m: map<FaultID, FaultConfig>, ids: seq<FaultID>, rs: seq<Result<FaultConfig, ParseError>>)
    requires |ids| == |rs| && Store(m, ids, rs).Ok?
    ensures Store(m, ids, rs).value.Keys == m.Keys + set k | 0 <= k < |ids| :: ids[k]
    decreases |rs|
  {
    if rs != [] {
      var c := rs[0].value;
      StoreKeys(m[ids[0] := c], ids[1..], rs[1..]);
      var later := set k | 0 <= k < |ids[1..]| :: ids[1..][k];
      var all := set k | 0 <= k < |ids| :: ids[k];
      forall x | x in all ensures x in {ids[0]} + later {
        var k :| 0 <= k < |ids| && x == ids[k];
        if k > 0 {
          assert x == ids[1..][k - 1];
        }
      }
      forall x | x in later ensures x in all {
        var k :| 0 <= k < |ids[1..]| && x == ids[1..][k];
        assert x == ids[k + 1];
      }
    }
  }

  /** An entry no stored id names keeps its value. */
  lemma {:induction false} StoreKeep(m: map<FaultID, FaultConfig>, ids: seq<FaultID>, rs: seq<Result<FaultConfig, ParseError>>, id: FaultID)
    requires |ids| == |rs| && Store(m, ids, rs).Ok? && id in m
    requires forall k :: 0 <= k < |ids| ==> ids[k] != id
    ensures id in Store(m, ids, rs).value && Store(m, ids, rs).value[id] == m[id]
    decreases |rs|
  {
    if rs != [] {
      StoreKeep(m[ids[0] := rs[0].value], ids[1..], rs[1..], id);
    }
  }

  /** The value stored under an id that is not repeated later is its configuration. */
  lemma {:induction false} StoreValue(m: map<FaultID, FaultConfig>, ids: seq<FaultID>, rs: seq<Result<FaultConfig, ParseError>>, j: nat)
    requires |ids| == |rs| && Store(m, ids, rs).Ok? && j < |rs|
    requires forall l :: j < l < |ids| ==> ids[l] != ids[j]
    ensures rs[j].Ok? && ids[j] in Store(m, ids, rs).value && Store(m, ids, rs).value[ids[j]] == rs[j].value
    decreases |rs|
  {
    var m' := m[ids[0] := rs[0].value];
    if j > 0 {
      assert ids[1..][j - 1] == ids[j] && rs[1..][j - 1] == rs[j];
      StoreValue(m', ids[1..], rs[1..], j - 1);
    } else {
      StoreKeep(m', ids[1..], rs[1..], ids[0]);
    }
  }

  /** One step of the fold over the faults. */
  lemma EntriesStep(m: map<FaultID, FaultConfig>, entries: seq<FaultEntry>, i: nat)
    requires i < |entries|
    ensures BuildEntries(m, entries[i..]) ==
              match BuildConds(m, entries[i].name, entries[i].conditions)
              case Err(e) => Err(e)
              case Ok(m') => BuildEntries(m', entries[i + 1..])
  {
    assert entries[i..][0] == entries[i] && entries[i..][1..] == entries[i + 1..];
  }

  /** A fault's conditions become keys `(name, 0)`, `(name, 1)`, ... of the map. */
  lemma BuildCondsKeys(m: map<FaultID, FaultConfig>, name: string, conds: seq<string>)
    requires BuildConds(m, name, conds).Ok?
    ensures BuildConds(m, name, conds).value.Keys ==
              m.Keys + set j | 0 <= j < |conds| :: NewFaultTypes.FaultID(name, j)
  {
    var ids := IdsOf(name, |conds|);
    StoreKeys(m, ids, Configs(name, conds));
    assert (set k | 0 <= k < |ids| :: ids[k]) == set j | 0 <= j < |conds| :: NewFaultTypes.FaultID(name, j);
  }

  /** The `j`-th condition of a fault is stored under `(name, j)` as `createFaults` configures it. */
  lemma BuildCondsValue(m: map<FaultID, FaultConfig>, name: string, conds: seq<string>, j: nat)
    requires BuildConds(m, name, conds).Ok? && j < |conds|
    ensures var id := NewFaultTypes.FaultID(name, j);
            CreateFaults(id, ConditionFields(conds[j])).Ok?
            && id in BuildConds(m, name, conds).value
            && BuildConds(m, name, conds).value[id] == CreateFaults(id, ConditionFields(conds[j])).value
  {
    StoreValue(m, IdsOf(name, |conds|), Configs(name, conds), j);
  }

  class Parser {
    var faultIDs: seq<FaultID>
    var marchTestName: string

    constructor()
      ensures faultIDs == [] && marchTestName == []
    {
      faultIDs := [];
      marchTestName := [];
    }

    /** `parseFaultFile` after the JSON is read: `subcaseIdx` counts each fault's conditions from 0. */
    method ParseFaultFile(entries: seq<FaultEntry>) returns (r: Result<map<FaultID, FaultConfig>, ParseError>)
      modifies this
      ensures r == BuildEntries(map[], entries)
      ensures old(faultIDs) <= faultIDs <= old(faultIDs) + AllIds(entries)
      ensures r.Ok? ==> faultIDs == old(faultIDs) + AllIds(entries)
      ensures marchTestName == old(marchTestName)
    {
      var faultMap: map<FaultID, FaultConfig> := map[];
      var i := 0;
      while i < |entries|
        invariant 0 <= i <= |entries| && marchTestName == old(marchTestName)
        invariant BuildEntries(map[], entries) == BuildEntries(faultMap, entries[i..])
        invariant old(faultIDs) + AllIds(entries) == faultIDs + AllIds(entries[i..])
        invariant old(faultIDs) <= faultIDs
      {
        EntriesStep(faultMap, entries, i);
        AllIdsStep(entries, i);
        ghost var before := faultIDs;
        var next, added := AddSubcases(entries[i].name, entries[i].conditions, faultMap);
        if next.Err? {
          AllIdsPrefix(entries, i, before, added);
          return Err(next.error);
        }
        AppendAssoc(before, IdsOf(entries[i].name, added), AllIds(entries[i + 1..]));
        faultMap := next.value;
        i := i + 1;
      }
      assert entries[i..] == [];
      assert faultIDs + [] == faultIDs;
      return Ok(faultMap);
    }

    /** One condition of that loop: `createFaults` on its fields, and the result stored under `(name, k)`. */
    method StoreCondition(ghost m0: map<FaultID, FaultConfig>, name: string, conds: seq<string>, m: map<FaultID, FaultConfig>, k: nat)
      returns (r: Result<map<FaultID, FaultConfig>, ParseError>)
      requires k < |conds|
      requires BuildConds(m0, name, conds) == Store(m, IdsOf(name, |conds|)[k..], Configs(name, conds)[k..])
      ensures r.Err? ==> BuildConds(m0, name, conds) == Err(r.error)
      ensures r.Ok? ==> BuildConds(m0, name, conds) == Store(r.value, IdsOf(name, |conds|)[k + 1..], Configs(name, conds)[k + 1..])
    {
      var fields := SplitCondition(conds[k]);
      var fid := NewFaultTypes.FaultID(name, k);
      var c := CreateFaults(fid, fields);
      ConditionStep(m0, name, conds, m, k);
      if c.Err? {
        return Err(c.error);
      }
      return Ok(m[fid := c.value]);
    }

    /** The loop over one fault's conditions: each gets the next subcase index and is stored, then its id is pushed. */
    method AddSubcases(name: string, conds: seq<string>, faultMap: map<FaultID, FaultConfig>)
      returns (r: Result<map<FaultID, FaultConfig>, ParseError>, ghost added: nat)
      modifies this
      ensures r == BuildConds(faultMap, name, conds)
      ensures added <= |conds| && faultIDs == old(faultIDs) + IdsOf(name, added)
      ensures r.Ok? ==> added == |conds|
      ensures marchTestName == old(marchTestName)
    {
      ghost var ids := IdsOf(name, |conds|);
      ghost var rs := Configs(name, conds);
      assert ids[0..] == ids && rs[0..] == rs;
      var m := faultMap;
      var subcaseIdx := 0;
      while subcaseIdx < |conds|
        invariant 0 <= subcaseIdx <= |conds| && marchTestName == old(marchTestName)
        invariant BuildConds(faultMap, name, conds) == Store(m, ids[subcaseIdx..], rs[subcaseIdx..])
        invariant faultIDs == old(faultIDs) + IdsOf(name, subcaseIdx)
      {
        var next := StoreCondition(faultMap, name, conds, m, subcaseIdx);
        if next.Err? {
          return Err(next.error), subcaseIdx;
        }
        m := next.value;
        var fid := NewFaultTypes.FaultID(name, subcaseIdx);
        IdsOfSnoc(name, subcaseIdx);
        AppendAssoc(old(faultIDs), IdsOf(name, subcaseIdx), [fid]);
        faultIDs := faultIDs + [fid];
        subcaseIdx := subcaseIdx + 1;
      }
      assert rs[subcaseIdx..] == [] && ids[subcaseIdx..] == [];
      return Ok(m), subcaseIdx;
    }

    /**
     * `parseMarchString` after the JSON is read: a menu number outside
     * 1..count throws; otherwise the chosen name becomes `marchTestName`
     * and the pattern of the first entry carrying that name is parsed.
     */
    method ParseMarchString(patterns: seq<MarchPattern>, choice: int) returns (r: Result<seq<MarchElement>, ParseError>)
      modifies this
      ensures r == Err(InvalidSelection) <==> !(1 <= choice <= |patterns|)
      ensures !(1 <= choice <= |patterns|) ==> marchTestName == old(marchTestName)
      ensures 1 <= choice <= |patterns| ==>
                marchTestName == patterns[choice - 1].name
                && r == PatternOf(patterns[FirstNamed(patterns, marchTestName)].pattern)
      ensures faultIDs == old(faultIDs)
    {
      if choice < 1 || choice > |patterns| {
        return Err(InvalidSelection);
      }
      marchTestName := patterns[choice - 1].name;
      var j := 0;
      while j < |patterns| && patterns[j].name != marchTestName
        invariant j <= choice - 1 && marchTestName == patterns[choice - 1].name && faultIDs == old(faultIDs)
        invariant forall m :: 0 <= m < j ==> patterns[m].name != marchTestName
      {
        j := j + 1;
      }
      FirstNamedIs(patterns, marchTestName, j);
      var raw := SplitMarch(patterns[j].pattern);
      if raw.None? {
        return Err(Undefined);
      }
      return Ok(ElementsOf(raw.value));
    }
  }

  /** The ids of the faults from the `i`-th on. */
  lemma AllIdsStep(entries: seq<FaultEntry>, i: nat)
    requires i < |entries|
    ensures AllIds(entries[i..]) == IdsOf(entries[i].name, |entries[i].conditions|) + AllIds(entries[i + 1..])
  {
    assert entries[i..][0] == entries[i] && entries[i..][1..] == entries[i + 1..];
  }

  /** The ids pushed before an exception are a prefix of the document's ids. */
  lemma AllIdsPrefix(entries: seq<FaultEntry>, i: nat, before: seq<FaultID>, n: nat)
    requires i < |entries| && n <= |entries[i].conditions|
    ensures before + IdsOf(entries[i].name, n) <= before + AllIds(entries[i..])
  {
    assert entries[i..][0] == entries[i] && entries[i..][1..] == entries[i + 1..];
    var all := IdsOf(entries[i].name, |entries[i].conditions|);
    assert IdsOf(entries[i].name, n) == all[..n];
    assert AllIds(entries[i..]) == all + AllIds(entries[i + 1..]);
  }

  /** The index of the first pattern named `name`, or the count when there is none. */
  function FirstNamed(patterns: seq<MarchPattern>, name: string): (j: nat)
    ensures j <= |patterns|
    ensures forall m :: 0 <= m < j ==> patterns[m].name != name
    ensures j < |patterns| ==> patterns[j].name == name
  {
    if patterns == [] then 0
    else if patterns[0].name == name then 0
    else 1 + FirstNamed(patterns[1..], name)
  }

  lemma FirstNamedIs(patterns: seq<MarchPattern>, name: string, j: nat)
    requires j < |patterns| && patterns[j].name == name
    requires forall m :: 0 <= m < j ==> patterns[m].name != name
    ensures FirstNamed(patterns, name) == j
  {
    var f := FirstNamed(patterns, name);
    assert f <= j;
    assert f >= j;
  }

  /** When two patterns share the chosen name, the first one's text is the one parsed. */
  lemma FirstNamedChoice(patterns: seq<MarchPattern>, choice: int)
    requires 1 <= choice <= |patterns|
    ensures FirstNamed(patterns, patterns[choice - 1].name) <= choice - 1
    ensures patterns[FirstNamed(patterns, patterns[choice - 1].name)].name == patterns[choice - 1].name
  {
  }

  /** An element of this reader's type: `is_asend` is false exactly for a 'd' element. */
  function ElementOf(e: RawElement): MarchElement {
    MarchElement(seq(|e.ops|, k requires 0 <= k < |e.ops| =>
                   SingleOp(if e.ops[k].isRead then NewFaultTypes.Read else NewFaultTypes.Write, e.ops[k].value)),
                 !e.descending)
  }

  function ElementsOf(es: seq<RawElement>): (r: seq<MarchElement>)
    ensures |r| == |es| && forall k :: 0 <= k < |es| ==> r[k] == ElementOf(es[k])
  {
    seq(|es|, k requires 0 <= k < |es| => ElementOf(es[k]))
  }

  /** The elements of a pattern string, or `Undefined` when an empty operation token is read. */
  function PatternOf(pattern: string): Result<seq<MarchElement>, ParseError> {
    match RawMarch(Split(pattern, ';'))
    case None => Err(Undefined)
    case Some(es) => Ok(ElementsOf(es))
  }

  /**
   * A pattern written with 'a'/'d' elements of letter-and-digit operations
   * parses to those elements, a 'd' element being the only one not
   * ascending.
   */
  lemma PatternRoundTrip(es: seq<RawElement>)
    requires DigitMarch(es)
    ensures PatternOf(MarchText(es)).Ok?
    ensures var r := PatternOf(MarchText(es)).value;
            |r| == |es| && forall k :: 0 <= k < |es| ==>
              r[k].isAscending == !es[k].descending && |r[k].ops| == |es[k].ops|
              && forall j :: 0 <= j < |es[k].ops| ==>
                   r[k].ops[j].value == es[k].ops[j].value
                   && (r[k].ops[j].opType == NewFaultTypes.Read <==> es[k].ops[j].isRead)
  {
    MarchTextRoundTrip(es);
  }
}
