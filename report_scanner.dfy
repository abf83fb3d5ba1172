/**
 * The report scanner of `python/txt2excel.py`: one pass over the lines of a
 * fault-simulation report that keeps the latest fault name, subcase number
 * and S/F/R tag, and turns every `Init 0` / `Init 1` line into one row of the
 * matching result stream, reading the detect-operations text from the line
 * after it when that line is not the start of another block.
 *
 * The three regular expressions are written out as recognisers over strings.
 * The rows are specified by the sequence of positions the scan classifies
 * (`Visits`) and the rows those positions emit (`Emitted`); `Scan` is the loop
 * itself and is proved to produce exactly those rows.
 */
module ReportScanner {
  import opened Wrappers
  import opened StdText

  const NO_DETECTION: string := "No detection"

  /** Prefixes that stop the line after an Init line from being read as detect operations. */
  const RESERVED_PREFIXES: seq<string> :=
    ["Init", "Subcase", "dynamic", "Stuck", "Transition", "Write", "Read", "Disturb",
     "Incorrect", "State", "Detected Rate"]

  /** The sticky context: `cur_fault`, `cur_subcase`, `sfr_tag`. */
  datatype Context = Context(faultName: Option<string>, subcaseIndex: Option<nat>, tag: Option<string>)

  const EMPTY_CONTEXT := Context(None, None, None)

  /** One row of either sheet; `initId` says which of the two the row belongs to. */
  datatype Row = Row(faultName: Option<string>, subcaseIndex: Option<nat>, tag: Option<string>,
                     initId: nat, syndrome: string, hexSyndrome: string, detectOps: string)

  datatype LineKind =
    | FaultHeader(name: string)
    | SubcaseHeader(index: nat, tag: string)
    | InitHeader(initId: nat, syndrome: string, hexSyndrome: string)
    | Unrecognized

  predicate IsNewline(c: char) {
    c == '\n'
  }

  predicate IsBit(c: char) {
    c == '0' || c == '1'
  }

  /** `lines[i].rstrip("\n")`. */
  function LineAt(lines: seq<string>, i: nat): string
    requires i < |lines|
  {
    RStrip(IsNewline, lines[i])
  }

  /** Index just past the last newline of `s`, or 0 when there is none. */
  function AfterLastNewline(s: string): (start: nat)
    ensures start <= |s|
    ensures forall m :: start <= m < |s| ==> s[m] != '\n'
    ensures 0 < start ==> s[start - 1] == '\n'
    decreases |s|
  {
    if s == [] then 0
    else if s[|s| - 1] == '\n' then |s|
    else AfterLastNewline(s[..|s| - 1])
  }

  /**
   * `fault_re = ^\s*(.+?Fault.*)$`. Python's `.` stops at a newline, so the
   * group lies after the last newline, and everything before it must be white
   * space; the group needs at least one character before `Fault`. The name
   * kept is the group stripped, which is the whole line stripped.
   */
  function MatchFault(line: string): Option<string> {
    var start := AfterLastNewline(line);
    if SkipWhile(IsPySpace, line, 0) >= start && start < |line| && FindSub(line, "Fault", start + 1).Some?
    then Some(Strip(IsPySpace, line))
    else None
  }

  /**
   * `subcase_re = ^Subcase\s+(\d+)\s+<\s*([^>]+)\s*>`: the number, and the text
   * between `<` and the first `>` after it (which must not be empty), stripped.
   */
  function MatchSubcase(line: string): (r: Option<(nat, string)>)
    ensures r.Some? ==> StartsWith(line, "Subcase")
  {
    if !StartsWith(line, "Subcase") then None
    else
      var a := SkipWhile(IsPySpace, line, 7);
      var b := SkipWhile(IsDigit, line, a);
      var c := SkipWhile(IsPySpace, line, b);
      if a == 7 || b == a || c == b || c == |line| || line[c] != '<' then None
      else match FindChar(line, '>', c + 1)
        case None => None
        case Some(close) =>
          if close == c + 1 then None
          else Some((DigitsOf(line, a, b), Strip(IsPySpace, line[c + 1..close])))
  }

  /** The value of the digit run `s[a..b]`. */
  function DigitsOf(s: string, a: nat, b: nat): nat
    requires a <= b <= |s|
    requires forall m :: a <= m < b ==> IsDigit(s[m])
  {
    var run := s[a..b];
    assert forall m :: 0 <= m < |run| ==> IsDigit(run[m]) by {
      forall m | 0 <= m < |run| ensures IsDigit(run[m]) {
        assert run[m] == s[a + m];
        assert a <= a + m < b;
      }
    }
    DigitsValue(run)
  }

  /**
   * `init_re = ^Init\s+([01]):\s+([01]+|No detection)(?:\s+\((0x[0-9a-fA-F]+)\))?`:
   * the Init id, the syndrome (a run of bits, or the phrase `No detection`) and
   * the optional hexadecimal group, `""` when it is absent.
   */
  function MatchInit(line: string): (r: Option<(nat, string, string)>)
    ensures r.Some? ==> StartsWith(line, "Init") && r.value.0 <= 1
    ensures r.Some? ==> r.value.1 == NO_DETECTION || (r.value.1 != [] && forall m :: 0 <= m < |r.value.1| ==> IsBit(r.value.1[m]))
    ensures r.Some? ==> r.value.2 == [] || StartsWith(r.value.2, "0x")
  {
    if !StartsWith(line, "Init") then None
    else
      var a := SkipWhile(IsPySpace, line, 4);
      if a == 4 || a + 2 > |line| || !IsBit(line[a]) || line[a + 1] != ':' then None
      else
        var b := SkipWhile(IsPySpace, line, a + 2);
        var c := SkipWhile(IsBit, line, b);
        if b == a + 2 then None
        else if c > b then Some((if line[a] == '0' then 0 else 1, line[b..c], HexGroup(line, c)))
        else if StartsWith(line[b..], NO_DETECTION) then
          Some((if line[a] == '0' then 0 else 1, NO_DETECTION, HexGroup(line, b + |NO_DETECTION|)))
        else None
  }

  /** The optional group `(?:\s+\((0x[0-9a-fA-F]+)\))?` read from index `e`. */
  function HexGroup(line: string, e: nat): (hex: string)
    requires e <= |line|
    ensures hex == [] || (StartsWith(hex, "0x") && |hex| > 2)
  {
    var f := SkipWhile(IsPySpace, line, e);
    if f == e || f + 3 > |line| || line[f..f + 3] != "(0x" then []
    else
      var g := SkipWhile(IsHexDigit, line, f + 3);
      if g == f + 3 || g == |line| || line[g] != ')' then []
      else
        assert line[f + 1..g][..2] == line[f + 1..f + 3];
        line[f + 1..g]
  }

  /** The three patterns in the order the scanner tries them; the first match wins. */
  function Classify(line: string): LineKind {
    match MatchFault(line)
    case Some(name) => FaultHeader(name)
    case None =>
      match MatchSubcase(line)
      case Some((index, tag)) => SubcaseHeader(index, tag)
      case None =>
        match MatchInit(line)
        case Some((id, syndrome, hex)) => InitHeader(id, syndrome, hex)
        case None => Unrecognized
  }

  function StartsWithAny(s: string, prefixes: seq<string>): (r: bool)
    ensures r <==> exists k :: 0 <= k < |prefixes| && StartsWith(s, prefixes[k])
    decreases |prefixes|
  {
    prefixes != [] && (StartsWith(s, prefixes[0]) || StartsWithAny(s, prefixes[1..]))
  }

  /**
   * The detect-operations text the line after an Init line at `i` supplies:
   * that line left-stripped, when it exists, is not blank and starts with no
   * reserved prefix.
   */
  function DetectPayload(lines: seq<string>, i: nat): Option<string>
    requires i < |lines|
  {
    if i + 1 < |lines| then
      var next := LStrip(IsPySpace, lines[i + 1]);
      if next != [] && !StartsWithAny(next, RESERVED_PREFIXES) then Some(RStrip(IsNewline, next))
      else None
    else None
  }

  /** The row an Init line emits under context `ctx`. */
  function MakeRow(ctx: Context, initId: nat, syndrome: string, hex: string, payload: Option<string>): (row: Row)
    ensures row.faultName == ctx.faultName && row.subcaseIndex == ctx.subcaseIndex && row.tag == ctx.tag
    ensures row.initId == initId && row.hexSyndrome == hex
    ensures syndrome == NO_DETECTION ==> row.syndrome == [] && row.detectOps == NO_DETECTION
    ensures syndrome != NO_DETECTION ==> row.syndrome == syndrome && row.detectOps == payload.GetOr([])
  {
    Row(ctx.faultName, ctx.subcaseIndex, ctx.tag, initId,
        if syndrome == NO_DETECTION then [] else syndrome,
        hex,
        if syndrome != NO_DETECTION then payload.GetOr([]) else NO_DETECTION)
  }

  /** The context after a header line; other lines leave it as it is. */
  function Update(ctx: Context, kind: LineKind): Context {
    match kind
    case FaultHeader(name) => ctx.(faultName := Some(name))
    case SubcaseHeader(index, tag) => ctx.(subcaseIndex := Some(index), tag := Some(tag))
    case _ => ctx
  }

  /**
   * A classified line: its kind, and the detect operations the line after it
   * would supply to an Init line.
   */
  datatype Token = Token(kind: LineKind, payload: Option<string>)

  /** Every line of the report, classified. */
  function Tokens(lines: seq<string>): (ts: seq<Token>)
    ensures |ts| == |lines|
    ensures forall i :: 0 <= i < |lines| ==> ts[i] == Token(Classify(LineAt(lines, i)), DetectPayload(lines, i))
  {
    seq(|lines|, i requires 0 <= i < |lines| => Token(Classify(LineAt(lines, i)), DetectPayload(lines, i)))
  }

  /** The last line has no line after it to supply detect operations. */
  lemma LastLineNoPayload(lines: seq<string>)
    requires lines != []
    ensures Tokens(lines)[|lines| - 1].payload == None
  {
  }

  /**
   * Where the scan goes after classifying position `i`: one line on, or two
   * when an Init line consumes the next line as its detect operations.
   */
  function Next(ts: seq<Token>, i: nat): (j: nat)
    requires i < |ts|
    ensures j == i + 1 || j == i + 2
    ensures j <= |ts|
  {
    if ts[i].kind.InitHeader? && ts[i].payload.Some? && i + 1 < |ts| then i + 2 else i + 1
  }

  /** The positions the scan classifies, starting from `i`. */
  function Visits(ts: seq<Token>, i: nat): (ps: seq<nat>)
    requires i <= |ts|
    ensures forall k :: 0 <= k < |ps| ==> i <= ps[k] < |ts|
    ensures ps != [] ==> ps[0] == i
    ensures ps == [] <==> i == |ts|
    decreases |ts| - i
  {
    if i == |ts| then [] else [i] + Visits(ts, Next(ts, i))
  }

  /** The row (none, or one) that classifying position `i` under `ctx` emits, tagged with `i`. */
  function EmitAt(ts: seq<Token>, i: nat, ctx: Context): seq<(nat, Row)>
    requires i < |ts|
  {
    var kind := ts[i].kind;
    if kind.InitHeader?
    then [(i, MakeRow(ctx, kind.initId, kind.syndrome, kind.hexSyndrome, ts[i].payload))]
    else []
  }

  /** The rows that classifying the positions `ps` in turn emits, starting from context `ctx`. */
  function Emitted(ts: seq<Token>, ps: seq<nat>, ctx: Context): seq<(nat, Row)>
    requires forall k :: 0 <= k < |ps| ==> ps[k] < |ts|
    decreases |ps|
  {
    if ps == [] then []
    else EmitAt(ts, ps[0], ctx) + Emitted(ts, ps[1..], Update(ctx, ts[ps[0]].kind))
  }

  /** The rows of one sheet: Init 0 rows when `zero` holds, all the others when it does not. */
  function Sheet(es: seq<(nat, Row)>, zero: bool): (r: seq<Row>)
    ensures |r| <= |es|
    ensures forall k :: 0 <= k < |r| ==> (r[k].initId == 0) == zero
    decreases |es|
  {
    if es == [] then []
    else (if (es[0].1.initId == 0) == zero then [es[0].1] else []) + Sheet(es[1..], zero)
  }

  /** The rows a scan of the classified lines `ts` produces, each tagged with the position of its Init line. */
  function ScanRows(ts: seq<Token>): seq<(nat, Row)> {
    Emitted(ts, Visits(ts, 0), EMPTY_CONTEXT)
  }

  /** The rows the whole report produces. */
  function ReportRows(lines: seq<string>): seq<(nat, Row)> {
    ScanRows(Tokens(lines))
  }

  /**
   * The look-ahead after an Init line: the next line, left-stripped, is taken
   * as the detect operations when it is non-empty and starts with no reserved
   * word.
   */
  method LookAhead(lines: seq<string>, i: nat) returns (detectOps: string, consumed: bool)
    requires i < |lines|
    ensures consumed <==> DetectPayload(lines, i).Some?
    ensures consumed ==> detectOps == DetectPayload(lines, i).value
    ensures !consumed ==> detectOps == ""
  {
    detectOps, consumed := "", false;
    if i + 1 < |lines| {
      var next := LStrip(IsPySpace, lines[i + 1]);
      if next != [] && !StartsWithAny(next, RESERVED_PREFIXES) {
        detectOps, consumed := RStrip(IsNewline, next), true;
      }
    }
  }

  /**
   * One pass of the scanning loop's body at line `i`: a header updates the
   * current fault, or the current subcase and its tag; an Init line yields a
   * row and may consume the following line as its detect operations.
   */
  method ScanLine(lines: seq<string>, i: nat, ctx: Context) returns (next: nat, after: Context, row: Option<Row>)
    requires i < |lines|
    ensures next == Next(Tokens(lines), i)
    ensures after == Update(ctx, Tokens(lines)[i].kind)
    ensures EmitAt(Tokens(lines), i, ctx) == if row.Some? then [(i, row.value)] else []
  {
    var line := RStrip(IsNewline, lines[i]);
    next, after, row := i + 1, ctx, None;
    match Classify(line) {
      case FaultHeader(name) =>
        after := ctx.(faultName := Some(name));
      case SubcaseHeader(index, tag) =>
        after := ctx.(subcaseIndex := Some(index), tag := Some(tag));
      case InitHeader(initId, syndromeBin, hexCode) =>
        var detectOps, consumed := LookAhead(lines, i);
        if consumed {
          next := i + 2;
        }
        row := Some(MakeRow(ctx, initId, syndromeBin, hexCode, if consumed then Some(detectOps) else None));
      case Unrecognized =>
    }
  }

  /**
   * The scanning loop of the script, from the list of lines to the two row
   * lists `rows_0` (rows of Init 0) and `rows_1` (all other rows).
   */
  method Scan(lines: seq<string>) returns (rows0: seq<Row>, rows1: seq<Row>)
    ensures rows0 == Sheet(ReportRows(lines), true)
    ensures rows1 == Sheet(ReportRows(lines), false)
  {
    ghost var ts := Tokens(lines);
    rows0, rows1 := [], [];
    var ctx := EMPTY_CONTEXT;
    var i := 0;
    while i < |lines|
      invariant 0 <= i <= |lines|
      invariant Sheet(ReportRows(lines), true) == rows0 + Sheet(Emitted(ts, Visits(ts, i), ctx), true)
      invariant Sheet(ReportRows(lines), false) == rows1 + Sheet(Emitted(ts, Visits(ts, i), ctx), false)
      decreases |lines| - i
    {
      var next, after, row := ScanLine(lines, i, ctx);
      ghost var e := if row.Some? then Some((i, row.value)) else None;
      EmittedStep(ts, i, ctx);
      ghost var rest := Emitted(ts, Visits(ts, next), after);
      ghost var before0, before1 := rows0, rows1;
      if row.Some? {
        if row.value.initId == 0 {
          rows0 := rows0 + [row.value];
        } else {
          rows1 := rows1 + [row.value];
        }
      }
      SheetAdvance(before0, e, rest, true, rows0);
      SheetAdvance(before1, e, rest, false, rows1);
      i, ctx := next, after;
    }
  }

  /** One step of the scan: the rows from `i` on are those of position `i` followed by those after it. */
  lemma EmittedStep(ts: seq<Token>, i: nat, ctx: Context)
    requires i < |ts|
    ensures Emitted(ts, Visits(ts, i), ctx)
            == EmitAt(ts, i, ctx) + Emitted(ts, Visits(ts, Next(ts, i)), Update(ctx, ts[i].kind))
  {
    var ps := Visits(ts, i);
    assert ps[0] == i && ps[1..] == Visits(ts, Next(ts, i));
  }

  lemma SheetOne(e: (nat, Row), zero: bool)
    ensures Sheet([e], zero) == if (e.1.initId == 0) == zero then [e.1] else []
  {
    assert [e][1..] == [];
  }

  /** Appending the row of one step to the sheet it belongs to keeps the loop's invariant. */
  lemma SheetAdvance(before: seq<Row>, e: Option<(nat, Row)>, rest: seq<(nat, Row)>, zero: bool, after: seq<Row>)
    requires after == if e.Some? && (e.value.1.initId == 0) == zero then before + [e.value.1] else before
    ensures before + Sheet((if e.Some? then [e.value] else []) + rest, zero) == after + Sheet(rest, zero)
  {
    if e.Some? {
      var head := Sheet([e.value], zero);
      SheetAppend([e.value], rest, zero);
      SheetOne(e.value, zero);
      AppendAssoc(before, head, Sheet(rest, zero));
      assert after == before + head;
    } else {
      assert [] + rest == rest;
    }
  }

  /** The sheets of two row lists joined are the two sheets joined. */
  lemma {:induction false} SheetAppend(a: seq<(nat, Row)>, b: seq<(nat, Row)>, zero: bool)
    ensures Sheet(a + b, zero) == Sheet(a, zero) + Sheet(b, zero)
    decreases |a|
  {
    if a != [] {
      var head := if (a[0].1.initId == 0) == zero then [a[0].1] else [];
      assert (a + b)[0] == a[0];
      assert (a + b)[1..] == a[1..] + b;
      SheetAppend(a[1..], b, zero);
      AppendAssoc(head, Sheet(a[1..], zero), Sheet(b, zero));
    } else {
      assert a + b == b;
    }
  }

  /** Every row goes to exactly one of the two sheets. */
  lemma {:induction false} SheetPartition(es: seq<(nat, Row)>)
    ensures |Sheet(es, true)| + |Sheet(es, false)| == |es|
    decreases |es|
  {
    if es != [] {
      SheetPartition(es[1..]);
    }
  }

  /** A line consumed as the detect operations of the Init line before it. */
  predicate Consumed(ts: seq<Token>, i: nat, q: nat)
    requires i <= |ts|
  {
    1 <= q && q - 1 in Visits(ts, i) && Next(ts, q - 1) == q + 1
  }

  /**
   * From `i` on, the scan classifies exactly the lines that are not consumed
   * as detect operations: a consumed line is never classified itself.
   */
  lemma {:induction false} VisitsExactly(ts: seq<Token>, i: nat, q: nat)
    requires i <= q < |ts|
    ensures q in Visits(ts, i) <==> !Consumed(ts, i, q)
    decreases |ts| - i
  {
    var j := Next(ts, i);
    var ps := Visits(ts, i);
    assert ps == [i] + Visits(ts, j);
    if q == i {
      assert q in ps;
      assert q - 1 !in ps;
    } else if j <= q {
      VisitsExactly(ts, j, q);
      if q - 1 == i {
        assert Next(ts, q - 1) == j;
      } else {
        assert q - 1 in ps <==> q - 1 in Visits(ts, j);
      }
    } else {
      assert q == i + 1 && j == i + 2;
      assert q !in ps;
      assert Consumed(ts, i, q);
    }
  }

  /** The scan moves strictly forward. */
  lemma {:induction false} VisitsIncreasing(ts: seq<Token>, i: nat)
    requires i <= |ts|
    ensures forall a, b :: 0 <= a < b < |Visits(ts, i)| ==> Visits(ts, i)[a] < Visits(ts, i)[b]
    decreases |ts| - i
  {
    if i < |ts| {
      var j := Next(ts, i);
      VisitsIncreasing(ts, j);
      var ps := Visits(ts, i);
      assert ps == [i] + Visits(ts, j);
      forall a, b | 0 <= a < b < |ps| ensures ps[a] < ps[b] {
        if a == 0 {
          assert ps[b] == Visits(ts, j)[b - 1];
        } else {
          assert ps[a] == Visits(ts, j)[a - 1] && ps[b] == Visits(ts, j)[b - 1];
        }
      }
    }
  }

  /** The context after classifying the positions `ps` in turn, starting from `ctx`. */
  function After(ts: seq<Token>, ps: seq<nat>, ctx: Context): Context
    requires forall k :: 0 <= k < |ps| ==> ps[k] < |ts|
    decreases |ps|
  {
    if ps == [] then ctx else After(ts, ps[1..], Update(ctx, ts[ps[0]].kind))
  }

  /** The name of the latest Fault header among the positions `ps`. */
  function LatestFault(ts: seq<Token>, ps: seq<nat>): Option<string>
    requires forall k :: 0 <= k < |ps| ==> ps[k] < |ts|
    decreases |ps|
  {
    if ps == [] then None
    else match ts[ps[|ps| - 1]].kind
      case FaultHeader(name) => Some(name)
      case _ => LatestFault(ts, ps[..|ps| - 1])
  }

  /** The number and tag of the latest Subcase header among the positions `ps`. */
  function LatestSubcase(ts: seq<Token>, ps: seq<nat>): Option<(nat, string)>
    requires forall k :: 0 <= k < |ps| ==> ps[k] < |ts|
    decreases |ps|
  {
    if ps == [] then None
    else match ts[ps[|ps| - 1]].kind
      case SubcaseHeader(index, tag) => Some((index, tag))
      case _ => LatestSubcase(ts, ps[..|ps| - 1])
  }

  lemma {:induction false} AfterSnoc(ts: seq<Token>, ps: seq<nat>, p: nat, ctx: Context)
    requires forall k :: 0 <= k < |ps| ==> ps[k] < |ts|
    requires p < |ts|
    ensures After(ts, ps + [p], ctx) == Update(After(ts, ps, ctx), ts[p].kind)
    decreases |ps|
  {
    if ps == [] {
      assert After(ts, [p], ctx) == After(ts, [], Update(ctx, ts[p].kind));
    } else {
      assert (ps + [p])[1..] == ps[1..] + [p];
      AfterSnoc(ts, ps[1..], p, Update(ctx, ts[ps[0]].kind));
    }
  }

  /**
   * The context is sticky: after classifying `ps`, each field holds what the
   * latest header of its kind set, or what it held before when there was none.
   */
  lemma {:induction false} AfterIsLatest(ts: seq<Token>, ps: seq<nat>, ctx: Context)
    requires forall k :: 0 <= k < |ps| ==> ps[k] < |ts|
    ensures var f := LatestFault(ts, ps);
            After(ts, ps, ctx).faultName == if f.Some? then f else ctx.faultName
    ensures var s := LatestSubcase(ts, ps);
            After(ts, ps, ctx).subcaseIndex == (if s.Some? then Some(s.value.0) else ctx.subcaseIndex)
            && After(ts, ps, ctx).tag == (if s.Some? then Some(s.value.1) else ctx.tag)
    decreases |ps|
  {
    if ps != [] {
      var init, last := ps[..|ps| - 1], ps[|ps| - 1];
      assert ps == init + [last];
      AfterSnoc(ts, init, last, ctx);
      AfterIsLatest(ts, init, ctx);
    }
  }

  /** `e` is the row that the Init line at `ps[k]` emits, under the context the positions before it leave. */
  predicate RowOf(ts: seq<Token>, ps: seq<nat>, ctx: Context, k: nat, e: (nat, Row))
    requires forall m :: 0 <= m < |ps| ==> ps[m] < |ts|
    requires k < |ps|
  {
    var kind := ts[ps[k]].kind;
    e.0 == ps[k] && kind.InitHeader?
    && e.1 == MakeRow(After(ts, ps[..k], ctx), kind.initId, kind.syndrome, kind.hexSyndrome, ts[ps[k]].payload)
  }

  /** Every emitted row comes from one classified Init line, with the context in force there. */
  lemma {:induction false} EmittedRows(ts: seq<Token>, ps: seq<nat>, ctx: Context, j: nat)
    requires forall m :: 0 <= m < |ps| ==> ps[m] < |ts|
    requires j < |Emitted(ts, ps, ctx)|
    ensures exists k :: 0 <= k < |ps| && RowOf(ts, ps, ctx, k, Emitted(ts, ps, ctx)[j])
    decreases |ps|
  {
    var first := EmitAt(ts, ps[0], ctx);
    var next := Update(ctx, ts[ps[0]].kind);
    var rest := Emitted(ts, ps[1..], next);
    assert Emitted(ts, ps, ctx) == first + rest;
    if j < |first| {
      assert ps[..0] == [];
      assert RowOf(ts, ps, ctx, 0, Emitted(ts, ps, ctx)[j]);
    } else {
      EmittedRows(ts, ps[1..], next, j - |first|);
      var k :| 0 <= k < |ps| - 1 && RowOf(ts, ps[1..], next, k, rest[j - |first|]);
      RowOfShift(ts, ps, ctx, k, rest[j - |first|]);
      assert Emitted(ts, ps, ctx)[j] == rest[j - |first|];
      assert RowOf(ts, ps, ctx, k + 1, Emitted(ts, ps, ctx)[j]);
    }
  }

  /** A row of the positions after the first is a row of all of them, one place on. */
  lemma RowOfShift(ts: seq<Token>, ps: seq<nat>, ctx: Context, k: nat, e: (nat, Row))
    requires forall m :: 0 <= m < |ps| ==> ps[m] < |ts|
    requires k + 1 < |ps| && RowOf(ts, ps[1..], Update(ctx, ts[ps[0]].kind), k, e)
    ensures RowOf(ts, ps, ctx, k + 1, e)
  {
    var prefix := ps[..k + 1];
    assert prefix[0] == ps[0] && prefix[1..] == ps[1..][..k];
    assert After(ts, prefix, ctx) == After(ts, ps[1..][..k], Update(ctx, ts[ps[0]].kind));
  }

  /** When the positions increase, so do the positions of the rows they emit. */
  lemma {:induction false} EmittedOrdered(ts: seq<Token>, ps: seq<nat>, ctx: Context)
    requires forall m :: 0 <= m < |ps| ==> ps[m] < |ts|
    requires forall a, b :: 0 <= a < b < |ps| ==> ps[a] < ps[b]
    ensures forall a, b :: 0 <= a < b < |Emitted(ts, ps, ctx)| ==>
              Emitted(ts, ps, ctx)[a].0 < Emitted(ts, ps, ctx)[b].0
    decreases |ps|
  {
    if ps != [] {
      var first := EmitAt(ts, ps[0], ctx);
      var next := Update(ctx, ts[ps[0]].kind);
      var rest := Emitted(ts, ps[1..], next);
      var es := Emitted(ts, ps, ctx);
      assert es == first + rest;
      EmittedOrdered(ts, ps[1..], next);
      EmittedAbove(ts, ps[1..], next, ps[0]);
      forall a, b | 0 <= a < b < |es| ensures es[a].0 < es[b].0 {
        if a < |first| {
          assert es[a].0 == ps[0] && es[b] == rest[b - |first|];
        } else {
          assert es[a] == rest[a - |first|] && es[b] == rest[b - |first|];
        }
      }
    }
  }

  /** Positions all above `x` emit rows whose positions are all above `x`. */
  lemma {:induction false} EmittedAbove(ts: seq<Token>, ps: seq<nat>, ctx: Context, x: nat)
    requires forall m :: 0 <= m < |ps| ==> x < ps[m] < |ts|
    ensures forall j :: 0 <= j < |Emitted(ts, ps, ctx)| ==> x < Emitted(ts, ps, ctx)[j].0
    decreases |ps|
  {
    if ps != [] {
      var next := Update(ctx, ts[ps[0]].kind);
      EmittedAbove(ts, ps[1..], next, x);
    }
  }

  /**
   * The row `row` that the Init line at `p` emits, where `before` are the
   * positions classified before it: it carries the latest fault name, subcase
   * number and tag among them (None when there was none) and the fields of the
   * Init line and of the detect operations after it.
   */
  predicate Describes(ts: seq<Token>, before: seq<nat>, p: nat, row: Row)
    requires forall m :: 0 <= m < |before| ==> before[m] < |ts|
    requires p < |ts|
  {
    var kind := ts[p].kind;
    var sub := LatestSubcase(ts, before);
    kind.InitHeader?
    && row == MakeRow(Context(LatestFault(ts, before),
                              if sub.Some? then Some(sub.value.0) else None,
                              if sub.Some? then Some(sub.value.1) else None),
                      kind.initId, kind.syndrome, kind.hexSyndrome, ts[p].payload)
  }

  /** The row `e` is emitted by a classified Init line and described by the positions classified before it. */
  predicate Explained(ts: seq<Token>, ps: seq<nat>, e: (nat, Row))
    requires forall m :: 0 <= m < |ps| ==> ps[m] < |ts|
  {
    exists k :: 0 <= k < |ps| && ps[k] == e.0 && Describes(ts, ps[..k], e.0, e.1)
  }

  /**
   * What a scan produces: the rows appear in the order of their Init lines,
   * and each is described by the lines the scan classified before it.
   */
  lemma ScanRowsMeaning(ts: seq<Token>)
    ensures forall a, b :: 0 <= a < b < |ScanRows(ts)| ==> ScanRows(ts)[a].0 < ScanRows(ts)[b].0
    ensures forall j :: 0 <= j < |ScanRows(ts)| ==> Explained(ts, Visits(ts, 0), ScanRows(ts)[j])
  {
    var ps := Visits(ts, 0);
    var rs := ScanRows(ts);
    assert rs == Emitted(ts, ps, EMPTY_CONTEXT);
    VisitsIncreasing(ts, 0);
    EmittedOrdered(ts, ps, EMPTY_CONTEXT);
    forall j | 0 <= j < |rs|
      ensures Explained(ts, ps, rs[j])
    {
      EmittedRows(ts, ps, EMPTY_CONTEXT, j);
      var k :| 0 <= k < |ps| && RowOf(ts, ps, EMPTY_CONTEXT, k, rs[j]);
      AfterIsLatest(ts, ps[..k], EMPTY_CONTEXT);
      assert Describes(ts, ps[..k], rs[j].0, rs[j].1);
    }
  }

  /** How many of the positions `ps` hold an Init line. */
  function InitCount(ts: seq<Token>, ps: seq<nat>): nat
    requires forall m :: 0 <= m < |ps| ==> ps[m] < |ts|
    decreases |ps|
  {
    if ps == [] then 0 else (if ts[ps[0]].kind.InitHeader? then 1 else 0) + InitCount(ts, ps[1..])
  }

  /** Every classified Init line emits one row and no other line emits any. */
  lemma {:induction false} EmittedCount(ts: seq<Token>, ps: seq<nat>, ctx: Context)
    requires forall m :: 0 <= m < |ps| ==> ps[m] < |ts|
    ensures |Emitted(ts, ps, ctx)| == InitCount(ts, ps)
    decreases |ps|
  {
    if ps != [] {
      EmittedCount(ts, ps[1..], Update(ctx, ts[ps[0]].kind));
    }
  }

  /** The Init line at `ps[k]` emits the row after those of the Init lines before it. */
  lemma {:induction false} EmittedAt(ts: seq<Token>, ps: seq<nat>, ctx: Context, k: nat)
    requires forall m :: 0 <= m < |ps| ==> ps[m] < |ts|
    requires k < |ps| && ts[ps[k]].kind.InitHeader?
    ensures InitCount(ts, ps[..k]) < |Emitted(ts, ps, ctx)|
    ensures Emitted(ts, ps, ctx)[InitCount(ts, ps[..k])].0 == ps[k]
    decreases |ps|
  {
    var first := EmitAt(ts, ps[0], ctx);
    var next := Update(ctx, ts[ps[0]].kind);
    var rest := Emitted(ts, ps[1..], next);
    assert Emitted(ts, ps, ctx) == first + rest;
    if k == 0 {
      assert ps[..0] == [];
    } else {
      EmittedAt(ts, ps[1..], next, k - 1);
      InitCountShift(ts, ps, k);
      assert |first| == if ts[ps[0]].kind.InitHeader? then 1 else 0;
    }
  }

  /** Counting the Init lines among the first `k` positions, the first one apart. */
  lemma InitCountShift(ts: seq<Token>, ps: seq<nat>, k: nat)
    requires forall m :: 0 <= m < |ps| ==> ps[m] < |ts|
    requires 0 < k <= |ps|
    ensures InitCount(ts, ps[..k]) == (if ts[ps[0]].kind.InitHeader? then 1 else 0) + InitCount(ts, ps[1..][..k - 1])
  {
    var prefix := ps[..k];
    assert prefix[0] == ps[0] && prefix[1..] == ps[1..][..k - 1];
  }

  /**
   * A scan appends exactly one row per classified Init line: there are as
   * many rows as such lines, and the Init line at the `k`-th classified
   * position owns the row numbered by the Init lines before it, and no other.
   */
  lemma ScanRowsComplete(ts: seq<Token>)
    ensures |ScanRows(ts)| == InitCount(ts, Visits(ts, 0))
    ensures forall k :: 0 <= k < |Visits(ts, 0)| && ts[Visits(ts, 0)[k]].kind.InitHeader? ==>
              var j := InitCount(ts, Visits(ts, 0)[..k]);
              && j < |ScanRows(ts)| && ScanRows(ts)[j].0 == Visits(ts, 0)[k]
              && forall i :: 0 <= i < |ScanRows(ts)| && ScanRows(ts)[i].0 == Visits(ts, 0)[k] ==> i == j
  {
    var ps := Visits(ts, 0);
    var rs := ScanRows(ts);
    EmittedCount(ts, ps, EMPTY_CONTEXT);
    ScanRowsMeaning(ts);
    forall k | 0 <= k < |ps| && ts[ps[k]].kind.InitHeader?
      ensures InitCount(ts, ps[..k]) < |rs| && rs[InitCount(ts, ps[..k])].0 == ps[k]
    {
      EmittedAt(ts, ps, EMPTY_CONTEXT, k);
    }
  }

  /**
   * On a line without a line break the Fault pattern matches exactly when
   * `Fault` occurs after the first character, and the name is the whole line
   * stripped.
   */
  lemma MatchFaultNoBreak(line: string)
    requires forall m :: 0 <= m < |line| ==> line[m] != '\n'
    ensures MatchFault(line).Some? <==> exists q :: 1 <= q && OccursAt(line, "Fault", q)
    ensures MatchFault(line).Some? ==> MatchFault(line).value == Strip(IsPySpace, line)
  {
    var start := AfterLastNewline(line);
    assert start == 0;
    if q :| 1 <= q && OccursAt(line, "Fault", q) {
      assert FindSub(line, "Fault", 1).Some?;
    }
  }
}
