# Fault-ATPG in Dafny

A model of the core of Fault-ATPG, a set of tools for automatic test-pattern
generation for memory faults. A memory fault is described by fault
primitives: conditions on a victim cell and, for a coupling fault, an
aggressor cell. Each condition names the operations that trigger the fault,
the value the faulty cell takes, and the value a read then returns. A March
test is a list of March elements. Each element applies its read and write
operations to every address, in ascending or descending order.

The model covers:

- **Report scanner** (`python/txt2excel.py`). One pass over the lines of a
  simulation report. It keeps the latest fault name, subcase number and
  S/F/R tag. Every `Init 0`/`Init 1` line becomes one row of the matching
  result sheet, and the line after it is read as the detect operations
  unless it starts a new block. Modules `ReportScanner` and
  `ReportScenarios`.
- **Fault-condition and March-string readers** (`main.cpp`, `parser.cpp`,
  `fault_parser.cpp`). The shared splitting and trimming are in module
  `FaultText`. The readers are `MainParser`, `Parser` and
  `FaultPrimitiveParser`. The `std::getline`, `find`, `std::stoi` and
  Python `strip` primitives they rely on are in `StdText`.
- **Older fault simulator** (`faultSimulator.cpp`). A cell with a bounded
  history that fires its fault on a trigger value, or on a trigger value
  followed by an operation sequence. A memory of `side * side` such cells.
  A subcase run of a March test that records, per read, the addresses whose
  value differed from the expected one. Module `LegacyFaultSimulator`, over
  the types of `LegacyTypes`.
- **Newer fault simulator** (`newFaultSimulator.cpp`/`.hpp`). Value and
  sliding-window sequence matchers, cells that own a matcher, aggressor and
  victim placement, and a March walk over the cells in address order.
  Modules `NewFaultTypes` and `NewFaultSimulator`.
- **March generation** (`MarchGenerator.cpp`). A backtracking search for the
  first sequence of single-operation elements, in the order w0, w1, r0, r1,
  whose consecutive operations are valid transitions and that passes a
  test. The simulator behind the test is a parameter. Module
  `MarchGenerator`.
- **Executor and collector of the new architecture**
  (`src/SequenceExecutor.cpp`, `src/ResultCollector.cpp`). The executor
  walks addresses in the element's order against an abstract fault model
  and reports reads whose value differs from the expected one. The
  collector records which read operations detected a fault, and at which
  victim addresses. Modules `SequenceExecutor` and `ResultCollector`.
- **Combination enumerator** (`Test.cpp`). An in-place base-4 odometer
  over the digits 1..4. Module `Odometer`.

Each part is stated first on values: datatypes, functions, and lemmas about
them. Where the source changes state in place, the model has a class with
the source's fields, and its methods are proved to compute those functions.
Examples are the cells and memories of both simulators, the matcher, the
generator's push/pop vector, the parser's id list, the collector and the
odometer's array.

Where the prose description of the report format and the script disagree,
the model follows the script:

- A Fault header needs at least one character before `Fault`, so `Fault A`
  at column 0 is not a header (`ReportScenarios.FaultAtColumnZero`).
- A line after an Init line that starts with a reserved word such as `Write`
  is never consumed as the detect operations. It is classified on its own
  (`ReportScenarios.WriteLineNotConsumed`,
  `ReportScenarios.WriteLineLeavesDetectOpsEmpty`).
- `parser.cpp` parses the pattern of the first entry that carries the chosen
  name, which need not be the chosen entry (`Parser.FirstNamedChoice`).
- In `fault_parser.cpp`, the fault name is the text after the last line
  terminator before the first `<`. This is because `.` in `std::regex` does
  not match `\n` or `\r`.

## Model

| member | source | states |
|---|---|---|
| ReportScanner.AfterLastNewline | python/txt2excel.py:15 | the Fault pattern's `.` stops at a newline: the start it finds has no newline after it and a newline just before it |
| ReportScanner.MatchFaultNoBreak | python/txt2excel.py:15 | on a line without a break, the Fault pattern matches iff `Fault` occurs after the first character, and the name is the whole line stripped |
| ReportScanner.MatchSubcase | python/txt2excel.py:16 | a Subcase match implies the line starts with `Subcase` |
| ReportScanner.MatchInit | python/txt2excel.py:17-19 | an Init match starts with `Init`, has id 0 or 1, a syndrome of one or more bits or `No detection`, and a hex group that is empty or starts with `0x` |
| ReportScanner.HexGroup | python/txt2excel.py:18 | the optional hex group is empty or `0x` followed by at least one digit |
| ReportScanner.StartsWithAny | python/txt2excel.py:61-63 | true iff the line starts with one of the reserved prefixes |
| ReportScanner.MakeRow | python/txt2excel.py:67-74 | a row carries the current context, the Init id and the hex group; `No detection` gives an empty syndrome and `No detection` as detect ops, otherwise the syndrome and the payload (empty when none) |
| ReportScanner.Tokens | python/txt2excel.py:31-65 | one token per line: its classification (Fault, then Subcase, then Init) and the payload it would supply to an Init line before it |
| ReportScanner.LastLineNoPayload | python/txt2excel.py:57 | the last line supplies no detect operations: there is no line after it |
| ReportScanner.Next | python/txt2excel.py:57-82 | the scan advances by one line, or by two when an Init line consumes the next line, and never goes past the end |
| ReportScanner.Visits | python/txt2excel.py:29-30 | the classified positions start at `i`, stay in range, and are empty exactly at the end |
| ReportScanner.LookAhead | python/txt2excel.py:56-65 | the next line is consumed iff it exists, is non-blank after `lstrip` and starts with no reserved prefix; then it is the detect ops, else they are "" |
| ReportScanner.ScanLine | python/txt2excel.py:31-82 | one loop iteration: moves to `Next`, updates the context as the line's header says, and emits exactly the row the spec emits at that line |
| ReportScanner.Scan | python/txt2excel.py:23-82 | `rows_0` is exactly the Init 0 rows and `rows_1` all the other rows of the report, in order |
| ReportScanner.EmittedStep | python/txt2excel.py:29-82 | the rows from a position on are those of that position followed by those from the next position, under the updated context |
| ReportScanner.SheetOne | python/txt2excel.py:77-80 | a row goes to the Init 0 sheet iff its id is 0 |
| ReportScanner.SheetAdvance | python/txt2excel.py:77-80 | appending a step's row to its sheet keeps the loop invariant |
| ReportScanner.SheetAppend | python/txt2excel.py:77-80 | the sheet of two joined row lists is the two sheets joined: order is preserved |
| ReportScanner.SheetPartition | python/txt2excel.py:77-80 | every row goes to exactly one of the two sheets |
| ReportScanner.VisitsExactly | python/txt2excel.py:57-82 | a line is classified iff it is not consumed as the detect ops of the Init line before it |
| ReportScanner.VisitsIncreasing | python/txt2excel.py:29-82 | the scan moves strictly forward |
| ReportScanner.AfterSnoc | python/txt2excel.py:34-46 | classifying one more position updates the context by that line alone |
| ReportScanner.AfterIsLatest | python/txt2excel.py:24-46 | sticky context: each field holds what the latest header of its kind set, or its earlier value (None at the start) when there was none |
| ReportScanner.EmittedRows | python/txt2excel.py:67-80 | every emitted row comes from one classified Init line, under the context in force there |
| ReportScanner.EmittedOrdered | python/txt2excel.py:77-80 | rows come out in the order of their Init lines |
| ReportScanner.EmittedAbove | python/txt2excel.py:77-80 | positions above `x` emit only rows positioned above `x` |
| ReportScanner.EmittedCount | python/txt2excel.py:51-80 | the positions emit exactly as many rows as they hold Init lines |
| ReportScanner.EmittedAt | python/txt2excel.py:51-80 | the Init line at the k-th position emits the row numbered by the Init lines before it |
| ReportScanner.ScanRowsComplete | python/txt2excel.py:51-80 | every Init match appends exactly one row: as many rows as classified Init lines, and each such line owns one row and no other |
| ReportScanner.ScanRowsMeaning | python/txt2excel.py:23-82 | the rows appear in Init-line order, and each carries the latest fault, subcase and tag seen before its line and its own Init fields and detect ops |
| ReportScenarios.FaultAtColumnZero | python/txt2excel.py:15 | `Fault A` at column 0 is not a Fault header |
| ReportScenarios.FaultAfterSpace | python/txt2excel.py:15 | ` Fault A` is a Fault header named `Fault A` |
| ReportScenarios.HexOfInitLine | python/txt2excel.py:18 | the hex group of `Init 0: 1010 (0x5)` is `0x5` |
| ReportScenarios.InitWithHex | python/txt2excel.py:17-19 | `Init 0: 1010 (0x5)` gives id 0, syndrome `1010`, hex `0x5` |
| ReportScenarios.WriteLineNotConsumed | python/txt2excel.py:60-63 | a `Write back error` line after an Init line supplies no detect operations |
| ReportScenarios.NoFaultWithoutF | python/txt2excel.py:15 | a line without `F` and without a break is never a Fault header |
| ReportScenarios.NotSubcase | python/txt2excel.py:16 | a line not starting with `S` is never a Subcase header |
| ReportScenarios.NotInit | python/txt2excel.py:17 | a line not starting with `I` is never an Init line |
| ReportScenarios.ClassifyInit | python/txt2excel.py:34-49 | the Init line above is classified as Init |
| ReportScenarios.ClassifyWrite | python/txt2excel.py:34-49 | `Write back error` matches none of the three patterns |
| ReportScenarios.ScenarioTokens | python/txt2excel.py:31-65 | the two-line report is an Init token without payload followed by an unrecognised line |
| ReportScenarios.WriteLineLeavesDetectOpsEmpty | python/txt2excel.py:56-80 | that report gives exactly one Init 0 row with no context, syndrome `1010`, hex `0x5` and empty detect ops |
| StdText.Split | main.cpp:27 | the fields `std::getline` yields: none contains the delimiter, and there are none exactly for empty text |
| StdText.Getline | main.cpp:27 | one `getline` call yields the first field and leaves text that splits into the remaining fields |
| StdText.SplitJoin | main.cpp:27-31 | splitting loses only a trailing delimiter: joining the fields gives the text back |
| StdText.CharAt | main.cpp:43 | `s[i]` is defined exactly for `i <= size()`, reading NUL at `size()` |
| StdText.Stoi | parser.cpp:157 | `std::stoi` yields a 32-bit value, and throws `invalid_argument` iff no digit follows the blanks and optional sign |
| FaultText.TrimField | main.cpp:28-29 | a trimmed field is no longer, keeps only characters of the field, and neither starts nor ends with a blank or brace |
| FaultText.ConditionFieldsMeaning | main.cpp:27-31 | one field per ','-separated piece; no field holds ',' or starts or ends with a blank or brace |
| FaultText.SplitCondition | main.cpp:27-31 | the `getline` loop collects exactly the trimmed fields, in order |
| FaultText.TrimFieldKeeps | main.cpp:28-29 | a field needing no trim is left as it is |
| FaultText.SplitJoinFields | main.cpp:27 | fields without the delimiter and with a non-empty last field split back from their join |
| FaultText.ConditionFieldsOfJoin | main.cpp:27-31 | condition fields with no ',' and no trimmed ends read back from their ','-join |
| FaultText.ElementBody | main.cpp:92-94 | an element without '(' is skipped; otherwise the body is shorter than the element |
| FaultText.ElementBodyBetween | main.cpp:92-94 | with the first ')' after the first '(', the body is exactly the text between them |
| FaultText.DecodeOp | main.cpp:97-102 | a token decodes iff it is non-empty; the second character of an empty token is undefined |
| FaultText.DecodeOpMeaning | main.cpp:99-101 | a two-character token reads iff its first character is the read letter, and its value is its digit |
| FaultText.RawOps | main.cpp:97-103 | decoded tokens keep their number and order |
| FaultText.ParseOps | main.cpp:95-103 | the token loop decodes exactly the ','-split tokens |
| FaultText.RawMarchCons | main.cpp:88-105 | an element without '(' is skipped; otherwise its operations come first, with 'd' meaning downwards |
| FaultText.SplitMarch | main.cpp:86-106 | the element loop gives exactly the decoded ';'-split elements, in order |
| FaultText.OpTokens | main.cpp:97-103 | written operations are one letter and one digit each |
| FaultText.RawOpsOfTokens | main.cpp:97-103 | decoding written operation tokens gives the operations back |
| FaultText.ElementTextBack | main.cpp:90-94 | a written element's body and direction read back |
| FaultText.RawMarchOfTexts | main.cpp:88-105 | decoding written elements gives the elements back |
| FaultText.MarchTextRoundTrip | main.cpp:84-107 | a March test written with 'a'/'d' and letter-digit tokens parses back to itself |
| MainParser.OpsOf | main.cpp:43-44 | operations decoded one for one, in order |
| MainParser.ParseSeqField | main.cpp:39-46 | the sequence-field loop computes `SeqField` |
| MainParser.ParseSubcase | main.cpp:32-75 | the subcase assignments, reading the fields in the source's order, compute `Subcase` of the fields, so a bad number in a present field ends it before a missing field does |
| MainParser.ParseConditions | main.cpp:22-77 | the loop over conditions gives the subcases in order, stopping at the first failure |
| MainParser.SubcasesStep | main.cpp:22-77 | one condition of the loop: its failure aborts, else its subcase comes first |
| MainParser.ParseFaultFile | main.cpp:18-80 | the fault list in document order, the first failure aborting it |
| MainParser.ParseMarchString | main.cpp:84-107 | the loop computes `MarchOf` of the string |
| MainParser.MarchRoundTrip | main.cpp:84-107 | a written March string parses to its elements: 'd' elements have `addr_order` 1, reads are 'r' tokens, values are digits |
| MainParser.SeqFieldMeaning | main.cpp:39-54 | "-" is no operation; otherwise at most one operation, a read iff it starts with 'R', valued its second character minus '0' |
| MainParser.SubcaseKind | main.cpp:33-74 | COUPLING iff 8 fields and fields[0] is not "-"; a SINGLE subcase has A = AI = -1, no seqA, VI = stoi(fields[0]); fewer than 5 fields never parse: no field at all is undefined behaviour, a `stoi` failure on field 0 (or on field 3 once 0-2 read) comes first, and four readable fields end at the missing fifth; 8 fields with "-" first throw |
| MainParser.ShortConditionThrows | main.cpp:60-73 | the single-cell conditions "x" and "1,-,R0,x" throw `invalid_argument` from `stoi` before any missing field is read |
| MainParser.StoiDigit | main.cpp:57 | `stoi` of one digit is that digit |
| MainParser.SeqFieldOfText | main.cpp:39-46 | a written sequence field reads back |
| MainParser.CouplingOfFields | main.cpp:34-58 | the fields written from a coupling subcase read back to it |
| MainParser.SingleOfFields | main.cpp:59-74 | the fields written from a single-cell subcase read back to it |
| MainParser.SubcaseRoundTrip | main.cpp:24-75 | the condition string joining a subcase's fields parses back to that subcase |
| Parser.TriggerOps | parser.cpp:155-161 | a parsed trigger list has one operation per token |
| Parser.TriggerOpsMeaning | parser.cpp:155-161 | the list parses iff every token is non-empty and its rest is a number; each op reads iff its token starts with 'R', and its value is that number |
| Parser.CreateFaultsKind | parser.cpp:146-210 | 5 fields make a one-cell fault, 8 a two-cell fault, and any other count throws |
| Parser.CreateFaultsFinalRead | parser.cpp:165-167 | the final read value is set iff the last field is not "-", and is that field's number |
| Parser.CreateFaultsTrigger | parser.cpp:176-201 | a non-"-" VS field sets an Svv trigger, overriding AS; else a non-"-" AS field sets Saa; both "-" set none; the order flag is stoi(fields[0]) != 0 |
| Parser.CreateFaultsOneCell | parser.cpp:147-164 | a one-cell fault takes its victim index, sequence ("-" empty) and fault value from fields 0, 1 and 3 |
| Parser.IdsOf | parser.cpp:21-34 | a fault's ids are its name with indices 0, 1, 2, ... |
| Parser.Configs | parser.cpp:22-33 | one configuration per condition |
| Parser.AllIdsNames | parser.cpp:19-35 | no id carries a name that no entry has |
| Parser.AllIdsDistinct | parser.cpp:19-35 | with distinct fault names, every id is distinct, so no subcase overwrites another |
| Parser.StoreStep | parser.cpp:32-34 | storing one configuration: an exception aborts, else the id maps to it |
| Parser.StoreKeys | parser.cpp:33 | storing adds exactly the given ids as keys |
| Parser.StoreKeep | parser.cpp:33 | an entry no stored id names keeps its value |
| Parser.StoreValue | parser.cpp:33 | an id not repeated later maps to its own configuration |
| Parser.EntriesStep | parser.cpp:19-36 | one fault of the loop: its conditions' map, then the rest |
| Parser.BuildCondsKeys | parser.cpp:21-35 | a fault's conditions become keys (name, 0), (name, 1), ... |
| Parser.BuildCondsValue | parser.cpp:32-33 | the j-th condition is stored under (name, j) as `createFaults` configures it |
| Parser.Parser.constructor | parser.hpp:11-16 | a new parser has no fault ids and no March name (the argv handling is not modelled) |
| Parser.Parser.ParseFaultFile | parser.cpp:18-37 | returns the map of all faults; `faultIDs` grows by the document's ids in file order, and only by a prefix of them on an exception |
| Parser.Parser.StoreCondition | parser.cpp:24-33 | a condition whose `createFaults` throws ends the fault map with that exception; otherwise its configuration is stored under `(name, k)` and the remaining conditions follow |
| Parser.Parser.AddSubcases | parser.cpp:21-35 | one fault's loop: the map of its conditions, and ids (name, 0), (name, 1), ... pushed in order |
| Parser.Parser.ParseMarchString | parser.cpp:47-97 | a choice outside 1..count throws; otherwise `marchTestName` is the chosen name and the first pattern with that name is parsed |
| Parser.AllIdsStep | parser.cpp:19-35 | the ids from a fault on are its ids followed by the rest |
| Parser.AllIdsPrefix | parser.cpp:19-35 | the ids pushed before an exception are a prefix of the document's ids |
| Parser.FirstNamed | parser.cpp:66-72 | the index of the first pattern with the name, none before it having it |
| Parser.FirstNamedIs | parser.cpp:66-72 | the first index with the name is what `FirstNamed` finds |
| Parser.FirstNamedChoice | parser.cpp:62-72 | the pattern found is at or before the chosen one and has its name |
| Parser.ElementsOf | parser.cpp:80-96 | elements converted one for one, in order |
| Parser.PatternRoundTrip | parser.cpp:75-97 | a written pattern parses to its elements, only 'd' elements not ascending, with their op types and values |
| FaultPrimitiveParser.LineStart | fault_parser.cpp:58 | the name group cannot cross a line terminator: it starts just after the last terminator before `j` |
| FaultPrimitiveParser.RunStart | fault_parser.cpp:58 | the `\s*` before '<' is the maximal whitespace run ending there |
| FaultPrimitiveParser.LineEnd | fault_parser.cpp:58 | a greedy `.*` stops at the first line terminator |
| FaultPrimitiveParser.MultiCell | fault_parser.cpp:76 | a multi-cell match has a non-empty aggressor without ';' and a non-empty victim without '/' |
| FaultPrimitiveParser.SingleCell | fault_parser.cpp:75 | a single-cell match has aggressor "-" and a non-empty victim without '/' |
| FaultPrimitiveParser.NextChunkShorter | fault_parser.cpp:84-86 | every cut strictly shortens the remaining text, so the loop ends |
| FaultPrimitiveParser.FPsStep | fault_parser.cpp:84-97 | one cut: the piece's primitive, multi-cell tried first and dropped when neither form matches, then those of the rest |
| FaultPrimitiveParser.FaultParser.constructor | fault_parser.cpp:27 | a new parser holds no faults |
| FaultPrimitiveParser.FaultParser.ParseFP | fault_parser.cpp:30-53 | a file that cannot be opened returns false and changes nothing; otherwise true, and the faults are those its lines leave in order |
| FaultPrimitiveParser.FaultParser.TransformFP | fault_parser.cpp:72-100 | the loop returns exactly the primitives `FPsOf` reads from the text |
| FaultPrimitiveParser.GetFaultnameFPMeaning | fault_parser.cpp:56-69 | without '<' the result is ("", ""); otherwise the name has no '<', no terminator and no trailing blank, and the primitives text starts with '<' and has no terminator |
| FaultPrimitiveParser.GetFaultnameFPIs | fault_parser.cpp:58-64 | the name and primitives are the slices the scan positions give |
| FaultPrimitiveParser.GetFaultnameFPRoundTrip | fault_parser.cpp:56-64 | a line written as name, blanks, '<', blanks and a body reads back as that name and '<' with the body |
| FaultPrimitiveParser.FPsBound | fault_parser.cpp:84-97 | there are never more primitives than '>' characters |
| FaultPrimitiveParser.FPsShape | fault_parser.cpp:87-93 | every primitive has a non-empty victim without '/', and an aggressor that is "-" or non-empty without ';' |
| FaultPrimitiveParser.RenderChunk | fault_parser.cpp:87-93 | a written primitive reads back as itself |
| FaultPrimitiveParser.RenderSingle | fault_parser.cpp:91-93 | `<Sv/0/->` reads as ("-", Sv) |
| FaultPrimitiveParser.RenderMulti | fault_parser.cpp:87-90 | `<Sa; Sv/0/->` reads as (Sa, Sv) |
| FaultPrimitiveParser.NextChunkIs | fault_parser.cpp:74 | the cut is through the first '>' and the rest starts after the blanks that follow it |
| FaultPrimitiveParser.RenderNext | fault_parser.cpp:84-86 | the cut after a written primitive leaves the text after it |
| FaultPrimitiveParser.FPsRoundTrip | fault_parser.cpp:72-100 | reading written primitives gives them back in order |
| FaultPrimitiveParser.RenderScan | fault_parser.cpp:74 | a written primitive has its only '>' at its end and no terminator |
| FaultPrimitiveParser.FPTextShape | fault_parser.cpp:74 | written primitives start with '<' and hold no terminator |
| FaultPrimitiveParser.AfterLinesKeep | fault_parser.cpp:39-50 | a fault that no line names keeps its primitives, or stays absent |
| FaultPrimitiveParser.LastLineWins | fault_parser.cpp:39-50 | the primitives stored under a name are those of the last line naming it |
| LegacyFaultSimulator.InstallSeq | faultSimulator.cpp:21-32 | the sequence `installFault` leaves the cell armed: queue length is the sequence length, history empty |
| LegacyFaultSimulator.InstallValue | faultSimulator.cpp:34-44 | the value `installFault` clears the sequence, sets queue length 0 and empties the history |
| LegacyFaultSimulator.Window | faultSimulator.cpp:52-60 | the most recent `n` records, oldest first; all of them when there are at most `n` |
| LegacyFaultSimulator.Recorded | faultSimulator.cpp:52-60 | `recordOperation` keeps a bounded history bounded, holding exactly the latest `maxQueue` records (none for 0), and changes nothing else |
| LegacyFaultSimulator.Triggered | faultSimulator.cpp:99-105 | `triggerFault` leaves the cell unchanged when the fault value is -1, else sets the value to it |
| LegacyFaultSimulator.StepMeaning | faultSimulator.cpp:107-127 | a write stores first; a fired fault forces the fault value unless -1; a read returns the final read value if fired and set, else the value; a write returns -1; only value and history change |
| LegacyFaultSimulator.FiresMeaning | faultSimulator.cpp:62-97 | never fires with trigger -1; a value trigger fires iff the post-op value equals it; a sequence trigger fires iff the latest records, this one included, agree with the sequence and the oldest started from the trigger value |
| LegacyFaultSimulator.StepKeepsArmed | faultSimulator.cpp:107-127 | an operation keeps the cell armed, its sequence and its trigger value |
| LegacyFaultSimulator.PlainMemory | faultSimulator.cpp:11-19 | a cell that cannot fire or whose fault changes nothing (after `init`, and every aggressor) is plain storage: it holds and reads the last value written |
| LegacyFaultSimulator.InitialMemory | faultSimulator.cpp:134-139 | `n` cells, each initialised to `init` |
| LegacyFaultSimulator.InstallFault | faultSimulator.cpp:141-156 | the victim is armed with seqV/VI and the final values; a coupling aggressor with seqA, trigger AI, and fault and read values -1; no other cell changes |
| LegacyFaultSimulator.InstallFaultAsWrittenUsesVictimTrigger | faultSimulator.cpp:151 | as written, an aggressor with a trigger sequence waits for VI, not AI (AI 0, VI 1) |
| LegacyFaultSimulator.AggressorTriggerUnobserved | faultSimulator.cpp:141-156 | the as-written and the corrected installations give the same syndrome for every March test, as an aggressor's fault changes nothing |
| LegacyFaultSimulator.GrowsTransitive | faultSimulator.cpp:250-280 | syndrome growth composes |
| LegacyFaultSimulator.ExtendsTransitive | faultSimulator.cpp:250-280 | syndrome extension composes, the keys adding up |
| LegacyFaultSimulator.ProcessOp | faultSimulator.cpp:258-274 | one operation at an address keeps the memory size |
| LegacyFaultSimulator.ProcessOpSyndrome | faultSimulator.cpp:258-274 | a read adds its entry and keeps the syndrome consistent; a write adds none |
| LegacyFaultSimulator.RunOps | faultSimulator.cpp:257-275 | an element's operations at one address keep the memory size |
| LegacyFaultSimulator.RunOpsSyndrome | faultSimulator.cpp:257-275 | the operations at an address add exactly the entries of their reads |
| LegacyFaultSimulator.RunAddrs | faultSimulator.cpp:256-276 | the element at every address keeps the memory size |
| LegacyFaultSimulator.RunAddrsSyndrome | faultSimulator.cpp:256-276 | over a non-empty address list, exactly the element's reads get entries |
| LegacyFaultSimulator.Addresses | faultSimulator.cpp:282-294 | all addresses, `k`-th is `k` upwards or `n-1-k` downwards |
| LegacyFaultSimulator.AddressesOnce | faultSimulator.cpp:282-294 | every address appears exactly once, strictly increasing or decreasing |
| LegacyFaultSimulator.ClearQueues | faultSimulator.cpp:158-161 | every history emptied, nothing else changed |
| LegacyFaultSimulator.RunElement | faultSimulator.cpp:255-278 | one element keeps the memory size |
| LegacyFaultSimulator.RunMarch | faultSimulator.cpp:255-278 | the whole test keeps the memory size |
| LegacyFaultSimulator.RunMarchSyndrome | faultSimulator.cpp:250-280 | every read of the test, and nothing else, gets an entry; entries only grow; an entry is detected iff it holds an address; every address is a cell |
| LegacyFaultSimulator.StepEquivalent | faultSimulator.cpp:107-127 | cells differing only in the trigger of a fault that changes nothing step alike and return the same value |
| LegacyFaultSimulator.ProcessOpEquivalent | faultSimulator.cpp:258-274 | equivalent memories give the same syndrome for one operation |
| LegacyFaultSimulator.RunOpsEquivalent | faultSimulator.cpp:257-275 | equivalent memories give the same syndrome for an element's operations |
| LegacyFaultSimulator.RunAddrsEquivalent | faultSimulator.cpp:256-276 | equivalent memories give the same syndrome over the addresses |
| LegacyFaultSimulator.RunMarchEquivalent | faultSimulator.cpp:255-278 | equivalent memories give the same syndrome for the whole test |
| LegacyFaultSimulator.ChooseAggVictimMeaning | faultSimulator.cpp:194-248 | the same choice as the newer simulator's on a square array: no aggressor for a single fault; the left/upper neighbour for A 0, the right/lower one for A 1, always in the memory; no cells for any other A |
| LegacyFaultSimulator.ChooseAggVictimCells | faultSimulator.cpp:194-248 | the chosen cells exist iff the fault is single or A is 0 or 1 |
| LegacyFaultSimulator.Cell.constructor | faultSimulator.cpp:7-9 | a new cell is the default cell |
| LegacyFaultSimulator.Cell.Init | faultSimulator.cpp:11-19 | the value is set and the trigger, fault and read values reset to -1, queue length 0 and history empty |
| LegacyFaultSimulator.Cell.InstallFaultSeq | faultSimulator.cpp:21-32 | the cell's new state is `InstallSeq` of the old |
| LegacyFaultSimulator.Cell.InstallFaultValue | faultSimulator.cpp:34-44 | the cell's new state is `InstallValue` of the old |
| LegacyFaultSimulator.Cell.ClearQueue | faultSimulator.cpp:46-50 | only the history is emptied |
| LegacyFaultSimulator.Cell.RecordOperation | faultSimulator.cpp:52-60 | the new state is `Recorded` of the old |
| LegacyFaultSimulator.Cell.HistoryMatches | faultSimulator.cpp:62-75 | the loop's verdict is `MatchesHistory` of the state |
| LegacyFaultSimulator.Cell.CheckTrigger | faultSimulator.cpp:77-97 | the verdict is `TriggerHolds` of the state |
| LegacyFaultSimulator.Cell.TriggerFault | faultSimulator.cpp:99-105 | the new state is `Triggered` of the old |
| LegacyFaultSimulator.Cell.ApplyOp | faultSimulator.cpp:107-127 | the new state and the returned value are `StepCell` of the old state |
| LegacyFaultSimulator.Memory.constructor | faultSimulator.cpp:134-139 | `n` cells, each initialised to `init` |
| LegacyFaultSimulator.Memory.InstallFault | faultSimulator.cpp:141-156 | the cells are installed as written: the victim with seqV or VI and the final values, a coupling aggressor with seqA triggered from VI (line 151), or with AI when seqA is empty, and fault and read values -1 |
| LegacyFaultSimulator.Memory.ClearElementQueues | faultSimulator.cpp:158-161 | every history emptied, nothing else changed |
| LegacyFaultSimulator.Memory.WriteCell | faultSimulator.cpp:163-165 | only the addressed cell steps with the write |
| LegacyFaultSimulator.Memory.ReadCell | faultSimulator.cpp:167-169 | only the addressed cell steps with the read, and its result is returned |
| LegacyFaultSimulator.FaultSimulator.constructor | main.cpp:132 | built as its callers build it (also MarchGenerator.cpp:75): the simulator keeps the March test it is given and the array side |
| LegacyFaultSimulator.FaultSimulator.IterateAddresses | faultSimulator.cpp:282-294 | the loop returns `Addresses` of the memory size in the order asked |
| LegacyFaultSimulator.FaultSimulator.SimulateSubcase | faultSimulator.cpp:250-280 | fails iff a coupling subcase has A other than 0 or 1; otherwise the syndrome of the whole test on the initial memory installed as written, which equals that of the corrected installation |
| LegacyFaultSimulator.FaultSimulator.RunMarchOn | faultSimulator.cpp:254-278 | the element loop computes `RunMarch` from an empty syndrome |
| LegacyFaultSimulator.FaultSimulator.RunElementOn | faultSimulator.cpp:255-278 | one element computes `RunElement` |
| LegacyFaultSimulator.FaultSimulator.RunAddrsOn | faultSimulator.cpp:256-276 | the address loop computes `RunAddrs` |
| LegacyFaultSimulator.FaultSimulator.RunOpsOn | faultSimulator.cpp:257-275 | the operation loop computes `RunOps` |
| NewFaultTypes.SameIsEquality | newFaultSimulator.hpp:21-23 | `MarchOpIdx::operator==` holds iff both fields are equal |
| NewFaultTypes.LessIsStrictTotalOrder | newFaultSimulator.hpp:24-26 | `operator<` is irreflexive, transitive and asymmetric, and exactly one of `a < b`, `a == b`, `b < a` holds |
| NewFaultTypes.FaultIdSameIsEquality | newFaultSimulator.hpp:57-59 | `FaultID::operator==` holds iff both name and subcase index agree |
| NewFaultSimulator.Last | newFaultSimulator.cpp:24-26 | the window holds the most recent `n` records, oldest first, or all of them when fewer |
| NewFaultSimulator.LastSnoc | newFaultSimulator.cpp:24-26 | pushing onto the window of a history gives the window of the longer history |
| NewFaultSimulator.MatchStep | newFaultSimulator.cpp:9-36 | no matcher never fires; a value matcher fires iff the before-value equals its trigger and keeps no state; a sequence matcher pushes the record and fires iff its window is full, starts from the trigger value and follows the pattern |
| NewFaultSimulator.StepMeaning | newFaultSimulator.cpp:53-69 | a write stores first; a firing forces the final cell value even when it is -1; a read returns the final read value if fired and set, else the value; a write returns -1; final values and matcher kind do not change |
| NewFaultSimulator.ValueTriggerMeaning | newFaultSimulator.cpp:9-12 | a value trigger fires iff the cell held the trigger value before the operation |
| NewFaultSimulator.Outputs | newFaultSimulator.cpp:53-69 | one returned value per operation |
| NewFaultSimulator.RunCellAppend | newFaultSimulator.cpp:176-192 | running two runs in turn is running them joined |
| NewFaultSimulator.PlainStorage | newFaultSimulator.cpp:61 | a cell without a matcher holds the latest value written, and every read returns the value last written before it |
| NewFaultSimulator.ValueMatcher.Match | newFaultSimulator.cpp:9-12 | fires iff the record's before-value is the trigger value |
| NewFaultSimulator.ValueMatcher.Reset | newFaultSimulator.cpp:14-16 | `reset` changes nothing |
| NewFaultSimulator.SequenceMatcher.constructor | newFaultSimulator.cpp:19-20 | keeps the pattern and the trigger value, with an empty window |
| NewFaultSimulator.SequenceMatcher.Match | newFaultSimulator.cpp:22-36 | the window keeps the last `|pattern|` records; fires iff it is full, its oldest before-value is the trigger and its operations agree with the pattern in type and value |
| NewFaultSimulator.SequenceMatcher.Reset | newFaultSimulator.cpp:38-40 | the window is emptied |
| NewFaultSimulator.Cell.constructor | newFaultSimulator.hpp:121-123 | a new cell holds 0, both final values -1, and no matcher |
| NewFaultSimulator.Cell.InstallFault | newFaultSimulator.cpp:45-51 | the matcher and both final values are set; the value is kept |
| NewFaultSimulator.Cell.ApplyOp | newFaultSimulator.cpp:53-69 | the new state and the returned value are `Step` of the old state |
| NewFaultSimulator.Cell.ApplyOps | newFaultSimulator.cpp:180-182 | the element's operations run in order at the cell |
| NewFaultSimulator.Cell.ClearMatcher | newFaultSimulator.cpp:71-73 | a sequence matcher's window is emptied; nothing else changes |
| NewFaultSimulator.RowOfCell | newFaultSimulator.cpp:94-120 | the cell at (row, col) lies in that row and column |
| NewFaultSimulator.Coordinates | newFaultSimulator.cpp:94-120 | a cell of the array has a row and column inside it |
| NewFaultSimulator.ChooseAggVictimMeaning | newFaultSimulator.cpp:81-132 | corrected choice: no aggressor for a single fault; for A 0 the left or upper neighbour, below the victim; for A 1 the right or lower neighbour, above it; always inside the array; (-1, -1) for any other A |
| NewFaultSimulator.ChooseAggVictimDistinct | newFaultSimulator.cpp:81-132 | a set aggressor comes with a distinct, set victim inside the array |
| NewFaultSimulator.ChooseAggVictimAsWrittenDistinct | newFaultSimulator.cpp:81-132 | as written, a set aggressor is one cell or one row away from the victim, it is set for A 0 and 1, and the victim lies inside the array |
| NewFaultSimulator.ChooseAggVictimAsWrittenLeavesArray | newFaultSimulator.cpp:115 | as written, a 3 by 2 array with A 1, victim 4 and the lower choice gives aggressor 6, outside the array |
| NewFaultSimulator.ChooseAggVictimSquare | newFaultSimulator.cpp:115 | on a square array the written and corrected choices agree |
| NewFaultSimulator.Ascending | newFaultSimulator.cpp:178 | the cells' addresses in strictly increasing order, exactly the set ones |
| NewFaultSimulator.Reverse | newFaultSimulator.cpp:185 | the addresses in reverse, the same set |
| NewFaultSimulator.MarchStep | newFaultSimulator.cpp:176-192 | one more element appends its visiting order to the trace |
| NewFaultSimulator.RunElementsIsRunCell | newFaultSimulator.cpp:176-192 | element by element is all the test's operations in order, at each cell |
| NewFaultSimulator.RunCells | newFaultSimulator.cpp:178-190 | each cell in turn runs the operations once |
| NewFaultSimulator.FaultSimulator.constructor | newFaultSimulator.cpp:76-79 | keeps the array size and starts with an empty memory |
| NewFaultSimulator.FaultSimulator.RunElement | newFaultSimulator.cpp:177-191 | every cell runs the element's operations once, cells taken in increasing or, descending, decreasing address order |
| NewFaultSimulator.FaultSimulator.SimulateSubcase | newFaultSimulator.cpp:134-193 | the memory holds exactly the cells `chooseAggVictim` picks as written (line 115 included, so on a non-square array the aggressor can lie outside it); it throws iff no cell was chosen, or the test is empty; otherwise the victim and aggressor end in the state of all the test's operations from their installed states, visited in address order |
| NewFaultSimulator.FaultSimulator.PlaceCells | newFaultSimulator.cpp:139-142 | a fresh cell at the aggressor and at the victim, when set |
| NewFaultSimulator.FaultSimulator.InstallFaults | newFaultSimulator.cpp:156-173 | the victim gets a value matcher on VI when seqV is empty, else a sequence matcher, and the final values; the aggressor a sequence or value matcher on AI and final values -1 |
| NewFaultSimulator.FaultSimulator.RunMarch | newFaultSimulator.cpp:176-192 | every cell ends in the state of all elements run in turn, and the trace is the visiting order |
| ResultCollector.ClearOpsMeaning | src/ResultCollector.cpp:6-8 | after one element's operations, exactly the READ positions are added, each false; other keys keep their flags |
| ResultCollector.ClearElementsMeaning | src/ResultCollector.cpp:5-9 | after all elements, exactly the READ positions of the test are added, each false; other keys keep their flags |
| ResultCollector.CreatedMeaning | src/ResultCollector.cpp:3-10 | `createReport` sets a false flag for every READ position, even one already set, adds no other key, and keeps the other flags, the detection flag and the addresses |
| ResultCollector.ReadIdxsOfHas | src/ResultCollector.cpp:7 | a READ operation's position is among the READ positions of its element |
| ResultCollector.ReadIdxsOfOnlyReads | src/ResultCollector.cpp:7 | a position held by no READ operation of the element is not among them |
| ResultCollector.ReadIdxsHas | src/ResultCollector.cpp:5-9 | every READ operation of the test has its position among the READ positions |
| ResultCollector.ReadIdxsOnlyReads | src/ResultCollector.cpp:5-9 | only READ operations contribute positions |
| ResultCollector.DetectMeaning | src/ResultCollector.cpp:12-20 | an unknown position changes nothing; a known one gets its flag set, the detection flag set and the address added, other flags kept |
| ResultCollector.DetectGrows | src/ResultCollector.cpp:12-20 | `opDetected` never adds keys, never clears a flag and never forgets an address |
| ResultCollector.DetectIdempotent | src/ResultCollector.cpp:12-20 | reporting the same detection twice is reporting it once |
| ResultCollector.CoherentKept | src/ResultCollector.cpp:3-20 | both operations keep the report coherent: a detection happened iff an address was recorded, and a flag is set only after a detection |
| ResultCollector.GrowsTrans | src/ResultCollector.cpp:12-20 | report growth composes |
| ResultCollector.ResultCollector.constructor | include/ResultCollector.hpp:16-26 | a new collector holds an empty report |
| ResultCollector.ResultCollector.CreateReport | src/ResultCollector.cpp:3-10 | the new report is `Created` of the old |
| ResultCollector.ResultCollector.OpDetected | src/ResultCollector.cpp:12-20 | the new report is `Detect` of the old |
| ResultCollector.ResultCollector.GetReport | include/ResultCollector.hpp:22 | returns the current report |
| SequenceExecutor.SequenceExecutor.constructor | src/SequenceExecutor.cpp:4-26 | keeps the memory size `memSize_` and the collector `collector_` the methods use |
| SequenceExecutor.SequenceExecutor.Execute | src/SequenceExecutor.cpp:3-18 | the report and the fault state are those of `Executed`: nothing without memory or elements, otherwise each element over its addresses in turn |
| SequenceExecutor.SequenceExecutor.Iterate | src/SequenceExecutor.cpp:9-16 | the element at every memory address, upwards from 0 or downwards from `memSize - 1`, in that order |
| SequenceExecutor.SequenceExecutor.ProcessElementAtAddr | src/SequenceExecutor.cpp:20-33 | the element's operations in order at the address |
| SequenceExecutor.AddressesMeaning | src/SequenceExecutor.cpp:13-16 | `memSize` addresses (none for `memSize <= 0`), all in the memory; ASC and BOTH strictly increasing, DESC strictly decreasing |
| SequenceExecutor.OpStepMeaning | src/SequenceExecutor.cpp:20-33 | writes and other kinds never report; a read reports iff the fault returns a value other than the expected one, setting its flag, the detection flag and the address |
| SequenceExecutor.BoundedTrans | src/SequenceExecutor.cpp:3-18 | the executor's allowed report changes compose |
| SequenceExecutor.OpStepBounded | src/SequenceExecutor.cpp:20-33 | one operation keeps every key, flag and address, records only the address, and touches only its READ position |
| SequenceExecutor.RunOpsBounded | src/SequenceExecutor.cpp:20-33 | the same for an element's operations at one address |
| SequenceExecutor.RunAddrsBounded | src/SequenceExecutor.cpp:9-12 | the same over a list of memory addresses |
| SequenceExecutor.RunMarchBounded | src/SequenceExecutor.cpp:8-17 | the same over the elements of the test |
| SequenceExecutor.ExecuteBounded | src/SequenceExecutor.cpp:3-18 | execution keeps every key, flag and address and coherence, records only memory addresses, and sets only flags of the test's READ operations |
| SequenceExecutor.RunOpsFaultFree | src/SequenceExecutor.cpp:20-33 | with a fault-free memory, an element at an address reports nothing |
| SequenceExecutor.RunAddrsFaultFree | src/SequenceExecutor.cpp:9-12 | with a fault-free memory, an element over its addresses reports nothing |
| SequenceExecutor.RunMarchFaultFree | src/SequenceExecutor.cpp:8-17 | with a fault-free memory, the elements report nothing |
| SequenceExecutor.ExecuteFaultFree | src/SequenceExecutor.cpp:3-18 | a fault-free memory never produces a detection, whatever the March test |
| SequenceExecutor.ExecuteNothing | src/SequenceExecutor.cpp:4-7 | without memory or without elements, the report and the fault are untouched |
| Odometer.Pow4 | Test.cpp:27-31 | 4^n is at least 1 |
| Odometer.Ones | Test.cpp:17-19 | `n` entries, all 1 |
| Odometer.Successor | Test.cpp:26-32 | one step keeps the number of entries |
| Odometer.ValueRange | Test.cpp:17-32 | a combination of `n` entries in 1..4 stands for a number below 4^n, and for 4^n - 1 iff every entry is 4 |
| Odometer.ValueOnes | Test.cpp:17-19 | all 1s stands for zero |
| Odometer.ValueInjective | Test.cpp:17-32 | two combinations of the same length standing for the same number are equal |
| Odometer.SuccessorValue | Test.cpp:26-32 | unless every entry is 4, one step keeps every entry in 1..4 and adds one to the number |
| Odometer.SuccessorAllFour | Test.cpp:27-31 | after every entry was 4, the step leaves all 1s |
| Odometer.SuccessorFours | Test.cpp:26-30 | trailing 4s become 1s, whatever comes before them |
| Odometer.Enumerate | Test.cpp:9-33 | a non-positive count exits with 1 before enumerating; otherwise every combination is visited once, in increasing order, after 4^n - 1 increments, and the entries end all 1 |
| Odometer.NextCombination | Test.cpp:26-32 | one step of the loop: the entries become the successor, and it reports running off the front iff every entry was 4 |
| Odometer.VisitsEveryCombination | Test.cpp:17-33 | every combination of `n` entries in 1..4 is visited, at the position of its number |
| MarchGenerator.ValidTransitionMeaning | MarchGenerator.cpp:48-62 | exactly w0→r1, r0→r1, w1→r0 and r1→r0 are rejected: a transition is valid iff the next operation writes or reads the previous operation's value |
| MarchGenerator.Rank | MarchGenerator.cpp:32-37 | every binary operation has exactly one position among the candidates w0, w1, r0, r1 |
| MarchGenerator.CandidateStep | MarchGenerator.cpp:38-44 | a candidate from a prefix starting with `op` is a candidate from the prefix extended by `op`, and back |
| MarchGenerator.NotLessAfter | MarchGenerator.cpp:38-44 | a candidate agreeing up to a position and ranked later there does not come first |
| MarchGenerator.SearchMeaning | MarchGenerator.cpp:25-46 | what `dfs` finds is a candidate that passes the test and that no passing candidate precedes in the w0, w1, r0, r1 order; when it finds nothing, no candidate passes |
| MarchGenerator.SearchFromMeaning | MarchGenerator.cpp:38-45 | the search from the `i`-th candidate operation finds the first passing candidate whose next operation ranks at least `i`, or shows there is none |
| MarchGenerator.Wrap | MarchGenerator.cpp:13-19 | one element per operation, each holding only that operation, with `addr_order` true |
| MarchGenerator.GeneratedMeaning | MarchGenerator.cpp:7-23 | empty for length ≤ 0; empty for a positive length only when no sequence passes; otherwise `length` one-operation elements with `addr_order` true, valid transitions, passing the test and first in the w0, w1, r0, r1 order |
| MarchGenerator.MarchGenerator.constructor | MarchGenerator.cpp:4-5 | keeps the fault primitives, with an empty `current` |
| MarchGenerator.MarchGenerator.Generate | MarchGenerator.cpp:7-23 | returns `Generated` of the length and the test |
| MarchGenerator.MarchGenerator.Dfs | MarchGenerator.cpp:25-46 | on success `current` is what the search finds from it; on failure the search finds nothing and `current` is restored |
| MarchGenerator.AllDetected | MarchGenerator.cpp:76-88 | the verdict holds iff every entry of every subcase syndrome of every fault primitive is detected, vacuously with none |
| MarchGenerator.CountEntries | MarchGenerator.cpp:82-85 | counts the entries and the detected ones; they are equal iff every entry is detected |

## Left out

- File, JSON and Excel input and output, `argv` handling, the interactive menus and console printing are not modelled: the model starts from the text or values they would produce. `printFaults`, the `main` functions and the `chrono` timing in Test.cpp are left out for the same reason.
- A file that cannot be opened is modelled as a missing text (`None`). Undefined behaviour and exceptions in the source (an out-of-range index, `std::stoi` on text that is not a number, `front()` on an empty deque) become `Err`/`None` results or preconditions, as each member's comment says.
- The random victim, the random 0/1 choice and the `std::random_device` seed are parameters of `ChooseAggVictim` and `SimulateSubcase` in both simulators. `sqrt(MAX_ADDR)` in faultSimulator.cpp is the parameter `side`, with `side * side` cells.
- `FaultSimulator::runAll` (faultSimulator.cpp:179-192) is not modelled as a member. It repeats `SimulateSubcase` for every subcase and both initial values, with fresh random picks, and stores the syndromes under the fault name. `MarchGenerator.AllDetected` takes those syndromes as its input, and `testSequence`'s simulator run is the predicate `test` of the generator.
- `std::hash<FaultID>` is not modelled: the collector's map is keyed by the fault id value itself.
- The setter bodies of `OneCellFault`/`TwoCellFault` are not part of this model. Their configurations record the arguments they are given, and a later `setTrigger` replaces an earlier one.
- The types whose headers are not part of this model are declared from how the source uses them: `DetectionReport`, `MarchIdx` and `MarchElement` of the collector, and the `Cell`, `Memory`, `FaultPrimitive` and `FaultSubcase` of faultSimulator.cpp and MarchGenerator.cpp (the faultSimulator.hpp in the repository declares a later set of types, not these). The collector starts empty.
- `IFault` is an abstract class; the model describes a fault by the values its virtual functions return (`FaultModel`).
- NewFaultSimulator.Cell keeps its matcher as a value (`MatcherState`), not as a separately owned object behind a `unique_ptr`: there is no aliasing between cells to model.
- The iteration order of `std::map<int, Cell>` is modelled explicitly as ascending addresses (`Ascending`).
- The March and fault parsers of main.cpp set every `SingleOp`'s `order` to 0, as the source leaves it at its default.
- The descending walk of `SequenceExecutor::execute` (src/SequenceExecutor.cpp:16) counts a `std::size_t` down until it wraps to `size_t(-1)`; `SequenceExecutor.SequenceExecutor.Iterate` counts an integer address down to -1, which visits the same addresses.
- The commented-out printing in Test.cpp is modelled as the ghost trace `visited`.
- The "pattern not found" exception in parser.cpp (line 73) cannot be reached from `parse`, as `Parser.FirstNamedChoice` shows, and is not modelled.
- `LegacyFaultSimulator.FaultSimulator.constructor` is declared from its callers (main.cpp:132, MarchGenerator.cpp:75), which pass the March test and the faults; the constructor in faultSimulator.cpp:175-177 takes only the faults and seeds `rng`. The faults belong to `runAll`, which is not modelled, and the seed to the random picks, which are parameters.
- `NewFaultSimulator.FaultSimulator.SimulateSubcase` uses the choice of `chooseAggVictim` as written (`NewFaultSimulator.ChooseAggVictimAsWritten`), so on an array with more rows than columns its aggressor can be a map key outside the array; the corrected choice is stated and proved separately.
- `LegacyFaultSimulator.Memory.InstallFault` installs the aggressor's trigger sequence with `VI`, as faultSimulator.cpp:151 does; the corrected installation with `AI` is the function `LegacyFaultSimulator.InstallFault`, and `SimulateSubcase` states its syndrome under both.
- `StdText.IsDigit` accepts only the ASCII digits '0' to '9'. Python's `\d` in `subcase_re` (python/txt2excel.py:16) also accepts other Unicode decimal digits, and `int()` reads them; the model does not, since that needs the Unicode digit tables.
- The new `simulateSubcase` discards the values its reads return; nothing is collected, and the model keeps only the final cells.

## Findings

| source | as written | input that shows it | evidently intended | confidence | as-written member | corrected member |
|---|---|---|---|---|---|---|
| newFaultSimulator.cpp:115 | `A == 1` tests for the last row with `vic / cols_ == cols_ - 1` | 3 rows by 2 columns, `A` = 1, victim 4, choice 0: the aggressor is 6, outside the 6 cells | `vic / cols_ == rows_ - 1` | not executed | NewFaultSimulator.ChooseAggVictimAsWrittenLeavesArray | NewFaultSimulator.ChooseAggVictimMeaning |
| faultSimulator.cpp:151 | the aggressor's trigger sequence is installed with the victim's initial value `VI` | a coupling subcase with `AI` = 0, `VI` = 1 and `seqA` = [W1]: the aggressor's trigger value is 1 | the aggressor's own initial value `AI`, as the value overload at line 153 uses | not executed | LegacyFaultSimulator.InstallFaultAsWrittenUsesVictimTrigger | LegacyFaultSimulator.InstallFault |
