/**
 * Concrete report lines run through the scanner's recognisers and scan, on
 * the behaviours where the report format's prose description and the script
 * part ways: a Fault header needs a character before `Fault`, and a line
 * starting with a reserved word such as `Write` is never taken as detect
 * operations.
 */
module ReportScenarios {
  import opened Wrappers
  import opened StdText
  import opened ReportScanner

  lemma FaultAtColumnZero()
    ensures MatchFault("Fault A") == None
  {
    var s := "Fault A";
    assert forall m :: 0 <= m < |s| ==> s[m] != '\n';
    forall q | 1 <= q ensures !OccursAt(s, "Fault", q) {
      if q + 5 <= |s| {
        assert q == 1 || q == 2;
        assert s[q..q + 5][0] == s[q] != 'F';
      }
    }
    MatchFaultNoBreak(s);
  }

  /** Stripping the blanks around ` Fault A`. */
  lemma StripFaultLine()
    ensures Strip(IsPySpace, " Fault A") == "Fault A"
  {
    var s := " Fault A";
    assert s[0] == ' ' && s[1] == 'F';
    assert SkipWhile(IsPySpace, s, 0) == 1;
    assert LStrip(IsPySpace, s) == "Fault A";
    var r := "Fault A";
    assert !IsPySpace(r[|r| - 1]);
  }

  /** One leading blank is enough, and the name is the line stripped. */
  lemma FaultAfterSpace()
    ensures MatchFault(" Fault A") == Some("Fault A")
  {
    var s := " Fault A";
    assert s[1..6] == "Fault";
    assert forall m :: 0 <= m < |s| ==> s[m] != '\n';
    MatchFaultNoBreak(s);
    StripFaultLine();
  }

  lemma HexOfInitLine()
    ensures HexGroup("Init 0: 1010 (0x5)", 12) == "0x5"
  {
    var s := "Init 0: 1010 (0x5)";
    assert SkipWhile(IsPySpace, s, 12) == 13;
    assert s[13..16] == "(0x";
    assert SkipWhile(IsHexDigit, s, 16) == 17;
    assert s[14..17] == "0x5";
  }

  /** Spaces after `Init` and after the colon of the Init line. */
  lemma InitLineSpaces()
    ensures SkipWhile(IsPySpace, "Init 0: 1010 (0x5)", 4) == 5
    ensures SkipWhile(IsPySpace, "Init 0: 1010 (0x5)", 7) == 8
  {
    var s := "Init 0: 1010 (0x5)";
    assert s[4] == ' ' && s[5] == '0';
    assert s[7] == ' ' && s[8] == '1';
  }

  /** The bit syndrome of the Init line runs from index 8 to 12. */
  lemma InitLineBits()
    ensures SkipWhile(IsBit, "Init 0: 1010 (0x5)", 8) == 12
    ensures "Init 0: 1010 (0x5)"[8..12] == "1010"
  {
    var s := "Init 0: 1010 (0x5)";
    assert s[8..12] == "1010";
    assert s[12] == ' ';
  }

  /** An Init line with a bit syndrome and a hexadecimal group. */
  lemma InitWithHex()
    ensures MatchInit("Init 0: 1010 (0x5)") == Some((0, "1010", "0x5"))
  {
    var s := "Init 0: 1010 (0x5)";
    assert s[..4] == "Init";
    InitLineSpaces();
    InitLineBits();
    HexOfInitLine();
  }

  /** A line starting with `Write` after an Init line supplies no detect operations. */
  lemma WriteLineNotConsumed()
    ensures DetectPayload(["Init 0: 1010 (0x5)", "Write back error"], 0) == None
  {
    var lines := ["Init 0: 1010 (0x5)", "Write back error"];
    var next := "Write back error";
    assert lines[1] == next;
    assert SkipWhile(IsPySpace, next, 0) == 0;
    assert LStrip(IsPySpace, next) == next;
    assert StartsWith(next, RESERVED_PREFIXES[5]);
    assert StartsWithAny(next, RESERVED_PREFIXES);
  }

  /** A line without `F` or a line break is no Fault header. */
  lemma NoFaultWithoutF(s: string)
    requires forall m :: 0 <= m < |s| ==> s[m] != 'F' && s[m] != '\n'
    ensures MatchFault(s) == None
  {
    forall q | 1 <= q ensures !OccursAt(s, "Fault", q) {
      if q + 5 <= |s| {
        assert s[q..q + 5][0] == s[q];
      }
    }
    MatchFaultNoBreak(s);
  }

  /** A line not starting with `S` is no Subcase header. */
  lemma NotSubcase(s: string)
    requires s != [] && s[0] != 'S'
    ensures MatchSubcase(s) == None
  {
    if 7 <= |s| {
      assert s[..7][0] == s[0];
    }
  }

  /** A line not starting with `I` is no Init line. */
  lemma NotInit(s: string)
    requires s != [] && s[0] != 'I'
    ensures MatchInit(s) == None
  {
    if 4 <= |s| {
      assert s[..4][0] == s[0];
    }
  }

  lemma ClassifyInit()
    ensures Classify("Init 0: 1010 (0x5)") == InitHeader(0, "1010", "0x5")
  {
    NoFaultWithoutF("Init 0: 1010 (0x5)");
    NotSubcase("Init 0: 1010 (0x5)");
    InitWithHex();
  }

  lemma ClassifyWrite()
    ensures Classify("Write back error") == Unrecognized
  {
    NoFaultWithoutF("Write back error");
    NotSubcase("Write back error");
    NotInit("Write back error");
  }

  /** A line whose last character is no line break is its own stripped form. */
  lemma LineAtUnchanged(lines: seq<string>, i: nat)
    requires i < |lines| && lines[i] != [] && !IsNewline(lines[i][|lines[i]| - 1])
    ensures LineAt(lines, i) == lines[i]
  {
  }

  /** A sequence of two elements is the display of them. */
  lemma PairSeq<T>(ts: seq<T>)
    requires |ts| == 2
    ensures ts == [ts[0], ts[1]]
  {
  }

  /** The tokens of a two-line report, from the kind and payload of each line. */
  lemma TokensOfTwo(lines: seq<string>, k0: LineKind, p0: Option<string>, k1: LineKind, p1: Option<string>)
    requires |lines| == 2
    requires Classify(LineAt(lines, 0)) == k0 && DetectPayload(lines, 0) == p0
    requires Classify(LineAt(lines, 1)) == k1 && DetectPayload(lines, 1) == p1
    ensures Tokens(lines) == [Token(k0, p0), Token(k1, p1)]
  {
    var ts := Tokens(lines);
    assert ts[0] == Token(k0, p0) && ts[1] == Token(k1, p1);
    PairSeq(ts);
  }


  lemma ScenarioTokens()
    ensures Tokens(["Init 0: 1010 (0x5)", "Write back error"])
            == [Token(InitHeader(0, "1010", "0x5"), None), Token(Unrecognized, None)]
  {
    var lines := ["Init 0: 1010 (0x5)", "Write back error"];
    LineAtUnchanged(lines, 0);
    LineAtUnchanged(lines, 1);
    ClassifyInit();
    ClassifyWrite();
    WriteLineNotConsumed();
    LastLineNoPayload(lines);
    TokensOfTwo(lines, InitHeader(0, "1010", "0x5"), None, Unrecognized, None);
  }

  /**
   * An Init line followed by `Write back error`: one Init 0 row with an
   * empty detect-operations field, and the second line is classified on its
   * own (and ignored).
   */
  lemma WriteLineLeavesDetectOpsEmpty()
    ensures ReportRows(["Init 0: 1010 (0x5)", "Write back error"]) == [(0, Row(None, None, None, 0, "1010", "0x5", ""))]
  {
    ScenarioTokens();
    var ts := [Token(InitHeader(0, "1010", "0x5"), None), Token(Unrecognized, None)];
    assert Visits(ts, 0) == [0, 1];
  }
}
