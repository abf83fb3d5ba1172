/**
 * The stand-alone fault-primitive reader of `fault_parser.cpp`. Each line
 * `name <FP><FP>...` gives a fault's name and its fault primitives; each
 * primitive `<Sv/F/R>` or `<Sa; Sv/F/R>` becomes its aggressor and victim
 * sensitizing sequences, "-" standing for a missing aggressor.
 *
 * The three `std::regex` patterns are written out as the scans they
 * perform under libstdc++'s ECMAScript grammar: `.` stops at '\n' and
 * '\r', `\s` is C `isspace`, a search reports the leftmost match, and a
 * lazy group takes the fewest characters that let the rest match.
 */
module FaultPrimitiveParser {
  import opened Wrappers
  import opened StdText

  /** A fault primitive's aggressor and victim sensitizing sequences. */
  datatype Fault = Fault(sa: string, sv: string)

  /** The characters ECMAScript `.` does not match. */
  predicate IsTerm(c: char) {
    c == '\n' || c == '\r'
  }

  predicate NoTerm(s: string) {
    forall m :: 0 <= m < |s| ==> !IsTerm(s[m])
  }

  /** The first index of the terminator-free stretch that ends at `j`. */
  function LineStart(s: string, j: nat): (t: nat)
    requires j <= |s|
    ensures t <= j && forall m :: t <= m < j ==> !IsTerm(s[m])
    ensures 0 < t ==> IsTerm(s[t - 1])
  {
    if j == 0 || IsTerm(s[j - 1]) then j else LineStart(s, j - 1)
  }

  /** The first index of the whitespace run that ends at `q`. */
  function RunStart(s: string, q: nat): (b: nat)
    requires q <= |s|
    ensures b <= q && forall m :: b <= m < q ==> IsCSpace(s[m])
    ensures 0 < b ==> !IsCSpace(s[b - 1])
  {
    if q == 0 || !IsCSpace(s[q - 1]) then q else RunStart(s, q - 1)
  }

  /** Where a greedy `.*` starting at `k` stops. */
  function LineEnd(s: string, k: nat): (e: nat)
    requires k <= |s|
    ensures k <= e <= |s| && forall m :: k <= m < e ==> !IsTerm(s[m])
    ensures e < |s| ==> IsTerm(s[e])
    decreases |s| - k
  {
    if k == |s| || IsTerm(s[k]) then k else LineEnd(s, k + 1)
  }

  /**
   * `get_faultname_FP`: searching `(.*?)\s*<\s*(.*)`. Without a '<' both
   * parts are empty. Otherwise the name runs from the start of the line
   * (after its last terminator) to the whitespace before the first '<', and
   * the primitives are '<' followed by the rest of that line after the
   * whitespace following the '<'.
   */
  function GetFaultnameFP(line: string): (string, string) {
    match FindChar(line, '<', 0)
    case None => ("", "")
    case Some(q) =>
      var b := RunStart(line, q);
      var k := SkipWhile(IsCSpace, line, q + 1);
      (line[LineStart(line, b)..b], "<" + line[k..LineEnd(line, k)])
  }

  /**
   * `regex_match` with `<([^;]+); ([^/]+?)/[^>]*>`: the aggressor runs to the
   * first ';' and must be non-empty, "; " follows, the victim runs to the
   * next '/' and must be non-empty, and the only '>' after that ends the text.
   */
  function MultiCell(cur: string): (r: Option<Fault>)
    ensures r.Some? ==> r.value.sa != [] && ';' !in r.value.sa && r.value.sv != [] && '/' !in r.value.sv
  {
    if cur == [] || cur[0] != '<' then None
    else
      var x := cur[1..];
      match FindChar(x, ';', 0)
      case None => None
      case Some(i) =>
        if i == 0 || i + 2 > |x| || x[i + 1] != ' ' then None
        else match FindChar(x, '/', i + 2)
          case None => None
          case Some(k) =>
            if k == i + 2 || FindChar(x, '>', k + 1) != Some(|x| - 1) then None
            else
              SliceAvoids(x, 0, i, ';');
              SliceAvoids(x, i + 2, k, '/');
              Some(Fault(x[..i], x[i + 2..k]))
  }

  /** `regex_match` with `<([^/]+)/[^>]*>`: the victim runs to the first '/' and the only '>' after it ends the text. */
  function SingleCell(cur: string): (r: Option<Fault>)
    ensures r.Some? ==> r.value.sa == "-" && r.value.sv != [] && '/' !in r.value.sv
  {
    if cur == [] || cur[0] != '<' then None
    else
      var x := cur[1..];
      match FindChar(x, '/', 0)
      case None => None
      case Some(k) =>
        if k == 0 || FindChar(x, '>', k + 1) != Some(|x| - 1) then None
        else
          SliceAvoids(x, 0, k, '/');
          Some(Fault("-", x[..k]))
  }

  /** A stretch without `c` gives a slice without `c`. */
  lemma SliceAvoids(s: string, a: nat, b: nat, c: char)
    requires a <= b <= |s| && forall m :: a <= m < b ==> s[m] != c
    ensures c !in s[a..b]
  {
    forall m | 0 <= m < b - a ensures s[a..b][m] != c {
      assert s[a..b][m] == s[a + m];
    }
  }

  /** `FindChar` finds nothing when no character from `k` on is `c`. */
  lemma {:induction false} FindCharNone(s: string, c: char, k: nat)
    requires k <= |s| && forall m :: k <= m < |s| ==> s[m] != c
    ensures FindChar(s, c, k) == None
    decreases |s| - k
  {
    if k < |s| {
      FindCharNone(s, c, k + 1);
    }
  }

  /** One primitive: the two-cell form is tried first; a primitive of neither form is dropped. */
  function Chunk(cur: string): Option<Fault> {
    if MultiCell(cur).Some? then MultiCell(cur) else SingleCell(cur)
  }

  /** Where the search with `(.*?>)\s*(.*)` puts its two groups, when the text has a '>'. */
  function NextChunk(rem: string): Option<(string, string)> {
    match FindChar(rem, '>', 0)
    case None => None
    case Some(g) =>
      var k := SkipWhile(IsCSpace, rem, g + 1);
      Some((rem[LineStart(rem, g)..g + 1], rem[k..LineEnd(rem, k)]))
  }

  lemma NextChunkShorter(rem: string)
    requires NextChunk(rem).Some?
    ensures |NextChunk(rem).value.1| < |rem|
  {
  }

  /**
   * `transformFP`: repeatedly cut the text through its first '>' and keep
   * the primitive read from the piece, continuing after the whitespace that
   * follows.
   */
  function FPsOf(rem: string): seq<Fault>
    decreases |rem|
  {
    match NextChunk(rem)
    case None => []
    case Some((cur, next)) =>
      NextChunkShorter(rem);
      (match Chunk(cur) case Some(f) => [f] case None => []) + FPsOf(next)
  }

  /** One cut of `transformFP`. */
  lemma FPsStep(rem: string)
    requires NextChunk(rem).Some?
    ensures var cut := NextChunk(rem).value;
            FPsOf(rem) == (if Chunk(cut.0).Some? then [Chunk(cut.0).value] else []) + FPsOf(cut.1)
  {
  }

  /** What one line of the file does to the faults read so far: the last line naming a fault decides its primitives. */
  function AfterLine(faults: map<string, seq<Fault>>, line: string): map<string, seq<Fault>> {
    if line == [] then faults
    else
      var (name, fp) := GetFaultnameFP(line);
      if name == [] then faults else faults[name := FPsOf(fp)]
  }

  function AfterLines(faults: map<string, seq<Fault>>, lines: seq<string>): map<string, seq<Fault>>
    decreases |lines|
  {
    if lines == [] then faults else AfterLines(AfterLine(faults, lines[0]), lines[1..])
  }

  /** The name a line stores primitives under, or "" when it stores nothing. */
  function NameOf(line: string): string {
    if line == [] then [] else GetFaultnameFP(line).0
  }

  class FaultParser {
    var faults: map<string, seq<Fault>>

    constructor()
      ensures faults == map[]
    {
      faults := map[];
    }

    /** `parseFP`: `None` is a file that cannot be opened; otherwise its lines are read in order. */
    method ParseFP(file: Option<seq<string>>) returns (ok: bool)
      modifies this
      ensures ok == file.Some?
      ensures faults == if file.Some? then AfterLines(old(faults), file.value) else old(faults)
    {
      if file.None? {
        return false;
      }
      var lines := file.value;
      var i := 0;
      while i < |lines|
        invariant 0 <= i <= |lines|
        invariant AfterLines(old(faults), lines) == AfterLines(faults, lines[i..])
      {
        assert lines[i..][0] == lines[i] && lines[i..][1..] == lines[i + 1..];
        var line := lines[i];
        i := i + 1;
        if line == [] {
          continue;
        }
        var (faultname, fp) := GetFaultnameFP(line);
        if faultname == [] {
          continue;
        }
        var fps := TransformFP(fp);
        faults := faults[faultname := fps];
      }
      assert lines[i..] == [];
      return true;
    }

    /** The loop of `transformFP` over the remaining text. */
    method TransformFP(fp: string) returns (fps: seq<Fault>)
      ensures fps == FPsOf(fp)
    {
      fps := [];
      var remaining := fp;
      while NextChunk(remaining).Some?
        invariant FPsOf(fp) == fps + FPsOf(remaining)
        decreases |remaining|
      {
        var cut := NextChunk(remaining).value;
        NextChunkShorter(remaining);
        FPsStep(remaining);
        var piece := Chunk(cut.0);
        var found := if piece.Some? then [piece.value] else [];
        AppendAssoc(fps, found, FPsOf(cut.1));
        fps := fps + found;
        remaining := cut.1;
      }
      assert fps + [] == fps;
    }
  }

  /**
   * A line without '<' names nothing. Otherwise the name holds no '<' and no
   * line terminator and does not end in whitespace, and the primitives text
   * starts with '<' and holds no line terminator.
   */
  lemma GetFaultnameFPMeaning(line: string)
    ensures '<' !in line ==> GetFaultnameFP(line) == ("", "")
    ensures var name := GetFaultnameFP(line).0;
            '<' !in name && NoTerm(name) && (name != [] ==> !IsCSpace(name[|name| - 1]))
    ensures var fp := GetFaultnameFP(line).1;
            '<' in line ==> fp != [] && fp[0] == '<' && NoTerm(fp)
  {
    match FindChar(line, '<', 0)
    case None =>
      forall m | 0 <= m < |line| ensures line[m] != '<' { }
    case Some(q) =>
      var b := RunStart(line, q);
      var t := LineStart(line, b);
      var k := SkipWhile(IsCSpace, line, q + 1);
      var e := LineEnd(line, k);
      GetFaultnameFPIs(line, q, b, t, k, e);
      NameSlice(line, t, b);
      PrimitivesSlice(line, k, e);
  }

  /** The name slice of `get_faultname_FP` keeps no '<', no terminator and no trailing whitespace. */
  lemma NameSlice(line: string, t: nat, b: nat)
    requires t <= b <= |line|
    requires forall m :: t <= m < b ==> line[m] != '<' && !IsTerm(line[m])
    requires t < b ==> !IsCSpace(line[b - 1])
    ensures var name := line[t..b];
            '<' !in name && NoTerm(name) && (name != [] ==> !IsCSpace(name[|name| - 1]))
  {
    var name := line[t..b];
    forall m | 0 <= m < |name| ensures name[m] == line[t + m] {
    }
  }

  /** The primitives text of `get_faultname_FP` is '<' and a stretch without terminators. */
  lemma PrimitivesSlice(line: string, k: nat, e: nat)
    requires k <= e <= |line| && forall m :: k <= m < e ==> !IsTerm(line[m])
    ensures var fp := "<" + line[k..e];
            fp != [] && fp[0] == '<' && NoTerm(fp)
  {
    var fp := "<" + line[k..e];
    forall m | 0 < m < |fp| ensures fp[m] == line[k + m - 1] {
    }
  }

  /** `get_faultname_FP` on a line whose scan positions are known. */
  lemma GetFaultnameFPIs(line: string, q: nat, b: nat, t: nat, k: nat, e: nat)
    requires q < |line| && line[q] == '<' && forall m :: 0 <= m < q ==> line[m] != '<'
    requires b <= q && (forall m :: b <= m < q ==> IsCSpace(line[m])) && (0 < b ==> !IsCSpace(line[b - 1]))
    requires t <= b && (forall m :: t <= m < b ==> !IsTerm(line[m])) && (0 < t ==> IsTerm(line[t - 1]))
    requires q < k <= |line| && (forall m :: q < m < k ==> IsCSpace(line[m])) && (k < |line| ==> !IsCSpace(line[k]))
    requires k <= e <= |line| && (forall m :: k <= m < e ==> !IsTerm(line[m])) && (e < |line| ==> IsTerm(line[e]))
    ensures GetFaultnameFP(line) == (line[t..b], "<" + line[k..e])
  {
    FindCharFirst(line, '<', 0, q);
    RunStartIs(line, q, b);
    LineStartIs(line, b, t);
    SkipWhileIs(line, q + 1, k);
    LineEndIs(line, k, e);
  }

  /** A line written as a name, whitespace, '<', whitespace and the rest reads back as that name and '<' with the rest. */
  lemma GetFaultnameFPRoundTrip(name: string, gap: string, gap2: string, body: string)
    requires '<' !in name && NoTerm(name) && (name != [] ==> !IsCSpace(name[|name| - 1]))
    requires forall m :: 0 <= m < |gap| ==> IsCSpace(gap[m])
    requires forall m :: 0 <= m < |gap2| ==> IsCSpace(gap2[m])
    requires NoTerm(body) && (body != [] ==> !IsCSpace(body[0]))
    ensures GetFaultnameFP(name + gap + "<" + gap2 + body) == (name, "<" + body)
  {
    var c := name + gap + "<" + gap2;
    HeadLayout(name, gap, gap2);
    HeadThenBody(c, body, |name| + |gap|, |name|);
    assert c[..|name|] == name;
  }

  /** `get_faultname_FP` on a head laid out as name, whitespace, '<' and whitespace, followed by the rest. */
  lemma HeadThenBody(c: string, body: string, q: nat, n: nat)
    requires n <= q < |c| && c[q] == '<'
    requires forall m :: 0 <= m < n ==> c[m] != '<' && !IsTerm(c[m])
    requires 0 < n ==> !IsCSpace(c[n - 1])
    requires forall m :: n <= m < q ==> IsCSpace(c[m]) && c[m] != '<'
    requires forall m :: q < m < |c| ==> IsCSpace(c[m])
    requires NoTerm(body) && (body != [] ==> !IsCSpace(body[0]))
    ensures GetFaultnameFP(c + body) == (c[..n], "<" + body)
  {
    var line := c + body;
    var k := |c|;
    assert line[0..n] == c[..n] && line[k..|line|] == body;
    forall m | 0 <= m < k ensures line[m] == c[m] {
    }
    forall m | k <= m < |line| ensures line[m] == body[m - k] && !IsTerm(line[m]) {
    }
    GetFaultnameFPIs(line, q, n, 0, k, |line|);
  }

  /** The characters of the part of such a line before the rest. */
  lemma HeadLayout(name: string, gap: string, gap2: string)
    requires '<' !in name && NoTerm(name)
    requires forall m :: 0 <= m < |gap| ==> IsCSpace(gap[m])
    requires forall m :: 0 <= m < |gap2| ==> IsCSpace(gap2[m])
    ensures var c, q := name + gap + "<" + gap2, |name| + |gap|;
            && |c| == q + 1 + |gap2| && c[q] == '<'
            && c[..|name|] == name
            && (forall m :: 0 <= m < |name| ==> c[m] == name[m] && c[m] != '<' && !IsTerm(c[m]))
            && (forall m :: |name| <= m < q ==> IsCSpace(c[m]) && c[m] != '<')
            && (forall m :: q < m < |c| ==> IsCSpace(c[m]))
  {
    var a := name + gap + "<";
    var q := |name| + |gap|;
    assert a[q] == '<';
    forall m | 0 <= m < |name| ensures a[m] == name[m] {
      assert a[m] == (name + gap)[m];
    }
    forall m | |name| <= m < q ensures a[m] == gap[m - |name|] {
      assert a[m] == (name + gap)[m];
    }
    assert (name + gap + "<" + gap2)[..|name|] == name;
  }

  lemma {:induction false} RunStartIs(s: string, q: nat, b: nat)
    requires b <= q <= |s| && forall m :: b <= m < q ==> IsCSpace(s[m])
    requires 0 < b ==> !IsCSpace(s[b - 1])
    ensures RunStart(s, q) == b
    decreases q
  {
    if q > b {
      RunStartIs(s, q - 1, b);
    }
  }

  lemma {:induction false} LineStartIs(s: string, j: nat, t: nat)
    requires t <= j <= |s| && forall m :: t <= m < j ==> !IsTerm(s[m])
    requires 0 < t ==> IsTerm(s[t - 1])
    ensures LineStart(s, j) == t
    decreases j
  {
    if j > t {
      LineStartIs(s, j - 1, t);
    }
  }

  lemma {:induction false} SkipWhileIs(s: string, k: nat, j: nat)
    requires k <= j <= |s| && forall m :: k <= m < j ==> IsCSpace(s[m])
    requires j < |s| ==> !IsCSpace(s[j])
    ensures SkipWhile(IsCSpace, s, k) == j
    decreases j - k
  {
    if k < j {
      SkipWhileIs(s, k + 1, j);
    }
  }

  lemma {:induction false} LineEndIs(s: string, k: nat, e: nat)
    requires k <= e <= |s| && forall m :: k <= m < e ==> !IsTerm(s[m])
    requires e < |s| ==> IsTerm(s[e])
    ensures LineEnd(s, k) == e
    decreases e - k
  {
    if k < e {
      LineEndIs(s, k + 1, e);
    }
  }

  /** Occurrences in a slice are occurrences in the whole. */
  lemma CountSlice(s: string, a: nat, b: nat, c: char)
    requires a <= b <= |s|
    ensures multiset(s[a..b])[c] <= multiset(s)[c]
  {
    assert s == s[..a] + s[a..b] + s[b..];
  }

  /** Each primitive read comes from its own '>': there are never more primitives than '>' characters. */
  lemma {:induction false} FPsBound(rem: string)
    ensures |FPsOf(rem)| <= multiset(rem)['>']
    decreases |rem|
  {
    if NextChunk(rem).Some? {
      var next := NextChunk(rem).value.1;
      NextChunkShorter(rem);
      FPsBound(next);
      FPsStep(rem);
      var g := FindChar(rem, '>', 0).value;
      var k := SkipWhile(IsCSpace, rem, g + 1);
      var e := LineEnd(rem, k);
      NextChunkCount(rem, g, k, e);
    }
  }

  lemma NextChunkCount(rem: string, g: nat, k: nat, e: nat)
    requires g < k <= e <= |rem| && rem[g] == '>'
    ensures multiset(rem[k..e])['>'] < multiset(rem)['>']
  {
    var after := rem[g + 1..];
    assert rem[k..e] == after[k - g - 1..e - g - 1];
    CountSlice(after, k - g - 1, e - g - 1, '>');
    assert rem == rem[..g + 1] + after;
    assert rem[..g + 1][g] == '>';
  }

  /** Every primitive read has a non-empty victim without '/', and an aggressor that is "-" or non-empty without ';'. */
  lemma {:induction false} FPsShape(rem: string)
    ensures forall j :: 0 <= j < |FPsOf(rem)| ==>
              var f := FPsOf(rem)[j];
              f.sv != [] && '/' !in f.sv && (f.sa == "-" || (f.sa != [] && ';' !in f.sa))
    decreases |rem|
  {
    match NextChunk(rem)
    case None =>
    case Some((cur, next)) =>
      NextChunkShorter(rem);
      FPsShape(next);
  }

  /** Characters a written primitive's sequences must avoid. */
  predicate Plain(s: string) {
    s != [] && ';' !in s && '/' !in s && '>' !in s && NoTerm(s)
  }

  /** A primitive written out: `<Sv/0/->`, or `<Sa; Sv/0/->` when there is an aggressor. */
  function Render(f: Fault): string {
    if f.sa == "-" then "<" + f.sv + "/0/->" else "<" + f.sa + "; " + f.sv + "/0/->"
  }

  /** Primitives written one after another, each followed by a space. */
  function FPText(fs: seq<Fault>): string {
    if fs == [] then [] else Render(fs[0]) + " " + FPText(fs[1..])
  }

  predicate Writable(f: Fault) {
    Plain(f.sv) && (f.sa == "-" || Plain(f.sa))
  }

  /** A written primitive reads back as itself. */
  lemma RenderChunk(f: Fault)
    requires Writable(f)
    ensures Chunk(Render(f)) == Some(f)
  {
    if f.sa == "-" {
      RenderSingle(f.sv);
    } else {
      RenderMulti(f.sa, f.sv);
    }
  }

  lemma RenderSingle(sv: string)
    requires Plain(sv)
    ensures Chunk("<" + sv + "/0/->") == Some(Fault("-", sv))
  {
    var cur := "<" + sv + "/0/->";
    var x := cur[1..];
    assert x == sv + "/0/->";
    forall m | 0 <= m < |sv| ensures x[m] == sv[m] && x[m] != '/' && x[m] != ';' {
    }
    FindCharFirst(x, '/', 0, |sv|);
    FindCharFirst(x, '>', |sv| + 1, |x| - 1);
    FindCharNone(x, ';', 0);
    assert MultiCell(cur) == None;
    assert x[..|sv|] == sv;
  }

  lemma RenderMulti(sa: string, sv: string)
    requires Plain(sa) && Plain(sv)
    ensures Chunk("<" + sa + "; " + sv + "/0/->") == Some(Fault(sa, sv))
  {
    var x := sa + "; " + sv + "/0/->";
    var i := |sa|;
    var k := i + 2 + |sv|;
    assert |x| == k + 5;
    assert x[i] == ';' && x[i + 1] == ' ' && x[k] == '/' && x[k + 4] == '>';
    assert x[k + 1] == '0' && x[k + 2] == '/' && x[k + 3] == '-';
    forall m | 0 <= m < i ensures x[m] != ';' {
      assert x[m] == sa[m];
    }
    forall m | i + 2 <= m < k ensures x[m] != '/' {
      assert x[m] == sv[m - i - 2];
    }
    assert x[..i] == sa && x[i + 2..k] == sv;
    var cur := "<" + sa + "; " + sv + "/0/->";
    assert cur == "<" + x && cur[1..] == x;
    MultiCellOf(cur, x, i, k);
  }

  /** `MultiCell` on a text `<x` whose ';', '/' and '>' positions in `x` are known. */
  lemma MultiCellOf(cur: string, x: string, i: nat, k: nat)
    requires |cur| > 0 && cur[0] == '<' && cur[1..] == x
    requires 0 < i && i + 2 < k && k + 1 < |x|
    requires x[i] == ';' && x[i + 1] == ' ' && x[k] == '/' && x[|x| - 1] == '>'
    requires forall m :: 0 <= m < i ==> x[m] != ';'
    requires forall m :: i + 2 <= m < k ==> x[m] != '/'
    requires forall m :: k < m < |x| - 1 ==> x[m] != '>'
    ensures MultiCell(cur) == Some(Fault(x[..i], x[i + 2..k]))
  {
    FindCharFirst(x, ';', 0, i);
    FindCharFirst(x, '/', i + 2, k);
    FindCharFirst(x, '>', k + 1, |x| - 1);
  }

  /** The cut of `transformFP` on a text whose scan positions are known. */
  lemma NextChunkIs(rem: string, g: nat, t: nat, k: nat, e: nat)
    requires g < |rem| && rem[g] == '>' && forall m :: 0 <= m < g ==> rem[m] != '>'
    requires t <= g && (forall m :: t <= m < g ==> !IsTerm(rem[m])) && (0 < t ==> IsTerm(rem[t - 1]))
    requires g < k <= |rem| && (forall m :: g < m < k ==> IsCSpace(rem[m])) && (k < |rem| ==> !IsCSpace(rem[k]))
    requires k <= e <= |rem| && (forall m :: k <= m < e ==> !IsTerm(rem[m])) && (e < |rem| ==> IsTerm(rem[e]))
    ensures NextChunk(rem) == Some((rem[t..g + 1], rem[k..e]))
  {
    FindCharFirst(rem, '>', 0, g);
    LineStartIs(rem, g, t);
    SkipWhileIs(rem, g + 1, k);
    LineEndIs(rem, k, e);
  }

  /** The cut after a written primitive leaves the text that follows it. */
  lemma RenderNext(f: Fault, rest: string)
    requires Writable(f) && NoTerm(rest) && (rest != [] ==> rest[0] == '<')
    ensures NextChunk(Render(f) + " " + rest) == Some((Render(f), rest))
  {
    var r := Render(f);
    RenderScan(f);
    var rem := r + " " + rest;
    var g := |r| - 1;
    forall m | 0 <= m < |rem|
      ensures m < |r| ==> rem[m] == r[m]
      ensures m == |r| ==> rem[m] == ' '
      ensures |r| < m ==> rem[m] == rest[m - |r| - 1]
    {
    }
    NextChunkIs(rem, g, 0, g + 2, |rem|);
    assert rem[0..g + 1] == r && rem[g + 2..|rem|] == rest;
  }

  /** Reading written primitives gives them back in order. */
  lemma {:induction false} FPsRoundTrip(fs: seq<Fault>)
    requires forall j :: 0 <= j < |fs| ==> Writable(fs[j])
    ensures FPsOf(FPText(fs)) == fs
    decreases |fs|
  {
    if fs != [] {
      var f := fs[0];
      var rest := FPText(fs[1..]);
      FPsRoundTrip(fs[1..]);
      RenderChunk(f);
      FPTextShape(fs[1..]);
      RenderNext(f, rest);
      var rem := Render(f) + " " + rest;
      assert rem == FPText(fs);
      FPsStep(rem);
      assert [f] + fs[1..] == fs;
    }
  }

  /** A written primitive has its only '>' at its end and no terminator. */
  lemma RenderScan(f: Fault)
    requires Writable(f)
    ensures var r := Render(f);
            |r| >= 2 && r[|r| - 1] == '>' && forall m :: 0 <= m < |r| - 1 ==> r[m] != '>' && !IsTerm(r[m])
  {
    var r := Render(f);
    if f.sa == "-" {
      forall m | 0 <= m < |r| - 1 ensures r[m] != '>' && !IsTerm(r[m]) {
        if 1 <= m <= |f.sv| {
          assert r[m] == f.sv[m - 1];
        }
      }
    } else {
      forall m | 0 <= m < |r| - 1 ensures r[m] != '>' && !IsTerm(r[m]) {
        if 1 <= m <= |f.sa| {
          assert r[m] == f.sa[m - 1];
        } else if |f.sa| + 3 <= m < |f.sa| + 3 + |f.sv| {
          assert r[m] == f.sv[m - |f.sa| - 3];
        }
      }
    }
  }

  /** Written primitives start with '<' (or are empty) and hold no terminator. */
  lemma {:induction false} FPTextShape(fs: seq<Fault>)
    requires forall j :: 0 <= j < |fs| ==> Writable(fs[j])
    ensures var t := FPText(fs);
            NoTerm(t) && (t != [] ==> t[0] == '<')
    decreases |fs|
  {
    if fs != [] {
      FPTextShape(fs[1..]);
      RenderScan(fs[0]);
      var r := Render(fs[0]);
      var rest := FPText(fs[1..]);
      var t := r + " " + rest;
      assert t == FPText(fs);
      forall m | 0 <= m < |t| ensures !IsTerm(t[m]) {
        if m > |r| {
          assert t[m] == rest[m - |r| - 1];
        }
      }
    }
  }

  /** A fault no line names keeps what it had (or stays absent). */
  lemma {:induction false} AfterLinesKeep(faults: map<string, seq<Fault>>, lines: seq<string>, name: string)
    requires forall j :: 0 <= j < |lines| ==> NameOf(lines[j]) != name
    ensures (name in AfterLines(faults, lines) <==> name in faults)
    ensures name in faults ==> AfterLines(faults, lines)[name] == faults[name]
    decreases |lines|
  {
    if lines != [] {
      AfterLinesKeep(AfterLine(faults, lines[0]), lines[1..], name);
    }
  }

  /** The primitives stored under a name are those of the last line naming it. */
  lemma {:induction false} LastLineWins(faults: map<string, seq<Fault>>, lines: seq<string>, k: nat)
    requires k < |lines| && NameOf(lines[k]) != []
    requires forall j :: k < j < |lines| ==> NameOf(lines[j]) != NameOf(lines[k])
    ensures var name := NameOf(lines[k]);
            name in AfterLines(faults, lines)
            && AfterLines(faults, lines)[name] == FPsOf(GetFaultnameFP(lines[k]).1)
    decreases |lines|
  {
    var m' := AfterLine(faults, lines[0]);
    if k > 0 {
      assert lines[1..][k - 1] == lines[k];
      LastLineWins(m', lines[1..], k - 1);
    } else {
      AfterLinesKeep(m', lines[1..], NameOf(lines[0]));
    }
  }
}
