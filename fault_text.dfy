/**
 * The text handling that `main.cpp` and `parser.cpp` share: a fault
 * condition string is cut at every ',' and each field trimmed of blanks and
 * braces; a March string is cut at every ';', each element's operations are
 * the text between its '(' and ')' cut at every ',', and an operation token
 * is a letter followed by a digit.
 */
module FaultText {
  import opened Wrappers
  import opened StdText

  /** The characters `" \t\n\r{}"` erased from both ends of a condition field. */
  predicate IsFieldTrim(c: char) {
    c == ' ' || c == '\t' || c == '\n' || c == '\r' || c == '{' || c == '}'
  }

  /**
   * `field.erase(0, find_first_not_of(..))` then
   * `field.erase(find_last_not_of(..) + 1)`: a field made only of trimmed
   * characters becomes empty.
   */
  function TrimField(f: string): (r: string)
    ensures |r| <= |f|
    ensures r != [] ==> !IsFieldTrim(r[0]) && !IsFieldTrim(r[|r| - 1])
    ensures forall c :: c in r ==> c in f
  {
    var l := LStrip(IsFieldTrim, f);
    var r := RStrip(IsFieldTrim, l);
    assert forall c :: c in r ==> c in l;
    r
  }

  function TrimAll(parts: seq<string>): (r: seq<string>)
    ensures |r| == |parts|
  {
    if parts == [] then [] else [TrimField(parts[0])] + TrimAll(parts[1..])
  }

  /** The fields of a condition string, in order. */
  function ConditionFields(cond: string): seq<string> {
    TrimAll(Split(cond, ','))
  }

  lemma {:induction false} TrimAllAt(parts: seq<string>, k: nat)
    requires k < |parts|
    ensures TrimAll(parts)[k] == TrimField(parts[k])
    decreases k
  {
    if k > 0 {
      TrimAllAt(parts[1..], k - 1);
    }
  }

  /**
   * There is one field per ','-separated piece of the condition; a field
   * holds no ',' and neither starts nor ends with a blank or a brace.
   */
  lemma ConditionFieldsMeaning(cond: string)
    ensures |ConditionFields(cond)| == |Split(cond, ',')|
    ensures forall k :: 0 <= k < |ConditionFields(cond)| ==>
              var f := ConditionFields(cond)[k];
              ',' !in f && |f| <= |Split(cond, ',')[k]|
              && (f != [] ==> !IsFieldTrim(f[0]) && !IsFieldTrim(f[|f| - 1]))
  {
    var parts := Split(cond, ',');
    forall k | 0 <= k < |parts| ensures ConditionFields(cond)[k] == TrimField(parts[k]) {
      TrimAllAt(parts, k);
    }
  }

  /** The `while (getline(ss, field, ','))` loop that collects the trimmed fields. */
  method SplitCondition(cond: string) returns (fields: seq<string>)
    ensures fields == ConditionFields(cond)
  {
    fields := [];
    var rest := cond;
    while rest != []
      invariant fields + TrimAll(Split(rest, ',')) == ConditionFields(cond)
      decreases |rest|
    {
      var field, after := Getline(rest, ',');
      var tail := Split(after, ',');
      assert ([field] + tail)[1..] == tail;
      fields := fields + [TrimField(field)];
      rest := after;
    }
  }

  /** Fields without ',' whose last one is not empty come back from the condition string that joins them. */
  lemma {:induction false} SplitJoinFields(parts: seq<string>, d: char)
    requires parts != [] && parts[|parts| - 1] != []
    requires forall k :: 0 <= k < |parts| ==> d !in parts[k]
    ensures Split(Join(parts, d), d) == parts
    decreases |parts|
  {
    var h := parts[0];
    if |parts| > 1 {
      var rest := parts[1..];
      var s := h + [d] + Join(rest, d);
      assert Join(parts, d) == s;
      forall m | 0 <= m < |h| ensures s[m] != d {
        assert s[m] == h[m];
      }
      FindCharFirst(s, d, 0, |h|);
      SplitAt(s, d, |h|);
      assert s[..|h|] == h && s[|h| + 1..] == Join(rest, d);
      SplitJoinFields(rest, d);
      assert parts == [h] + rest;
    } else {
      assert Join(parts, d) == h;
      assert FindChar(h, d, 0) == None;
    }
  }

  /** A field that neither starts nor ends with a trimmed character is left as it is. */
  lemma TrimFieldKeeps(f: string)
    requires f != [] ==> !IsFieldTrim(f[0]) && !IsFieldTrim(f[|f| - 1])
    ensures TrimField(f) == f
  {
    assert LStrip(IsFieldTrim, f) == f;
  }

  /**
   * Condition fields that hold no ',' and need no trimming are what the
   * parser reads back from the string that joins them with ','.
   */
  lemma ConditionFieldsOfJoin(fields: seq<string>)
    requires fields != [] && fields[|fields| - 1] != []
    requires forall k :: 0 <= k < |fields| ==> ',' !in fields[k]
    requires forall k :: 0 <= k < |fields| && fields[k] != [] ==>
               !IsFieldTrim(fields[k][0]) && !IsFieldTrim(fields[k][|fields[k]| - 1])
    ensures ConditionFields(Join(fields, ',')) == fields
  {
    SplitJoinFields(fields, ',');
    forall k | 0 <= k < |fields| ensures TrimAll(fields)[k] == fields[k] {
      TrimAllAt(fields, k);
      TrimFieldKeeps(fields[k]);
    }
  }

  /** An element walks the addresses downwards when its first character is 'd' (an empty element reads NUL). */
  predicate StartsWithD(elem: string) {
    CharAt(elem, 0) == Some('d')
  }

  /**
   * `elem.substr(p + 1, elem.find(')') - p - 1)` after `p = elem.find('(')`:
   * the text after the first '(' up to the first ')' when that comes later,
   * otherwise (no ')', or one before the '(' making the length wrap around)
   * everything after the '('. An element without '(' is skipped.
   */
  function ElementBody(elem: string): (r: Option<string>)
    ensures r.None? <==> '(' !in elem
    ensures r.Some? ==> |r.value| < |elem|
  {
    match FindChar(elem, '(', 0)
    case None => None
    case Some(p) =>
      match FindChar(elem, ')', 0)
      case Some(q) => if q > p then Some(elem[p + 1..q]) else Some(elem[p + 1..])
      case None => Some(elem[p + 1..])
  }

  /** With the first ')' after the first '(', the body is exactly the text between them. */
  lemma ElementBodyBetween(pre: string, body: string, post: string)
    requires '(' !in pre && ')' !in pre && ')' !in body
    ensures ElementBody(pre + "(" + body + ")" + post) == Some(body)
  {
    var e := pre + "(" + body + ")" + post;
    var p, q := |pre|, |pre| + 1 + |body|;
    assert |e| > q && e[p] == '(' && e[q] == ')';
    forall m | 0 <= m < p ensures e[m] == pre[m] {
    }
    forall m | 0 <= m < |body| ensures e[p + 1 + m] == body[m] && e[p + 1..q][m] == body[m] {
    }
    FindCharFirst(e, '(', 0, p);
    FindCharFirst(e, ')', 0, q);
    assert e[p + 1..q] == body;
  }

  /** The operation tokens of an element's body. */
  function BodyTokens(body: string): seq<string> {
    Split(body, ',')
  }

  /**
   * An operation token: whether its first character is `readLetter` (an
   * empty token reads NUL there) and its second character minus '0' (NUL
   * for a one-character token); reading the second character of an empty
   * token is undefined behaviour (`None`).
   */
  function DecodeOp(tok: string, readLetter: char): (r: Option<(bool, int)>)
    ensures r.Some? <==> tok != []
  {
    match CharAt(tok, 1)
    case None => None
    case Some(v) => Some((CharAt(tok, 0) == Some(readLetter), v as int - '0' as int))
  }

  /** A two-character token is decoded into its letter test and its digit value. */
  lemma DecodeOpMeaning(tok: string, readLetter: char)
    requires |tok| == 2
    ensures DecodeOp(tok, readLetter) == Some((tok[0] == readLetter, tok[1] as int - '0' as int))
  {
  }

  /** An operation token as read: whether it reads, and its value. */
  datatype RawOp = RawOp(isRead: bool, value: int)

  /** A March element as read: whether it walks downwards, and its operations. */
  datatype RawElement = RawElement(descending: bool, ops: seq<RawOp>)

  /** The operation tokens decoded in order; `None` when one of them is empty. */
  function RawOps(toks: seq<string>, readLetter: char): (r: Option<seq<RawOp>>)
    ensures r.Some? ==> |r.value| == |toks|
  {
    if toks == [] then Some([])
    else match (DecodeOp(toks[0], readLetter), RawOps(toks[1..], readLetter))
      case (Some((isRead, v)), Some(rest)) => Some([RawOp(isRead, v)] + rest)
      case _ => None
  }

  /**
   * The elements of a March string already cut at ';', in order: an element
   * without '(' is skipped, and an empty operation token (read past its
   * end) makes the result undefined (`None`).
   */
  function RawMarch(elems: seq<string>): Option<seq<RawElement>> {
    if elems == [] then Some([])
    else
      var rest := RawMarch(elems[1..]);
      match ElementBody(elems[0])
      case None => rest
      case Some(body) =>
        match (RawOps(BodyTokens(body), 'r'), rest)
        case (Some(ops), Some(r)) => Some([RawElement(StartsWithD(elems[0]), ops)] + r)
        case _ => None
  }

  /** The `while (getline(oss, op, ','))` loop over the operation tokens of a body. */
  method ParseOps(body: string, readLetter: char) returns (r: Option<seq<RawOp>>)
    ensures r == RawOps(Split(body, ','), readLetter)
  {
    var ops: seq<RawOp> := [];
    var rest := body;
    PrependSomeNil(RawOps(Split(body, ','), readLetter));
    while rest != []
      invariant RawOps(Split(body, ','), readLetter) == PrependSome(ops, RawOps(Split(rest, ','), readLetter))
      decreases |rest|
    {
      var tok, after := Getline(rest, ',');
      var tail := Split(after, ',');
      assert ([tok] + tail)[0] == tok && ([tok] + tail)[1..] == tail;
      var op := DecodeOp(tok, readLetter);
      if op.None? {
        return None;
      }
      var raw := RawOp(op.value.0, op.value.1);
      assert RawOps(Split(rest, ','), readLetter) == PrependSome([raw], RawOps(tail, readLetter));
      PrependSomeStep(ops, raw, RawOps(tail, readLetter));
      ops := ops + [raw];
      rest := after;
    }
    PrependSomeEnd(ops);
    return Some(ops);
  }

  /** How `RawMarch` treats the first element. */
  lemma RawMarchCons(elem: string, tail: seq<string>)
    ensures ElementBody(elem).None? ==> RawMarch([elem] + tail) == RawMarch(tail)
    ensures ElementBody(elem).Some? ==>
              var ops := RawOps(BodyTokens(ElementBody(elem).value), 'r');
              RawMarch([elem] + tail) ==
                if ops.None? then None else PrependSome([RawElement(StartsWithD(elem), ops.value)], RawMarch(tail))
  {
    assert ([elem] + tail)[0] == elem && ([elem] + tail)[1..] == tail;
  }

  /** The `while (getline(ss, elem, ';'))` loop of both March-string parsers. */
  method SplitMarch(march: string) returns (r: Option<seq<RawElement>>)
    ensures r == RawMarch(Split(march, ';'))
  {
    var elems: seq<RawElement> := [];
    var rest := march;
    PrependSomeNil(RawMarch(Split(march, ';')));
    while rest != []
      invariant RawMarch(Split(march, ';')) == PrependSome(elems, RawMarch(Split(rest, ';')))
      decreases |rest|
    {
      var elem, after := Getline(rest, ';');
      RawMarchCons(elem, Split(after, ';'));
      rest := after;
      var body := ElementBody(elem);
      if body.None? {
        continue;
      }
      var ops := ParseOps(body.value, 'r');
      if ops.None? {
        return None;
      }
      var e := RawElement(StartsWithD(elem), ops.value);
      PrependSomeStep(elems, e, RawMarch(Split(after, ';')));
      elems := elems + [e];
    }
    PrependSomeEnd(elems);
    return Some(elems);
  }

  /** The character of a decimal digit. */
  function DigitChar(v: int): (c: char)
    requires 0 <= v <= 9
    ensures IsDigit(c) && c as int - '0' as int == v
  {
    ('0' as int + v) as char
  }

  /** Every operation value is a single digit. */
  predicate DigitOps(ops: seq<RawOp>) {
    forall k :: 0 <= k < |ops| ==> 0 <= ops[k].value <= 9
  }

  /** The tokens of operations written as a letter and a digit. */
  function OpTokens(ops: seq<RawOp>, readLetter: char, writeLetter: char): (r: seq<string>)
    requires DigitOps(ops)
    ensures |r| == |ops|
    ensures forall k :: 0 <= k < |ops| ==>
              r[k] == [if ops[k].isRead then readLetter else writeLetter, DigitChar(ops[k].value)]
  {
    seq(|ops|, k requires 0 <= k < |ops| => [if ops[k].isRead then readLetter else writeLetter, DigitChar(ops[k].value)])
  }

  /** A March element written out: 'd' or 'a', then its operation tokens in parentheses. */
  function ElementText(e: RawElement): string
    requires DigitOps(e.ops)
  {
    [if e.descending then 'd' else 'a'] + "(" + Join(OpTokens(e.ops, 'r', 'w'), ',') + ")"
  }

  predicate DigitMarch(es: seq<RawElement>) {
    forall k :: 0 <= k < |es| ==> DigitOps(es[k].ops)
  }

  /** A March test written out as its elements joined with ';'. */
  function MarchText(es: seq<RawElement>): string
    requires DigitMarch(es)
  {
    Join(seq(|es|, k requires 0 <= k < |es| => ElementText(es[k])), ';')
  }

  /** A character in none of the parts, and not the delimiter, is not in their join. */
  lemma {:induction false} NotInJoin(parts: seq<string>, d: char, x: char)
    requires x != d && forall k :: 0 <= k < |parts| ==> x !in parts[k]
    ensures x !in Join(parts, d)
    decreases |parts|
  {
    if |parts| > 1 {
      NotInJoin(parts[1..], d, x);
      assert Join(parts, d) == parts[0] + [d] + Join(parts[1..], d);
    }
  }

  /** Decoding the tokens of written-out operations gives the operations back. */
  lemma {:induction false} RawOpsOfTokens(ops: seq<RawOp>)
    requires DigitOps(ops)
    ensures RawOps(OpTokens(ops, 'r', 'w'), 'r') == Some(ops)
    decreases |ops|
  {
    if ops != [] {
      var toks := OpTokens(ops, 'r', 'w');
      assert toks[1..] == OpTokens(ops[1..], 'r', 'w');
      RawOpsOfTokens(ops[1..]);
      DecodeOpMeaning(toks[0], 'r');
      assert [ops[0]] + ops[1..] == ops;
    }
  }

  /** The body of a written-out element splits back into its operations. */
  lemma ElementTextBack(e: RawElement)
    requires DigitOps(e.ops)
    ensures ElementBody(ElementText(e)) == Some(Join(OpTokens(e.ops, 'r', 'w'), ','))
    ensures RawOps(BodyTokens(Join(OpTokens(e.ops, 'r', 'w'), ',')), 'r') == Some(e.ops)
    ensures StartsWithD(ElementText(e)) == e.descending
  {
    var toks := OpTokens(e.ops, 'r', 'w');
    var body := Join(toks, ',');
    forall k | 0 <= k < |toks| ensures ')' !in toks[k] && ',' !in toks[k] {
      assert toks[k] == [toks[k][0], toks[k][1]];
    }
    NotInJoin(toks, ',', ')');
    ElementBodyBetween([if e.descending then 'd' else 'a'], body, "");
    assert ElementText(e) == [if e.descending then 'd' else 'a'] + "(" + body + ")" + "";
    if toks != [] {
      SplitJoinFields(toks, ',');
    }
    RawOpsOfTokens(e.ops);
  }

  /** Decoding written-out elements, one text each, gives the elements back. */
  lemma {:induction false} RawMarchOfTexts(es: seq<RawElement>, texts: seq<string>)
    requires DigitMarch(es) && |texts| == |es|
    requires forall k :: 0 <= k < |es| ==> texts[k] == ElementText(es[k])
    ensures RawMarch(texts) == Some(es)
    decreases |es|
  {
    if es != [] {
      RawMarchOfTexts(es[1..], texts[1..]);
      ElementTextBack(es[0]);
      assert [es[0]] + es[1..] == es;
    }
  }

  /**
   * The parsers read back every March test written with 'a'/'d', one
   * letter-and-digit token per operation: the written text parses to the
   * elements it was written from.
   */
  lemma MarchTextRoundTrip(es: seq<RawElement>)
    requires DigitMarch(es)
    ensures RawMarch(Split(MarchText(es), ';')) == Some(es)
  {
    var texts := seq(|es|, k requires 0 <= k < |es| => ElementText(es[k]));
    if es != [] {
      forall k | 0 <= k < |texts| ensures ';' !in texts[k] {
        var toks := OpTokens(es[k].ops, 'r', 'w');
        forall j | 0 <= j < |toks| ensures ';' !in toks[j] {
          assert toks[j] == [toks[j][0], toks[j][1]];
        }
        NotInJoin(toks, ',', ';');
      }
      assert texts[|texts| - 1] != [];
      SplitJoinFields(texts, ';');
    }
    RawMarchOfTexts(es, texts);
  }
}
