/**
 * The string primitives of the two host languages that the parsers rely on:
 * C++ `std::getline` with a delimiter, `find`/`find_first_not_of`-style
 * scanning, `std::stoi`, and Python's `str.strip`/`lstrip`/`rstrip`.
 */
module StdText {
  import opened Wrappers

  /** C `isspace` in the "C" locale (also ECMAScript `\s` as std::regex uses it). */
  predicate IsCSpace(c: char) {
    c == ' ' || '\t' <= c <= '\r'
  }

  /** Python's `str.isspace` for one character (also `\s` in a `str` pattern). */
  predicate IsPySpace(c: char) {
    c == ' ' || '\t' <= c <= '\r' || '\U{1c}' <= c <= '\U{1f}' || c == '\U{85}' || c == '\U{a0}'
    || c == '\U{1680}' || '\U{2000}' <= c <= '\U{200a}' || c == '\U{2028}' || c == '\U{2029}'
    || c == '\U{202f}' || c == '\U{205f}' || c == '\U{3000}'
  }

  predicate IsDigit(c: char) {
    '0' <= c <= '9'
  }

  predicate IsHexDigit(c: char) {
    '0' <= c <= '9' || 'a' <= c <= 'f' || 'A' <= c <= 'F'
  }

  /** Index of the first character at or after `k` that does not satisfy `p`. */
  function SkipWhile(p: char -> bool, s: string, k: nat): (j: nat)
    requires k <= |s|
    ensures k <= j <= |s|
    ensures forall m :: k <= m < j ==> p(s[m])
    ensures j < |s| ==> !p(s[j])
    decreases |s| - k
  {
    if k == |s| || !p(s[k]) then k else SkipWhile(p, s, k + 1)
  }

  /** `s.find(c, k)`: the first index at or after `k` holding `c`. */
  function FindChar(s: string, c: char, k: nat): (r: Option<nat>)
    requires k <= |s|
    ensures r.Some? ==> k <= r.value < |s| && s[r.value] == c
    ensures r.Some? ==> forall m :: k <= m < r.value ==> s[m] != c
    ensures r.None? ==> forall m :: k <= m < |s| ==> s[m] != c
    decreases |s| - k
  {
    if k == |s| then None
    else if s[k] == c then Some(k)
    else FindChar(s, c, k + 1)
  }

  /** The first `c` at or after `k` is what `FindChar` finds. */
  lemma {:induction false} FindCharFirst(s: string, c: char, k: nat, i: nat)
    requires k <= i < |s| && s[i] == c
    requires forall m :: k <= m < i ==> s[m] != c
    ensures FindChar(s, c, k) == Some(i)
    decreases i - k
  {
    if k < i {
      FindCharFirst(s, c, k + 1, i);
    }
  }

  /** True when `pat` occurs in `s` starting exactly at index `k`. */
  predicate OccursAt(s: string, pat: string, k: nat) {
    k + |pat| <= |s| && s[k..k + |pat|] == pat
  }

  /** The first index at or after `k` where `pat` occurs in `s`. */
  function FindSub(s: string, pat: string, k: nat): (r: Option<nat>)
    requires k <= |s|
    ensures r.Some? ==> k <= r.value && OccursAt(s, pat, r.value)
    ensures r.Some? ==> forall m :: k <= m < r.value ==> !OccursAt(s, pat, m)
    ensures r.None? ==> forall m :: k <= m <= |s| ==> !OccursAt(s, pat, m)
    decreases |s| - k
  {
    if OccursAt(s, pat, k) then Some(k)
    else if k == |s| then None
    else FindSub(s, pat, k + 1)
  }

  predicate StartsWith(s: string, prefix: string) {
    |prefix| <= |s| && s[..|prefix|] == prefix
  }

  /** `s` with its leading characters satisfying `p` removed. */
  function LStrip(p: char -> bool, s: string): (r: string)
    ensures |r| <= |s| && r == s[|s| - |r|..]
    ensures forall m :: 0 <= m < |s| - |r| ==> p(s[m])
    ensures r != [] ==> !p(r[0])
  {
    s[SkipWhile(p, s, 0)..]
  }

  /** `s` with its trailing characters satisfying `p` removed. */
  function RStrip(p: char -> bool, s: string): (r: string)
    ensures |r| <= |s| && r == s[..|r|]
    ensures forall m :: |r| <= m < |s| ==> p(s[m])
    ensures r != [] ==> !p(r[|r| - 1])
    decreases |s|
  {
    if s != [] && p(s[|s| - 1]) then RStrip(p, s[..|s| - 1]) else s
  }

  function Strip(p: char -> bool, s: string): string {
    RStrip(p, LStrip(p, s))
  }

  /** The value of a run of decimal digits. */
  function DigitsValue(s: string): (v: nat)
    requires forall m :: 0 <= m < |s| ==> IsDigit(s[m])
    decreases |s|
  {
    if s == [] then 0
    else
      var last := s[|s| - 1];
      assert IsDigit(last);
      10 * DigitsValue(s[..|s| - 1]) + (last as int - '0' as int)
  }

  /**
   * The fields `std::getline(ss, field, d)` yields in turn: text between
   * delimiters, where a delimiter at the very end (or an empty input) yields
   * no final empty field.
   */
  function Split(s: string, d: char): (r: seq<string>)
    ensures forall k :: 0 <= k < |r| ==> d !in r[k]
    ensures s == [] <==> r == []
    decreases |s|
  {
    if s == [] then []
    else match FindChar(s, d, 0)
      case None => [s]
      case Some(i) => [s[..i]] + Split(s[i + 1..], d)
  }

  /**
   * One `std::getline(ss, field, d)` call on the unread text `rest` of the
   * stream: the field it yields and the text left after it.
   */
  method Getline(rest: string, d: char) returns (field: string, after: string)
    requires rest != []
    ensures Split(rest, d) == [field] + Split(after, d)
    ensures |after| < |rest| && d !in field
  {
    match FindChar(rest, d, 0)
    case None =>
      field, after := rest, [];
    case Some(i) =>
      field, after := rest[..i], rest[i + 1..];
  }

  /**
   * `s[i]` on a `std::string`: index `size()` reads the terminating NUL;
   * any index beyond it is undefined behaviour, modelled as `None`.
   */
  function CharAt(s: string, i: nat): (r: Option<char>)
    ensures r.Some? <==> i <= |s|
  {
    if i < |s| then Some(s[i]) else if i == |s| then Some('\0') else None
  }

  /** The fields joined back with the delimiter between them. */
  function Join(parts: seq<string>, d: char): string
    decreases |parts|
  {
    if parts == [] then []
    else if |parts| == 1 then parts[0]
    else parts[0] + [d] + Join(parts[1..], d)
  }

  lemma AppendAssoc<T>(a: seq<T>, b: seq<T>, c: seq<T>)
    ensures a + (b + c) == (a + b) + c
  {
  }

  /** A prefix one longer is the prefix and the next element. */
  lemma TakeSnoc<T>(s: seq<T>, j: int)
    requires 0 <= j < |s|
    ensures s[..j] + [s[j]] == s[..j + 1]
  {
  }

  lemma JoinCons(head: string, parts: seq<string>, d: char)
    requires parts != []
    ensures Join([head] + parts, d) == head + [d] + Join(parts, d)
  {
    var all := [head] + parts;
    assert all[0] == head && all[1..] == parts;
  }

  /** The first field ends at the first delimiter; the others come from what follows it. */
  lemma SplitAt(s: string, d: char, i: nat)
    requires FindChar(s, d, 0) == Some(i)
    ensures s == s[..i] + [d] + s[i + 1..]
    ensures Split(s, d) == [s[..i]] + Split(s[i + 1..], d)
  {
  }

  /**
   * Splitting loses only a trailing delimiter: joining the fields gives the
   * input back, with one delimiter appended when the input ended in one.
   */
  lemma {:induction false} SplitJoin(s: string, d: char)
    ensures s != [] && s[|s| - 1] == d ==> Join(Split(s, d), d) + [d] == s
    ensures s == [] || s[|s| - 1] != d ==> Join(Split(s, d), d) == s
    decreases |s|
  {
    if s != [] {
      match FindChar(s, d, 0)
      case None =>
        assert Split(s, d) == [s];
      case Some(i) =>
        var head, rest := s[..i], s[i + 1..];
        SplitAt(s, d, i);
        if rest == [] {
          assert Split(s, d) == [head];
          assert s == head + [d];
        } else {
          SplitJoin(rest, d);
          assert rest[|rest| - 1] == s[|s| - 1];
          JoinCons(head, Split(rest, d), d);
          var joined := Join(Split(rest, d), d);
          assert Join(Split(s, d), d) == head + [d] + joined;
          if s[|s| - 1] == d {
            AppendAssoc(head + [d], joined, [d]);
          }
        }
    }
  }

  /** A property of every character of `s[b..c]` is one of every character of that slice. */
  lemma SliceAll(p: char -> bool, s: string, b: int, c: int)
    requires 0 <= b <= c <= |s| && forall m :: b <= m < c ==> p(s[m])
    ensures forall m :: 0 <= m < c - b ==> p(s[b..c][m])
  {
    forall m | 0 <= m < c - b ensures p(s[b..c][m]) {
      assert s[b..c][m] == s[b + m];
    }
  }

  datatype NumberError = InvalidArgument | OutOfRange

  const INT_MIN: int := -0x8000_0000
  const INT_MAX: int := 0x7fff_ffff

  /**
   * `std::stoi(s)` in base 10: leading white space, an optional sign, then at
   * least one digit (the longest run is read); anything after the digits is
   * ignored. No digits throws `invalid_argument`; a value outside a 32-bit
   * `int` throws `out_of_range`.
   */
  function Stoi(s: string): (r: Result<int, NumberError>)
    ensures r.Ok? ==> INT_MIN <= r.value <= INT_MAX
    ensures r == Err(InvalidArgument) <==>
              (var a := SkipWhile(IsCSpace, s, 0);
               var b := if a < |s| && (s[a] == '+' || s[a] == '-') then a + 1 else a;
               b == |s| || !IsDigit(s[b]))
  {
    var a := SkipWhile(IsCSpace, s, 0);
    var negative := a < |s| && s[a] == '-';
    var b := if a < |s| && (s[a] == '+' || s[a] == '-') then a + 1 else a;
    var c := SkipWhile(IsDigit, s, b);
    if c == b then Err(InvalidArgument)
    else
      var digits := s[b..c];
      SliceAll(IsDigit, s, b, c);
      var magnitude: int := DigitsValue(digits);
      var v := if negative then -magnitude else magnitude;
      if INT_MIN <= v <= INT_MAX then Ok(v) else Err(OutOfRange)
  }
}
