/** One line of an LCOV tracefile as the coverage checker reads it: the
    whitespace that Python's `str.strip` removes, the decimal payload of an
    `LF:` or `LH:` directive, and the classification of a stripped line into
    the four directives the checker acts on. */
module LcovLines {

  datatype Option<T> = None | Some(value: T)

  /** The characters below U+0080 that `str.strip()` treats as whitespace. */
  predicate IsSpace(c: char) {
    c == ' ' || c == '\t' || c == '\n' || c == '\r' || c == '\U{0B}' || c == '\U{0C}'
    || ('\U{1C}' <= c <= '\U{1F}')
  }

  /** The characters `int()` skips around the digits of an ASCII string:
      fewer than `str.strip` removes (U+001C to U+001F are not among them). */
  predicate IsIntSpace(c: char) {
    c == ' ' || c == '\t' || c == '\n' || c == '\r' || c == '\U{0B}' || c == '\U{0C}'
  }

  /** Every character of `s` is one that `blank` holds for. */
  predicate AllBlank(s: string, blank: char -> bool) {
    forall i :: 0 <= i < |s| ==> blank(s[i])
  }

  predicate AllSpaces(s: string) {
    AllBlank(s, IsSpace)
  }

  predicate AllIntSpaces(s: string) {
    AllBlank(s, IsIntSpace)
  }

  /** `s` without its leading `blank` characters. */
  function TrimStart(s: string, blank: char -> bool): (r: string)
    ensures |r| <= |s| && r == s[|s| - |r|..]
    ensures AllBlank(s[..|s| - |r|], blank)
    ensures r == [] || !blank(r[0])
  {
    if s != [] && blank(s[0]) then TrimStart(s[1..], blank) else s
  }

  /** `s` without its trailing `blank` characters. */
  function TrimEnd(s: string, blank: char -> bool): (r: string)
    ensures |r| <= |s| && r == s[..|r|]
    ensures AllBlank(s[|r|..], blank)
    ensures r == [] || !blank(r[|r| - 1])
  {
    if s != [] && blank(s[|s| - 1]) then TrimEnd(s[..|s| - 1], blank) else s
  }

  /** `s` without the `blank` characters at either end. */
  function Trim(s: string, blank: char -> bool): (r: string)
    ensures |r| <= |s|
    ensures r == [] || (!blank(r[0]) && !blank(r[|r| - 1]))
  {
    TrimEnd(TrimStart(s, blank), blank)
  }

  lemma {:induction false} TrimStartPadded(w: string, t: string, blank: char -> bool)
    requires AllBlank(w, blank)
    requires t == [] || !blank(t[0])
    ensures TrimStart(w + t, blank) == t
    decreases |w|
  {
    if w == [] {
      assert w + t == t;
    } else {
      assert (w + t)[1..] == w[1..] + t;
      TrimStartPadded(w[1..], t, blank);
    }
  }

  lemma {:induction false} TrimEndPadded(t: string, w: string, blank: char -> bool)
    requires AllBlank(w, blank)
    requires t == [] || !blank(t[|t| - 1])
    ensures TrimEnd(t + w, blank) == t
    decreases |w|
  {
    if w == [] {
      assert t + w == t;
    } else {
      assert (t + w)[..|t + w| - 1] == t + w[..|w| - 1];
      TrimEndPadded(t, w[..|w| - 1], blank);
    }
  }

  /** Trimming removes exactly the surrounding `blank` characters: a text
      that does not itself begin or end with one comes back unchanged,
      however it was padded. */
  lemma TrimPadded(lead: string, t: string, trail: string, blank: char -> bool)
    requires AllBlank(lead, blank) && AllBlank(trail, blank)
    requires t == [] || (!blank(t[0]) && !blank(t[|t| - 1]))
    ensures Trim(lead + t + trail, blank) == t
  {
    if t == [] {
      assert lead + t + trail == lead + trail;
      TrimStartPadded(lead + trail, [], blank);
      assert lead + trail + [] == lead + trail;
      TrimEndPadded([], [], blank);
    } else {
      assert lead + t + trail == lead + (t + trail);
      TrimStartPadded(lead, t + trail, blank);
      TrimEndPadded(t, trail, blank);
    }
  }

  /** Python's `s.strip()`: neither end of the result is whitespace. */
  function Strip(s: string): (r: string)
    ensures |r| <= |s|
    ensures r == [] || (!IsSpace(r[0]) && !IsSpace(r[|r| - 1]))
  {
    Trim(s, IsSpace)
  }

  /** A string that neither begins nor ends with whitespace. */
  predicate Unpadded(t: string) {
    t == [] || (!IsSpace(t[0]) && !IsSpace(t[|t| - 1]))
  }

  /** Stripping removes exactly the surrounding whitespace. */
  lemma StripPadded(lead: string, t: string, trail: string)
    requires AllSpaces(lead) && AllSpaces(trail)
    requires Unpadded(t)
    ensures Strip(lead + t + trail) == t
  {
    TrimPadded(lead, t, trail, IsSpace);
  }

  /** Stripping twice is stripping once. */
  lemma StripIdempotent(s: string)
    ensures Strip(Strip(s)) == Strip(s)
  {
  }

  predicate IsDigit(c: char) {
    '0' <= c <= '9'
  }

  predicate AllDigits(s: string) {
    forall i :: 0 <= i < |s| ==> IsDigit(s[i])
  }

  function DigitValue(c: char): (d: nat)
    requires IsDigit(c)
    ensures d < 10
  {
    c as int - '0' as int
  }

  function DigitChar(d: nat): (c: char)
    requires d < 10
    ensures IsDigit(c) && DigitValue(c) == d
  {
    ('0' as int + d) as char
  }

  /** The value of a run of decimal digits, most significant first. */
  function DecimalValue(s: string): nat
    requires AllDigits(s)
  {
    if s == [] then 0 else DecimalValue(s[..|s| - 1]) * 10 + DigitValue(s[|s| - 1])
  }

  /** The shortest decimal rendering of `n` (no leading zeros). */
  function Decimal(n: nat): (s: string)
    ensures s != [] && AllDigits(s)
  {
    if n < 10 then [DigitChar(n)] else Decimal(n / 10) + [DigitChar(n % 10)]
  }

  /** The text `int()` converts: the payload without the characters it skips
      at either end. */
  function IntTrim(s: string): (r: string)
    ensures |r| <= |s|
    ensures r == [] || (!IsIntSpace(r[0]) && !IsIntSpace(r[|r| - 1]))
  {
    Trim(s, IsIntSpace)
  }

  /** The count carried by an `LF:`/`LH:` payload. Once the characters
      `int()` skips are trimmed, the payload must be a non-empty run of
      ASCII digits; anything else is `None`. A payload read as a count is
      one `int()` converts to that count, unless it has more digits than the
      limit `int()` sets by default from Python 3.11 on (4300). */
  function ParseCount(payload: string): (r: Option<nat>)
    ensures r.Some? <==> IntTrim(payload) != [] && AllDigits(IntTrim(payload))
  {
    var t := IntTrim(payload);
    if t != [] && AllDigits(t) then Some(DecimalValue(t)) else None
  }

  lemma {:induction false} DecimalValueOfDecimal(n: nat)
    ensures DecimalValue(Decimal(n)) == n
  {
    var s := Decimal(n);
    if n >= 10 {
      assert s[..|s| - 1] == Decimal(n / 10);
      DecimalValueOfDecimal(n / 10);
    }
  }

  /** `int()` skips exactly the surrounding characters of its whitespace
      set: a non-empty text that does not begin or end with one of them comes
      back unchanged, however it was padded. */
  lemma IntTrimPadded(lead: string, t: string, trail: string)
    requires AllIntSpaces(lead) && AllIntSpaces(trail)
    requires t != [] && !IsIntSpace(t[0]) && !IsIntSpace(t[|t| - 1])
    ensures IntTrim(lead + t + trail) == t
  {
    TrimPadded(lead, t, trail, IsIntSpace);
  }

  /** A count surrounded by characters `int()` skips reads as that count. */
  lemma ParseCountSkipsIntSpaces(lead: string, n: nat, trail: string)
    requires AllIntSpaces(lead) && AllIntSpaces(trail)
    ensures ParseCount(lead + Decimal(n) + trail) == Some(n)
  {
    var s := Decimal(n);
    assert IsDigit(s[0]) && IsDigit(s[|s| - 1]);
    IntTrimPadded(lead, s, trail);
    DecimalValueOfDecimal(n);
  }

  /** Reading back a rendered count gives the count. */
  lemma ParseCountDecimal(n: nat)
    ensures ParseCount(Decimal(n)) == Some(n)
  {
    assert [] + Decimal(n) + [] == Decimal(n);
    ParseCountSkipsIntSpaces([], n, []);
  }

  /** A file separator (U+001C) in front of a count is stripped from the
      line but not skipped by `int()`: the payload is no count. */
  lemma FileSeparatorIsNoCount(rest: string)
    ensures ParseCount("\U{1C}" + rest) == None
  {
  }

  /** Stripping leaves an `LF:` line alone when its last character is no
      whitespace, whatever whitespace-like characters it holds inside. */
  lemma SeparatorLineUnstripped(rest: string)
    requires rest != [] && !IsSpace(rest[|rest| - 1])
    ensures Strip("LF:" + ("\U{1C}" + rest)) == "LF:" + ("\U{1C}" + rest)
  {
    var line := "LF:" + ("\U{1C}" + rest);
    assert line[0] == 'L' && line[|line| - 1] == rest[|rest| - 1];
    assert [] + line + [] == line;
    StripPadded([], line, []);
  }

  /** An `LF:` text whose payload starts with a file separator (U+001C) is
      a malformed count, since `int()` does not skip that character. */
  lemma SeparatorTextIsBadCount(rest: string)
    ensures ClassifyText("LF:" + ("\U{1C}" + rest)) == BadCount("\U{1C}" + rest)
  {
    var payload := "\U{1C}" + rest;
    var t := "LF:" + payload;
    assert t[..3] == "LF:" && t[3..] == payload;
    assert !HasPrefix(t, "SF:") by { assert t[0] != 'S'; }
    FileSeparatorIsNoCount(rest);
  }

  /** The same holds for the whole line: stripping it keeps the separator.
      `LF:` U+001C `10` is one such line. */
  lemma FileSeparatorLineIsBadCount(rest: string)
    requires rest != [] && !IsSpace(rest[|rest| - 1])
    ensures Classify("LF:" + ("\U{1C}" + rest)) == BadCount("\U{1C}" + rest)
  {
    SeparatorLineUnstripped(rest);
    SeparatorTextIsBadCount(rest);
  }

  /** The directives of an LCOV tracefile that the checker acts on. */
  datatype Directive =
    | SourceFile(path: string)   // SF:<path>
    | LinesFound(found: nat)     // LF:<n>
    | LinesHit(hit: nat)         // LH:<n>
    | EndOfRecord                // end_of_record
    | BadCount(payload: string)  // LF:/LH: whose payload is not a count
    | Ignored                    // every other line (DA:, FN:, TN:, ...)

  predicate HasPrefix(s: string, p: string) {
    |p| <= |s| && s[..|p|] == p
  }

  /** What the checker makes of one stripped line: it tests the prefixes
      `SF:`, `LF:`, `LH:` in that order and finally compares with
      `end_of_record`. */
  function ClassifyText(t: string): (d: Directive)
    ensures d.SourceFile? <==> HasPrefix(t, "SF:")
    ensures HasPrefix(t, "SF:") ==> d == SourceFile(t[3..])
    ensures !HasPrefix(t, "SF:") && HasPrefix(t, "LF:") ==>
      d == (if ParseCount(t[3..]).Some? then LinesFound(ParseCount(t[3..]).value) else BadCount(t[3..]))
    ensures !HasPrefix(t, "SF:") && !HasPrefix(t, "LF:") && HasPrefix(t, "LH:") ==>
      d == (if ParseCount(t[3..]).Some? then LinesHit(ParseCount(t[3..]).value) else BadCount(t[3..]))
    ensures d == EndOfRecord <==> t == "end_of_record"
    ensures d == Ignored <==>
      !HasPrefix(t, "SF:") && !HasPrefix(t, "LF:") && !HasPrefix(t, "LH:") && t != "end_of_record"
    ensures d.BadCount? ==> ParseCount(d.payload).None?
  {
    if HasPrefix(t, "SF:") then
      assert t[0] == t[..3][0] == 'S';
      SourceFile(t[3..])
    else if HasPrefix(t, "LF:") then
      assert t[0] == t[..3][0] == 'L';
      match ParseCount(t[3..]) case Some(n) => LinesFound(n) case None => BadCount(t[3..])
    else if HasPrefix(t, "LH:") then
      assert t[0] == t[..3][0] == 'L';
      match ParseCount(t[3..]) case Some(n) => LinesHit(n) case None => BadCount(t[3..])
    else if t == "end_of_record" then EndOfRecord
    else Ignored
  }

  /** What the checker makes of one line of the tracefile: the line is
      stripped first. */
  function Classify(line: string): (d: Directive)
  {
    ClassifyText(Strip(line))
  }

  /** The directives a tracefile writer emits, as opposed to the ones a
      reader may meet. */
  predicate Writable(d: Directive) {
    match d
    case SourceFile(p) => p == [] || !IsSpace(p[|p| - 1])
    case LinesFound(_) => true
    case LinesHit(_) => true
    case EndOfRecord => true
    case BadCount(_) => false
    case Ignored => false
  }

  /** The line an LCOV writer emits for a directive (without its newline). */
  function Render(d: Directive): string
    requires Writable(d)
  {
    match d
    case SourceFile(p) => "SF:" + p
    case LinesFound(n) => "LF:" + Decimal(n)
    case LinesHit(n) => "LH:" + Decimal(n)
    case EndOfRecord => "end_of_record"
  }

  /** A line whose stripped text is a rendered directive reads as that
      directive. */
  lemma ClassifyRendered(line: string, d: Directive)
    requires Writable(d) && Strip(line) == Render(d)
    ensures Classify(line) == d
  {
    var t := Strip(line);
    match d
    case SourceFile(p) =>
      assert t[..3] == "SF:" && t[3..] == p;
    case LinesFound(n) =>
      assert t[..3] == "LF:" && t[3..] == Decimal(n);
      assert !HasPrefix(t, "SF:") by { assert t[0] != 'S'; }
      ParseCountDecimal(n);
    case LinesHit(n) =>
      assert t[..3] == "LH:" && t[3..] == Decimal(n);
      assert !HasPrefix(t, "SF:") by { assert t[0] != 'S'; }
      assert !HasPrefix(t, "LF:") by { assert t[1] != 'F'; }
      ParseCountDecimal(n);
    case EndOfRecord =>
      assert t[0] == 'e';
      assert !HasPrefix(t, "SF:") && !HasPrefix(t, "LF:") && !HasPrefix(t, "LH:");
  }

  lemma RenderUnpadded(d: Directive)
    requires Writable(d)
    ensures Unpadded(Render(d))
  {
  }

  /** Reading a rendered directive back gives the directive, whatever
      whitespace (a line terminator, say) surrounds it. */
  lemma ClassifyRender(lead: string, d: Directive, trail: string)
    requires Writable(d)
    requires AllSpaces(lead) && AllSpaces(trail)
    ensures Classify(lead + Render(d) + trail) == d
  {
    RenderUnpadded(d);
    StripPadded(lead, Render(d), trail);
    ClassifyRendered(lead + Render(d) + trail, d);
  }
}
