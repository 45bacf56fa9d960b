/**
 * The `yyyy/mm/dd` date parser: three runs of decimal digits separated by
 * `/`. A run whose length differs from the field's width (4, 2, 2) emits an
 * error but keeps its value, so a parse with recovery still yields the date;
 * a run that does not fit in a `u32` stops the parse. Month and day values
 * are not range-checked, and text after the day is not looked at.
 */
module DateParser {
  import opened Wrappers

  newtype u32 = x: int | 0 <= x < 0x1_0000_0000

  datatype Date = Date(year: u32, month: u32, day: u32)

  /** A half-open range `start..end` of character positions. */
  datatype Span = Span(start: nat, end: nat)

  /** What the parser was reading. An unexpected-input error carries the label the source attaches
      to that part; how chumsky merges labels of errors at one position is not modelled. */
  datatype Part = Year | SlashAfterYear | Month | SlashAfterMonth | Day

  function Label(p: Part): string
  {
    match p
    case Year => "yyyy"
    case SlashAfterYear => "between yyyy and mm"
    case Month => "mm"
    case SlashAfterMonth => "betweel mm and dd"
    case Day => "dd"
  }

  /** The labels tell the five parts apart, so the label in an `Unexpected` error names the part being read. */
  lemma LabelInjective(p: Part, q: Part)
    ensures Label(p) == Label(q) <==> p == q
  {
  }

  datatype DateError =
      /** A digit run of the wrong length; its value is kept. */
    | BadLength(span: Span, expected: nat, digits: string)
      /** A digit run that does not fit in a `u32`; the parse stops. */
    | InvalidU32(span: Span, digits: string)
      /** A digit or `/` was expected at `at`; `found` is `None` at the end of the input, and `partLabel` is the label of the part being read. */
    | Unexpected(at: nat, found: Option<char>, partLabel: string)

  /** The result of a parse with recovery: possibly a date, and the errors. */
  datatype Recovery = Recovery(output: Option<Date>, errors: seq<DateError>)

  /** The result of a strict parse. */
  datatype Parsed = Ok(date: Date) | Err(errors: seq<DateError>)

  predicate IsDigit(c: char)
  {
    '0' <= c <= '9'
  }

  function DigitValue(c: char): nat
    requires IsDigit(c)
  {
    c as int - '0' as int
  }

  function DigitChar(d: nat): char
    requires d < 10
  {
    ('0' as int + d) as char
  }

  predicate AllDigits(d: string)
  {
    forall p :: 0 <= p < |d| ==> IsDigit(d[p])
  }

  /** The value of a string of decimal digits, leading zeros allowed (`str::parse`). */
  function DigitsValue(d: string): nat
    requires AllDigits(d)
  {
    if |d| == 0 then 0 else DigitsValue(d[..|d| - 1]) * 10 + DigitValue(d[|d| - 1])
  }

  /** The end of the digit run starting at `i`. */
  function DigitRunEnd(s: string, i: nat): (j: nat)
    requires i <= |s|
    ensures i <= j <= |s|
    ensures AllDigits(s[i..j])
    ensures j == |s| || !IsDigit(s[j])
    decreases |s| - i
  {
    if i < |s| && IsDigit(s[i]) then DigitRunEnd(s, i + 1) else i
  }

  function FoundAt(s: string, i: nat): Option<char>
  {
    if i < |s| then Some(s[i]) else None
  }

  /** One field: a value, where it ends and what it emitted, or the errors that stopped the parse. */
  datatype Field = Read(value: u32, end: nat, emitted: seq<DateError>) | Stopped(errors: seq<DateError>)

  /**
   * `text::digits(10)` (one or more digits), then the length check, then
   * the conversion to `u32`.
   */
  function Number(s: string, i: nat, width: nat, part: Part): (f: Field)
    requires i <= |s|
    ensures f.Read? ==> i < f.end <= |s|
  {
    if i == |s| || !IsDigit(s[i]) then Stopped([Unexpected(i, FoundAt(s, i), Label(part))])
    else
      var j := DigitRunEnd(s, i);
      var digits := s[i..j];
      var emitted := if |digits| != width then [BadLength(Span(i, j), width, digits)] else [];
      var v := DigitsValue(digits);
      if v < 0x1_0000_0000 then Read(v as u32, j, emitted)
      else Stopped(emitted + [InvalidU32(Span(i, j), digits)])
  }

  predicate SlashAt(s: string, i: nat)
  {
    i < |s| && s[i] == '/'
  }

  /** `yyyy_mm_dd().parse_recovery(s)`. */
  function ParseRecovery(s: string): Recovery
  {
    match Number(s, 0, 4, Year)
    case Stopped(e) => Recovery(None, e)
    case Read(y, i, ey) =>
      if !SlashAt(s, i) then Recovery(None, ey + [Unexpected(i, FoundAt(s, i), Label(SlashAfterYear))])
      else
        match Number(s, i + 1, 2, Month)
        case Stopped(e) => Recovery(None, ey + e)
        case Read(m, j, em) =>
          if !SlashAt(s, j) then Recovery(None, ey + em + [Unexpected(j, FoundAt(s, j), Label(SlashAfterMonth))])
          else
            match Number(s, j + 1, 2, Day)
            case Stopped(e) => Recovery(None, ey + em + e)
            case Read(d, _, ed) => Recovery(Some(Date(y, m, d)), ey + em + ed)
  }

  /** `yyyy_mm_dd().parse(s)`: the date when no error was emitted. */
  function Parse(s: string): Parsed
  {
    var r := ParseRecovery(s);
    if r.errors == [] && r.output.Some? then Ok(r.output.value) else Err(r.errors)
  }

  // ---------------------------------------------------------------------
  // The reference description: zero-padded fields.

  /** The last `width` decimal digits of `v`, with leading zeros. */
  function Padded(v: nat, width: nat): (d: string)
    ensures |d| == width && AllDigits(d)
  {
    if width == 0 then [] else Padded(v / 10, width - 1) + [DigitChar(v % 10)]
  }

  function Pow10(n: nat): (p: nat)
    ensures p >= 1
  {
    if n == 0 then 1 else 10 * Pow10(n - 1)
  }

  /** The text `yyyy/mm/dd` of a date whose fields fit their widths. */
  function Format(date: Date): string
  {
    Padded(date.year as nat, 4) + "/" + Padded(date.month as nat, 2) + "/" + Padded(date.day as nat, 2)
  }

  predicate Fits(date: Date)
  {
    date.year < 10000 && date.month < 100 && date.day < 100
  }

  lemma {:induction false} PaddedValue(v: nat, width: nat)
    requires v < Pow10(width)
    ensures DigitsValue(Padded(v, width)) == v
    decreases width
  {
    if width > 0 {
      var d := Padded(v, width);
      assert d[..width - 1] == Padded(v / 10, width - 1);
      PaddedValue(v / 10, width - 1);
    }
  }

  lemma {:induction false} DigitsValueBound(d: string)
    requires AllDigits(d)
    ensures DigitsValue(d) < Pow10(|d|)
    decreases |d|
  {
    if |d| > 0 {
      DigitsValueBound(d[..|d| - 1]);
    }
  }

  /** A digit string is the zero-padded text of its own value. */
  lemma {:induction false} PaddedOfDigits(d: string)
    requires AllDigits(d)
    ensures Padded(DigitsValue(d), |d|) == d
    decreases |d|
  {
    if |d| > 0 {
      var init := d[..|d| - 1];
      PaddedOfDigits(init);
      var v := DigitsValue(d);
      assert v / 10 == DigitsValue(init) && v % 10 == DigitValue(d[|d| - 1]);
      assert d == init + [d[|d| - 1]];
    }
  }

  // ---------------------------------------------------------------------
  // Fields

  /** A run of exactly `width` digits, not followed by a digit, reads cleanly. */
  lemma NumberOfPadded(s: string, i: nat, width: nat, part: Part, v: nat)
    requires 1 <= width && v < Pow10(width) <= 10000
    requires i + width <= |s| && s[i..i + width] == Padded(v, width)
    requires i + width == |s| || !IsDigit(s[i + width])
    ensures Number(s, i, width, part) == Read(v as u32, i + width, [])
  {
    PaddedValue(v, width);
    RunOfDigits(s, i, i + width);
  }

  /** A run of digits ended by a non-digit is where the digit run ends. */
  lemma {:induction false} RunOfDigits(s: string, i: nat, j: nat)
    requires i < j <= |s| && AllDigits(s[i..j])
    requires j == |s| || !IsDigit(s[j])
    ensures DigitRunEnd(s, i) == j
    decreases j - i
  {
    assert IsDigit(s[i..j][0]);
    if i + 1 < j {
      assert s[i + 1..j] == s[i..j][1..];
      RunOfDigits(s, i + 1, j);
    }
  }

  /** A clean field read is a run of exactly `width` digits not followed by a digit. */
  lemma NumberClean(s: string, i: nat, width: nat, part: Part)
    requires i <= |s|
    requires Number(s, i, width, part).Read? && Number(s, i, width, part).emitted == []
    ensures var f := Number(s, i, width, part);
      f.end == i + width && s[i..f.end] == Padded(f.value as nat, width)
      && f.value as nat < Pow10(width)
      && (f.end == |s| || !IsDigit(s[f.end]))
  {
    PaddedOfDigits(s[i..DigitRunEnd(s, i)]);
    DigitsValueBound(s[i..DigitRunEnd(s, i)]);
  }

  /** A field's emitted error is only a length mismatch, and its value is kept. */
  lemma NumberRecovers(s: string, i: nat, width: nat, part: Part)
    requires i <= |s|
    requires Number(s, i, width, part).Read?
    ensures var f := Number(s, i, width, part);
      AllDigits(s[i..f.end])
      && f.value as nat == DigitsValue(s[i..f.end])
      && (f.emitted == [] <==> f.end - i == width)
      && (f.emitted != [] ==> f.emitted == [BadLength(Span(i, f.end), width, s[i..f.end])])
  {
  }

  /** A field stops the parse exactly when no digit is there or its value overflows. A missing digit
      gives the one unexpected-input error, labelled with the part being read. */
  lemma NumberStops(s: string, i: nat, width: nat, part: Part)
    requires i <= |s|
    ensures Number(s, i, width, part).Stopped? <==>
      i == |s| || !IsDigit(s[i]) || DigitsValue(s[i..DigitRunEnd(s, i)]) >= 0x1_0000_0000
    ensures Number(s, i, width, part).Stopped? && i < |s| && IsDigit(s[i]) ==>
      var j := DigitRunEnd(s, i);
      Number(s, i, width, part).errors[|Number(s, i, width, part).errors| - 1] == InvalidU32(Span(i, j), s[i..j])
    ensures i == |s| || !IsDigit(s[i]) ==>
      Number(s, i, width, part).errors == [Unexpected(i, FoundAt(s, i), Label(part))]
  {
  }

  // ---------------------------------------------------------------------
  // The whole parser

  /**
   * A strict parse succeeds with `date` exactly when the input begins with
   * the zero-padded `yyyy/mm/dd` text of `date`, not followed by a digit.
   */
  lemma ParseFormatted(s: string, date: Date)
    ensures Parse(s) == Ok(date) <==>
      Fits(date) && |Format(date)| <= |s| && s[..|Format(date)|] == Format(date)
      && (|s| == |Format(date)| || !IsDigit(s[|Format(date)|]))
  {
    if Parse(s) == Ok(date) {
      ParseClean(s);
    }
    if Fits(date) && |Format(date)| <= |s| && s[..|Format(date)|] == Format(date)
      && (|s| == |Format(date)| || !IsDigit(s[|Format(date)|])) {
      FormattedParses(s, date);
    }
  }

  lemma ParseClean(s: string)
    requires Parse(s).Ok?
    ensures var date := Parse(s).date;
      Fits(date) && |Format(date)| <= |s| && s[..|Format(date)|] == Format(date)
      && (|s| == |Format(date)| || !IsDigit(s[|Format(date)|]))
  {
    var date := Parse(s).date;
    ParseFields(s);
    FormatParts(date);
    SplitTen(s);
    SplitTen(Format(date));
  }

  /** A strict parse read three clean fields at 0..4, 5..7 and 8..10, with `/` between. */
  lemma ParseFields(s: string)
    requires Parse(s).Ok?
    ensures var date := Parse(s).date;
      Fits(date) && 10 <= |s|
      && s[0..4] == Padded(date.year as nat, 4) && s[4] == '/'
      && s[5..7] == Padded(date.month as nat, 2) && s[7] == '/'
      && s[8..10] == Padded(date.day as nat, 2)
      && (|s| == 10 || !IsDigit(s[10]))
  {
    RecoveryShape(s);
    var y := Number(s, 0, 4, Year);
    assert y.emitted == [];
    NumberClean(s, 0, 4, Year);
    var m := Number(s, 5, 2, Month);
    assert m.emitted == [];
    NumberClean(s, 5, 2, Month);
    var d := Number(s, 8, 2, Day);
    assert d.emitted == [];
    NumberClean(s, 8, 2, Day);
  }

  lemma SplitTen(t: string)
    requires |t| >= 10
    ensures t[..10] == t[0..4] + [t[4]] + t[5..7] + [t[7]] + t[8..10]
  {
  }

  /** A parse that yields a date read all three fields and both separators. */
  lemma RecoveryShape(s: string)
    requires ParseRecovery(s).output.Some?
    ensures Number(s, 0, 4, Year).Read?
    ensures SlashAt(s, Number(s, 0, 4, Year).end)
    ensures Number(s, Number(s, 0, 4, Year).end + 1, 2, Month).Read?
    ensures SlashAt(s, Number(s, Number(s, 0, 4, Year).end + 1, 2, Month).end)
    ensures RecoveryFields(s, Number(s, 0, 4, Year), Number(s, Number(s, 0, 4, Year).end + 1, 2, Month))
  {
  }

  /** After the year `y` and the month `m`, the day is read and the date is returned. */
  predicate RecoveryFields(s: string, y: Field, m: Field)
    requires y.Read? && m.Read? && m.end < |s|
  {
    var d := Number(s, m.end + 1, 2, Day);
    d.Read? && ParseRecovery(s) == Recovery(Some(Date(y.value, m.value, d.value)), y.emitted + m.emitted + d.emitted)
  }

  /** Where each field sits in the formatted text. */
  lemma FormatParts(date: Date)
    ensures var f := Format(date);
      |f| == 10 && f[0..4] == Padded(date.year as nat, 4) && f[4] == '/'
      && f[5..7] == Padded(date.month as nat, 2) && f[7] == '/' && f[8..10] == Padded(date.day as nat, 2)
  {
  }

  lemma FormattedParses(s: string, date: Date)
    requires Fits(date) && |Format(date)| <= |s| && s[..|Format(date)|] == Format(date)
    requires |s| == |Format(date)| || !IsDigit(s[|Format(date)|])
    ensures Parse(s) == Ok(date)
  {
    FormattedFields(s, date);
    RecoveryKeepsValues(s, Number(s, 0, 4, Year), Number(s, 5, 2, Month), Number(s, 8, 2, Day));
  }

  /** The three fields of a formatted date read back cleanly, with a `/` after the first two. */
  lemma FormattedFields(s: string, date: Date)
    requires Fits(date) && |Format(date)| <= |s| && s[..|Format(date)|] == Format(date)
    requires |s| == |Format(date)| || !IsDigit(s[|Format(date)|])
    ensures Number(s, 0, 4, Year) == Read(date.year, 4, []) && SlashAt(s, 4)
    ensures Number(s, 5, 2, Month) == Read(date.month, 7, []) && SlashAt(s, 7)
    ensures Number(s, 8, 2, Day) == Read(date.day, 10, [])
  {
    FormattedPrefix(s, date);
    assert Pow10(2) == 100 && Pow10(4) == 10000;
    NumberOfPadded(s, 0, 4, Year, date.year as nat);
    NumberOfPadded(s, 5, 2, Month, date.month as nat);
    NumberOfPadded(s, 8, 2, Day, date.day as nat);
  }

  lemma FormattedPrefix(s: string, date: Date)
    requires |Format(date)| <= |s| && s[..|Format(date)|] == Format(date)
    requires |s| == |Format(date)| || !IsDigit(s[|Format(date)|])
    ensures 10 <= |s| && (|s| == 10 || !IsDigit(s[10]))
    ensures s[0..4] == Padded(date.year as nat, 4) && SlashAt(s, 4) && !IsDigit(s[4])
    ensures s[5..7] == Padded(date.month as nat, 2) && SlashAt(s, 7) && !IsDigit(s[7])
    ensures s[8..10] == Padded(date.day as nat, 2)
  {
    FormatParts(date);
    assert s[0..4] == Format(date)[0..4] && s[5..7] == Format(date)[5..7] && s[8..10] == Format(date)[8..10];
    assert s[4] == Format(date)[4] && s[7] == Format(date)[7];
  }

  /**
   * With recovery, three digit runs that fit in a `u32`, separated by `/`,
   * always give the date, whatever their lengths; the errors are the length
   * mismatches, year first.
   */
  lemma RecoveryKeepsValues(s: string, y: Field, m: Field, d: Field)
    requires y == Number(s, 0, 4, Year) && y.Read? && SlashAt(s, y.end)
    requires m == Number(s, y.end + 1, 2, Month) && m.Read? && SlashAt(s, m.end)
    requires d == Number(s, m.end + 1, 2, Day) && d.Read?
    ensures ParseRecovery(s) == Recovery(Some(Date(y.value, m.value, d.value)), y.emitted + m.emitted + d.emitted)
  {
  }

  /** A strict parse fails whenever a parse with recovery reports any error. */
  lemma StrictFailsOnError(s: string)
    requires ParseRecovery(s).errors != []
    ensures Parse(s).Err? && Parse(s).errors == ParseRecovery(s).errors
  {
  }

  // ---------------------------------------------------------------------
  // Examples

  /** `"2020/03/19"` is the 19th of March 2020. */
  lemma ParseExample(s: string)
    requires s == "2020/03/19"
    ensures Parse(s) == Ok(Date(2020, 3, 19))
  {
    ExampleYear2020(s);
    ExampleMonthDay2020(s);
    RecoveryKeepsValues(s, Number(s, 0, 4, Year), Number(s, 5, 2, Month), Number(s, 8, 2, Day));
  }

  lemma ExampleYear2020(s: string)
    requires s == "2020/03/19"
    ensures Number(s, 0, 4, Year) == Read(2020, 4, []) && SlashAt(s, 4)
  {
    assert s[0..4] == "2020";
    RunOfDigits(s, 0, 4);
    assert DigitsValue("2020") == 2020 by {
      assert "2020"[..3] == "202" && "202"[..2] == "20" && "20"[..1] == "2" && "2"[..0] == [];
    }
  }

  lemma ExampleMonthDay2020(s: string)
    requires s == "2020/03/19"
    ensures Number(s, 5, 2, Month) == Read(3, 7, []) && SlashAt(s, 7)
    ensures Number(s, 8, 2, Day) == Read(19, 10, [])
  {
    TwoDigits(s, 5, Month);
    TwoDigits(s, 8, Day);
  }

  /** Two digits, not followed by a digit, read as a clean two-digit field. */
  lemma TwoDigits(s: string, i: nat, part: Part)
    requires i + 2 <= |s| && IsDigit(s[i]) && IsDigit(s[i + 1])
    requires i + 2 == |s| || !IsDigit(s[i + 2])
    ensures Number(s, i, 2, part) == Read((DigitValue(s[i]) * 10 + DigitValue(s[i + 1])) as u32, i + 2, [])
  {
    RunOfDigits(s, i, i + 2);
    var d := s[i..i + 2];
    assert d[..1][..0] == [] && d[..1] == [s[i]] && d[1] == s[i + 1];
    assert DigitsValue(d[..1]) == DigitValue(s[i]);
    assert DigitsValue(d) == DigitsValue(d[..1]) * 10 + DigitValue(d[1]);
  }

  /**
   * `"20201/03/19"`: the five-digit year is reported, so a strict parse
   * fails, but recovery still yields the date with year 20201.
   */
  lemma RecoveryExample(s: string)
    requires s == "20201/03/19"
    ensures ParseRecovery(s) == Recovery(Some(Date(20201, 3, 19)), [BadLength(Span(0, 5), 4, "20201")])
    ensures Parse(s).Err?
  {
    ExampleYear(s);
    ExampleMonthDay(s);
    RecoveryKeepsValues(s, Number(s, 0, 4, Year), Number(s, 6, 2, Month), Number(s, 9, 2, Day));
    assert [BadLength(Span(0, 5), 4, "20201")] + [] + [] == [BadLength(Span(0, 5), 4, "20201")];
  }

  lemma ExampleMonthDay(s: string)
    requires s == "20201/03/19"
    ensures SlashAt(s, 5) && Number(s, 6, 2, Month) == Read(3, 8, [])
    ensures SlashAt(s, 8) && Number(s, 9, 2, Day) == Read(19, 11, [])
  {
    TwoDigits(s, 6, Month);
    TwoDigits(s, 9, Day);
  }

  lemma ExampleYear(s: string)
    requires s == "20201/03/19"
    ensures Number(s, 0, 4, Year) == Read(20201, 5, [BadLength(Span(0, 5), 4, "20201")])
  {
    assert s[0..5] == "20201";
    RunOfDigits(s, 0, 5);
    assert DigitsValue("20201") == 20201 by {
      assert "20201"[..4] == "2020" && "2020"[..3] == "202" && "202"[..2] == "20" && "20"[..1] == "2";
      assert "2"[..0] == [];
    }
  }
}
