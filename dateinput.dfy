/**
 * The due-date picker: three text fields (year, month, day) with one of them
 * focused, read back as a YYYY-MM-DD date. Missing year and month default to
 * the current ones, which are passed in; the day is required; the result must
 * be a real calendar date.
 */
module DateInput {
  import opened Wrappers
  import opened Text

  datatype DateError =
    | DayRequired                // the day field is blank
    | InvalidDate(text: string)  // the assembled text is not a calendar date

  // ---------------------------------------------------------------------------
  // Digits, padding and the calendar
  // ---------------------------------------------------------------------------

  /** The field validator: every rune must be a digit. */
  method Validate(s: string) returns (ok: bool)
    ensures ok <==> AllDigits(s)
  {
    for i := 0 to |s|
      invariant forall k :: 0 <= k < i ==> IsDigit(s[k])
    {
      if !IsDigit(s[i]) {
        return false;
      }
    }
    return true;
  }

  /**
   * `s` with zeros prepended until it is `n` bytes long; the width is Go's
   * len, so it counts UTF-8 bytes rather than characters.
   */
  function Padded(s: string, n: nat): string
  {
    if ByteLen(s) < n then Repeat('0', n - ByteLen(s)) + s else s
  }

  /** Each leading zero adds one byte. */
  lemma {:induction false} ZerosByteLen(k: nat, s: string)
    ensures ByteLen(Repeat('0', k) + s) == k + ByteLen(s)
  {
    if k > 0 {
      var t := Repeat('0', k - 1) + s;
      assert Repeat('0', k) + s == ['0'] + t;
      assert (['0'] + t)[1..] == t;
      ZerosByteLen(k - 1, s);
    } else {
      assert Repeat('0', 0) + s == s;
    }
  }

  /** padLeft: prepend "0" while the text is shorter than `n` bytes. */
  method PadLeft(s: string, n: nat) returns (r: string)
    ensures r == Padded(s, n)
  {
    r := s;
    ghost var k: nat := 0;
    while ByteLen(r) < n
      invariant r == Repeat('0', k) + s
      invariant ByteLen(r) == k + ByteLen(s)
      invariant ByteLen(s) < n ==> ByteLen(r) <= n
      invariant ByteLen(s) >= n ==> k == 0
      decreases n - ByteLen(r)
    {
      assert Repeat('0', k + 1) + s == ['0'] + r;
      ZerosByteLen(k + 1, s);
      r := "0" + r;
      k := k + 1;
    }
    if ByteLen(s) < n {
      assert k == n - ByteLen(s);
    } else {
      assert Repeat('0', 0) + s == s;
    }
  }

  /**
   * Padding reaches the width in bytes, keeps the text as its tail, puts only
   * zeros in front, and leaves text already long enough alone.
   */
  lemma PaddedShape(s: string, n: nat)
    ensures var r := Padded(s, n);
      && ByteLen(r) == (if ByteLen(s) < n then n else ByteLen(s))
      && |r| >= |s| && r[|r| - |s|..] == s
      && (forall i :: 0 <= i < |r| - |s| ==> r[i] == '0')
      && (ByteLen(s) >= n ==> r == s)
  {
    var r := Padded(s, n);
    if ByteLen(s) < n {
      ZerosByteLen(n - ByteLen(s), s);
      assert r == Repeat('0', n - ByteLen(s)) + s;
      assert r[|r| - |s|..] == s;
    }
  }

  /** Digits are one byte each, so padding digits reaches exactly `n` characters. */
  lemma PaddedDigits(s: string, n: nat)
    requires AllDigits(s)
    ensures |Padded(s, n)| == (if |s| < n then n else |s|)
  {
    DigitsByteLen(s);
  }

  /** Width is in bytes: a two-byte "é" already fills a two-byte field, a "7" does not. */
  lemma PadCountsBytes()
    ensures Padded("\U{00E9}", 2) == "\U{00E9}" && Padded("7", 2) == "07"
  {
    assert ByteLen("\U{00E9}") == 2;
    assert Repeat('0', 1) == "0";
  }

  /** Leading zeros do not change a number: padded digits read as the same value. */
  lemma PaddedValue(s: string, n: nat)
    requires AllDigits(s)
    ensures AllDigits(Padded(s, n)) && DigitsValue(Padded(s, n)) == DigitsValue(s)
  {
    DigitsByteLen(s);
    if |s| < n {
      ZerosValue(n - |s|, s);
    }
  }

  /** Any number of leading zeros leaves the value unchanged. */
  lemma {:induction false} ZerosValue(k: nat, s: string)
    requires AllDigits(s)
    ensures AllDigits(Repeat('0', k) + s) && DigitsValue(Repeat('0', k) + s) == DigitsValue(s)
  {
    if k > 0 {
      ZerosValue(k - 1, s);
      var t := Repeat('0', k - 1) + s;
      assert Repeat('0', k) + s == ['0'] + t;
      LeadingZero(t);
    } else {
      assert Repeat('0', 0) + s == s;
    }
  }

  /** One leading zero does not change the value of a digit string. */
  lemma {:induction false} LeadingZero(s: string)
    requires AllDigits(s)
    ensures AllDigits(['0'] + s) && DigitsValue(['0'] + s) == DigitsValue(s)
    decreases |s|
  {
    var z := ['0'] + s;
    if |s| > 0 {
      var init := s[..|s| - 1];
      LeadingZero(init);
      assert z[..|z| - 1] == ['0'] + init;
    }
  }

  /** Gregorian leap years. */
  predicate IsLeap(year: int)
  {
    year % 4 == 0 && (year % 100 != 0 || year % 400 == 0)
  }

  function DaysIn(month: int, year: int): int
  {
    if month == 2 then (if IsLeap(year) then 29 else 28)
    else if month == 4 || month == 6 || month == 9 || month == 11 then 30
    else 31
  }

  /**
   * What parsing with the layout "2006-01-02" accepts: four year digits, two
   * month digits naming a month, two day digits naming a day of that month,
   * separated by hyphens and nothing more.
   */
  predicate IsDate(text: string)
  {
    && |text| == 10 && text[4] == '-' && text[7] == '-'
    && AllDigits(text[..4]) && AllDigits(text[5..7]) && AllDigits(text[8..])
    && var year, month, day := DigitsValue(text[..4]), DigitsValue(text[5..7]), DigitsValue(text[8..]);
       1 <= month <= 12 && 1 <= day <= DaysIn(month, year)
  }

  // ---------------------------------------------------------------------------
  // Reading the fields
  // ---------------------------------------------------------------------------

  /**
   * Value with the clock as parameters: trimmed fields, a blank year or month
   * replaced by the current one, the month and day padded to two digits.
   */
  function ValueOf(year: string, month: string, day: string, nowYear: nat, nowMonth: nat)
    : (r: Result<string, DateError>)
    ensures TrimSpace(day) == "" <==> r == Err(DayRequired)
    ensures r.Ok? ==> IsDate(r.value)
    ensures r.Ok? ==> r.value == Assembled(year, month, day, nowYear, nowMonth)
    ensures TrimSpace(day) != "" && IsDate(Assembled(year, month, day, nowYear, nowMonth)) ==>
      r == Ok(Assembled(year, month, day, nowYear, nowMonth))
    ensures TrimSpace(day) != "" && !IsDate(Assembled(year, month, day, nowYear, nowMonth)) ==>
      r == Err(InvalidDate(Assembled(year, month, day, nowYear, nowMonth)))
  {
    if TrimSpace(day) == "" then Err(DayRequired)
    else
      var text := Assembled(year, month, day, nowYear, nowMonth);
      if IsDate(text) then Ok(text) else Err(InvalidDate(text))
  }

  /** The text handed to the date parser. */
  function Assembled(year: string, month: string, day: string, nowYear: nat, nowMonth: nat): string
  {
    var y := if TrimSpace(year) == "" then Padded(Itoa(nowYear), 4) else TrimSpace(year);
    var m := if TrimSpace(month) == "" then Padded(Itoa(nowMonth), 2) else TrimSpace(month);
    y + "-" + Padded(m, 2) + "-" + Padded(TrimSpace(day), 2)
  }

  /** A blank year or month means the current one, zero-padded. */
  lemma Defaults(month: string, day: string, nowYear: nat, nowMonth: nat)
    requires 1 <= nowMonth <= 12 && nowYear <= 9999
    requires TrimSpace(month) == "" && AllDigits(day) && 1 <= |day| <= 2
    ensures var text := Assembled("", month, day, nowYear, nowMonth);
      && |text| == 10 && AllDigits(text[..4]) && AllDigits(text[5..7]) && AllDigits(text[8..])
      && DigitsValue(text[..4]) == nowYear
      && DigitsValue(text[5..7]) == nowMonth
      && DigitsValue(text[8..]) == DigitsValue(day)
  {
    var y, m, d := Padded(Itoa(nowYear), 4), Padded(Itoa(nowMonth), 2), Padded(day, 2);
    PaddedNumber(nowYear, 4);
    PaddedNumber(nowMonth, 2);
    PaddedDigits(day, 2);
    PaddedValue(day, 2);
    TrimSpaceNoSpace(d);
    assert TrimSpace("") == "";
    assert Padded(m, 2) == m;
    var text := y + "-" + m + "-" + d;
    assert text == Assembled("", month, day, nowYear, nowMonth);
    assert text[..4] == y && text[5..7] == m && text[8..] == d;
  }

  /**
   * A day typed alone, one or two digits and within the current month, is
   * accepted: the result is that day of the current month and year.
   */
  lemma TypedDayAccepted(month: string, day: string, nowYear: nat, nowMonth: nat)
    requires 1 <= nowMonth <= 12 && nowYear <= 9999
    requires TrimSpace(month) == "" && AllDigits(day) && 1 <= |day| <= 2
    requires 1 <= DigitsValue(day) <= DaysIn(nowMonth, nowYear)
    ensures var r := ValueOf("", month, day, nowYear, nowMonth);
      && r.Ok?
      && DigitsValue(r.value[..4]) == nowYear
      && DigitsValue(r.value[5..7]) == nowMonth
      && DigitsValue(r.value[8..]) == DigitsValue(day)
  {
    var text := Assembled("", month, day, nowYear, nowMonth);
    Defaults(month, day, nowYear, nowMonth);
    DigitsNoSpace(day);
    var y, m := Padded(Itoa(nowYear), 4), Padded(Itoa(nowMonth), 2);
    PaddedNumber(nowYear, 4);
    PaddedNumber(nowMonth, 2);
    PaddedDigits(m, 2);
    assert TrimSpace("") == "";
    assert text == y + "-" + Padded(m, 2) + "-" + Padded(day, 2);
    assert text[4] == '-' && text[7] == '-';
    assert IsDate(text);
  }

  /** %04d and %02d: a small enough number zero-padded to exactly the width, reading back as itself. */
  lemma PaddedNumber(n: nat, k: nat)
    requires (k == 4 && n <= 9999) || (k == 2 && n <= 99)
    ensures var r := Padded(Itoa(n), k);
      |r| == k && AllDigits(r) && DigitsValue(r) == n
  {
    ItoaValue(n);
    ItoaShort(n, k);
    PaddedDigits(Itoa(n), k);
    PaddedValue(Itoa(n), k);
  }

  /** A number below 10^k has at most k digits. */
  lemma {:induction false} ItoaShort(n: nat, k: nat)
    requires (k == 4 && n <= 9999) || (k == 2 && n <= 99)
    ensures |Itoa(n)| <= k
  {
    if n >= 10 {
      if k == 4 {
        if n >= 100 {
          if n >= 1000 {
            assert Itoa(n / 1000) == ['0' + (n / 1000 % 10) as char];
            assert Itoa(n / 100) == Itoa(n / 1000) + ['0' + (n / 100 % 10) as char];
          }
          assert |Itoa(n / 100)| <= 2;
          assert Itoa(n / 10) == Itoa(n / 100) + ['0' + (n / 10 % 10) as char];
        }
      }
    }
  }

  // ---------------------------------------------------------------------------
  // The picker
  // ---------------------------------------------------------------------------

  /** The fields after SetValue: the hyphen-separated parts in order, blank where none. */
  function PartOr(parts: seq<string>, i: nat): string
  {
    if i < |parts| then parts[i] else ""
  }

  class Picker {
    const fields: array<string>   // 0: year, 1: month, 2: day
    const focused: array<bool>    // which field has the text cursor
    var focus: int

    /** Three fields, the focus index on one of them, and no field focused but that one. */
    ghost predicate Valid()
      reads this, focused
    {
      && fields.Length == 3 && focused.Length == 3
      && 0 <= focus <= 2
      && forall i :: 0 <= i < 3 && focused[i] ==> i == focus
    }

    /** newDateInput: three empty, unfocused fields. */
    constructor ()
      ensures Valid() && fresh(fields) && fresh(focused)
      ensures fields[..] == ["", "", ""] && focused[..] == [false, false, false] && focus == 0
    {
      fields := new string[3]["", "", ""];
      focused := new bool[3](_ => false);
      focus := 0;
    }

    /** IsEmpty: all three fields are empty. */
    predicate IsEmpty()
      requires fields.Length == 3
      reads this, fields
    {
      fields[0] == "" && fields[1] == "" && fields[2] == ""
    }

    /** Value, with today's year and month as parameters. */
    function Value(nowYear: nat, nowMonth: nat): (r: Result<string, DateError>)
      requires fields.Length == 3
      reads this, fields
      ensures IsEmpty() ==> r == Err(DayRequired)
      ensures TrimSpace(fields[2]) == "" <==> r == Err(DayRequired)
      ensures r.Ok? ==> IsDate(r.value) && r.value == Assembled(fields[0], fields[1], fields[2], nowYear, nowMonth)
      ensures TrimSpace(fields[2]) != "" && IsDate(Assembled(fields[0], fields[1], fields[2], nowYear, nowMonth)) ==>
        r == Ok(Assembled(fields[0], fields[1], fields[2], nowYear, nowMonth))
      ensures TrimSpace(fields[2]) != "" && !IsDate(Assembled(fields[0], fields[1], fields[2], nowYear, nowMonth)) ==>
        r == Err(InvalidDate(Assembled(fields[0], fields[1], fields[2], nowYear, nowMonth)))
    {
      assert IsEmpty() ==> TrimSpace(fields[2]) == "";
      ValueOf(fields[0], fields[1], fields[2], nowYear, nowMonth)
    }

    /** SetValue: split on the first two hyphens, fill the fields in order, blank the rest. */
    method SetValue(date: string)
      requires Valid()
      modifies fields
      ensures Valid() && focus == old(focus) && focused[..] == old(focused[..])
      ensures fields[..] == [PartOr(SplitN(date, '-', 3), 0), PartOr(SplitN(date, '-', 3), 1),
                             PartOr(SplitN(date, '-', 3), 2)]
    {
      var parts := SplitN(date, '-', 3);
      for i := 0 to 3
        invariant forall k :: 0 <= k < i ==> fields[k] == PartOr(parts, k)
      {
        if i < |parts| {
          fields[i] := parts[i];
        } else {
          fields[i] := "";
        }
      }
    }

    /** Focus: the year field takes the cursor, the others lose it. */
    method Focus()
      requires Valid()
      modifies this, focused
      ensures Valid() && focus == 0 && focused[..] == [true, false, false]
    {
      focus := 0;
      focused[0] := true;
      focused[1] := false;
      focused[2] := false;
    }

    /** Blur: no field has the cursor. */
    method Blur()
      requires Valid()
      modifies focused
      ensures Valid() && focus == old(focus) && focused[..] == [false, false, false]
    {
      for i := 0 to 3
        invariant forall k :: 0 <= k < i ==> !focused[k]
      {
        focused[i] := false;
      }
    }

    /** focusField: field `idx` takes the cursor, every other field loses it. */
    method FocusField(idx: int)
      requires Valid() && 0 <= idx <= 2
      modifies this, focused
      ensures Valid() && focus == idx
      ensures forall i :: 0 <= i < 3 ==> focused[i] == (i == idx)
    {
      focus := idx;
      for i := 0 to 3
        invariant focus == idx
        invariant forall k :: 0 <= k < i ==> focused[k] == (k == idx)
      {
        focused[i] := i == idx;
      }
    }

    /** tab / right: move to the next field, stopping at the day. */
    method Next()
      requires Valid()
      modifies this, focused
      ensures Valid()
      ensures focus == if old(focus) < 2 then old(focus) + 1 else old(focus)
      ensures old(focus) < 2 ==> forall i :: 0 <= i < 3 ==> focused[i] == (i == focus)
      ensures old(focus) == 2 ==> focused[..] == old(focused[..])
    {
      if focus < 2 {
        FocusField(focus + 1);
      }
    }

    /** shift+tab / left: move to the previous field, stopping at the year. */
    method Prev()
      requires Valid()
      modifies this, focused
      ensures Valid()
      ensures focus == if old(focus) > 0 then old(focus) - 1 else old(focus)
      ensures old(focus) > 0 ==> forall i :: 0 <= i < 3 ==> focused[i] == (i == focus)
      ensures old(focus) == 0 ==> focused[..] == old(focused[..])
    {
      if focus > 0 {
        FocusField(focus - 1);
      }
    }
  }

  // ---------------------------------------------------------------------------
  // Round trip
  // ---------------------------------------------------------------------------

  /** Digits are not white space. */
  lemma DigitsNoSpace(s: string)
    requires AllDigits(s)
    ensures TrimSpace(s) == s
  {
    TrimSpaceNoSpace(s);
  }

  /** Splitting a date on its hyphens yields its three numbers. */
  lemma SplitDate(text: string)
    requires IsDate(text)
    ensures SplitN(text, '-', 3) == [text[..4], text[5..7], text[8..]]
  {
    var y, m, d := text[..4], text[5..7], text[8..];
    assert '-' !in y && '-' !in m;
    assert text == y + ['-'] + text[5..];
    CutAfter(y, '-', text[5..]);
    assert text[5..] == m + ['-'] + d;
    CutAfter(m, '-', d);
  }

  /** Fields that already hold a date's digits read back as that date. */
  lemma DigitFields(y: string, m: string, d: string, nowYear: nat, nowMonth: nat)
    requires AllDigits(y) && AllDigits(m) && AllDigits(d) && |m| == 2 && |d| == 2
    requires IsDate(y + "-" + m + "-" + d)
    ensures ValueOf(y, m, d, nowYear, nowMonth) == Ok(y + "-" + m + "-" + d)
  {
    DigitsNoSpace(y);
    DigitsNoSpace(m);
    DigitsNoSpace(d);
    assert Padded(m, 2) == m && Padded(d, 2) == d;
    assert TrimSpace(d) != "";
  }

  /** A date put into the picker reads back unchanged, whatever the clock says. */
  lemma SetThenValue(text: string, nowYear: nat, nowMonth: nat)
    requires IsDate(text)
    ensures var parts := SplitN(text, '-', 3);
      ValueOf(PartOr(parts, 0), PartOr(parts, 1), PartOr(parts, 2), nowYear, nowMonth) == Ok(text)
  {
    SplitDate(text);
    var y, m, d := text[..4], text[5..7], text[8..];
    assert text == y + "-" + m + "-" + d;
    DigitFields(y, m, d, nowYear, nowMonth);
  }
}
