/** The bulletin's reference date: an ISO 8601 calendar date given by the caller, or the first
    `DD/MM/20YY` stamp in the sheet's header statement (`SEAPBulletin.__init__`, `_parse_date`). */
module Dates {
  import opened Wrappers
  import opened Strings

  datatype Date = Date(year: int, month: int, day: int)

  predicate IsLeapYear(y: int) {
    y % 4 == 0 && (y % 100 != 0 || y % 400 == 0)
  }

  function DaysInMonth(y: int, m: int): nat
    requires 1 <= m <= 12
  {
    if m == 2 then (if IsLeapYear(y) then 29 else 28)
    else if m == 4 || m == 6 || m == 9 || m == 11 then 30
    else 31
  }

  /** The dates Python's `datetime.date` can hold: years 1 to 9999 and a real day of the month. */
  predicate ValidDate(d: Date) {
    1 <= d.year <= 9999 && 1 <= d.month <= 12 && 1 <= d.day <= DaysInMonth(d.year, d.month)
  }

  /** `date.isoformat()`: `YYYY-MM-DD`. */
  function IsoFormat(d: Date): string
    requires ValidDate(d)
  {
    ZFill(ShowNat(d.year), 4) + "-" + ZFill(ShowNat(d.month), 2) + "-" + ZFill(ShowNat(d.day), 2)
  }

  /** `date.fromisoformat(s)`: exactly `YYYY-MM-DD` in ASCII digits, naming a real date. */
  function FromIsoFormat(s: string): (r: Result<Date>)
    ensures r.Success? ==> ValidDate(r.value)
    ensures r.Failure? ==> r.error == InvalidDateFormat
  {
    if |s| == 10 && s[4] == '-' && s[7] == '-'
       && AllDigits(s[..4]) && AllDigits(s[5..7]) && AllDigits(s[8..]) then
      var d := Date(DigitsValue(s[..4]), DigitsValue(s[5..7]), DigitsValue(s[8..]));
      if ValidDate(d) then Success(d) else Failure(InvalidDateFormat)
    else
      Failure(InvalidDateFormat)
  }

  lemma {:induction false} ZeroDigits(t: string)
    requires AllDigits(t) && DigitsValue(t) == 0
    ensures t == Zeros(|t|)
  {
    if t != [] {
      var init := t[..|t| - 1];
      ZeroDigits(init);
      assert t == init + [t[|t| - 1]];
      assert Zeros(|t|) == Zeros(|init|) + ['0'];
    }
  }

  lemma ZFillSnoc(x: string, c: char, width: nat)
    ensures ZFill(x + [c], width + 1) == ZFill(x, width) + [c]
  {
    if |x| < width {
      assert Zeros(width + 1 - |x + [c]|) == Zeros(width - |x|);
    }
  }

  /** A fixed-width digit field is the zero-padded decimal text of the number it denotes. */
  lemma {:induction false} PaddedDigits(t: string)
    requires |t| >= 1 && AllDigits(t)
    ensures ZFill(ShowNat(DigitsValue(t)), |t|) == t
  {
    var init, c := t[..|t| - 1], t[|t| - 1];
    assert t == init + [c];
    var v := DigitsValue(t);
    assert v == DigitsValue(init) * 10 + DigitValue(c);
    if DigitsValue(init) == 0 {
      ZeroDigits(init);
      assert ShowNat(v) == [c];
    } else {
      assert v / 10 == DigitsValue(init) && v % 10 == DigitValue(c);
      assert ShowNat(v) == ShowNat(DigitsValue(init)) + [c];
      PaddedDigits(init);
      ZFillSnoc(ShowNat(DigitsValue(init)), c, |init|);
    }
  }

  lemma FieldValue(n: nat, width: nat)
    requires 1 <= width && n < Pow10(width)
    ensures AllDigits(ZFill(ShowNat(n), width)) && |ZFill(ShowNat(n), width)| == width
    ensures DigitsValue(ZFill(ShowNat(n), width)) == n
  {
    ZFillShowNat(n, width);
  }

  /** Reading back an ISO text gives the date that was written. */
  lemma IsoRoundTrip(d: Date)
    requires ValidDate(d)
    ensures FromIsoFormat(IsoFormat(d)) == Success(d)
  {
    assert Pow10(2) == 100 && Pow10(4) == 10000;
    FieldValue(d.year, 4);
    FieldValue(d.month, 2);
    FieldValue(d.day, 2);
    var y, m, dd := ZFill(ShowNat(d.year), 4), ZFill(ShowNat(d.month), 2), ZFill(ShowNat(d.day), 2);
    var s := IsoFormat(d);
    assert s[..4] == y && s[5..7] == m && s[8..] == dd;
  }

  /** Every text `fromisoformat` accepts is the `isoformat` of the date it yields. */
  lemma IsoCanonical(s: string)
    requires FromIsoFormat(s).Success?
    ensures IsoFormat(FromIsoFormat(s).value) == s
  {
    PaddedDigits(s[..4]);
    PaddedDigits(s[5..7]);
    PaddedDigits(s[8..]);
    assert s == s[..4] + "-" + s[5..7] + "-" + s[8..];
  }

  /** A ten-character text matching the header pattern `[0-3][0-9]/[0-1][0-9]/20[1-2][0-9]`. */
  predicate IsStamp(t: string) {
    |t| == 10
    && '0' <= t[0] <= '3' && IsDigit(t[1]) && t[2] == '/'
    && '0' <= t[3] <= '1' && IsDigit(t[4]) && t[5] == '/'
    && t[6] == '2' && t[7] == '0' && '1' <= t[8] <= '2' && IsDigit(t[9])
  }

  predicate StampAt(s: string, i: nat) {
    i + 10 <= |s| && IsStamp(s[i..i + 10])
  }

  ghost predicate FirstStamp(s: string, i: nat) {
    StampAt(s, i) && forall j: nat :: j < i ==> !StampAt(s, j)
  }

  /** `re.search` of the stamp pattern from position `from` on. */
  function FindStamp(s: string, from: nat): (r: Option<nat>)
    ensures r.Some? ==> from <= r.value && StampAt(s, r.value)
    ensures r.Some? ==> forall j: nat :: from <= j < r.value ==> !StampAt(s, j)
    ensures r.None? ==> forall j: nat :: from <= j ==> !StampAt(s, j)
    decreases |s| - from
  {
    if from + 10 > |s| then None
    else if StampAt(s, from) then Some(from)
    else FindStamp(s, from + 1)
  }

  /** `strftime('%d/%m/%Y')`. */
  function StampText(d: Date): string
    requires ValidDate(d)
  {
    ZFill(ShowNat(d.day), 2) + "/" + ZFill(ShowNat(d.month), 2) + "/" + ShowNat(d.year)
  }

  /** `strptime(raw, '%d/%m/%Y')` on a stamp, before the calendar check. */
  function ReadStamp(raw: string): (d: Date)
    requires IsStamp(raw)
    ensures 2010 <= d.year <= 2029 && 0 <= d.month <= 19 && 0 <= d.day <= 39
  {
    assert AllDigits(raw[..2]) && AllDigits(raw[3..5]) && AllDigits(raw[6..]);
    DigitsValue4(raw[6..]);
    DigitsValue2(raw[3..5]);
    DigitsValue2(raw[..2]);
    Date(DigitsValue(raw[6..]), DigitsValue(raw[3..5]), DigitsValue(raw[..2]))
  }

  /** A stamp naming a real date is that date's `%d/%m/%Y` text. */
  lemma ReadStampText(raw: string)
    requires IsStamp(raw) && ValidDate(ReadStamp(raw))
    ensures StampText(ReadStamp(raw)) == raw
  {
    assert AllDigits(raw[..2]) && AllDigits(raw[3..5]) && AllDigits(raw[6..]);
    PaddedDigits(raw[..2]);
    PaddedDigits(raw[3..5]);
    YearText(raw[6..]);
    assert raw == raw[..2] + "/" + raw[3..5] + "/" + raw[6..];
  }

  /** Four digits not starting with a zero are the decimal text of their value. */
  lemma YearText(y: string)
    requires |y| == 4 && AllDigits(y) && DigitsValue(y) >= 1000
    ensures ShowNat(DigitsValue(y)) == y
  {
    var v := DigitsValue(y);
    PaddedDigits(y);
    assert Pow10(3) == 1000 && Pow10(4) == 10000;
    DigitsValue4(y);
    ShowNatLength(v, 4);
    ShowNatLengthAtLeast(v, 3);
  }

  /** The `%d/%m/%Y` text of a date of 2010 to 2029 is a stamp that reads back as that date. */
  lemma StampTextRead(d: Date)
    requires ValidDate(d) && 2010 <= d.year <= 2029
    ensures IsStamp(StampText(d)) && ReadStamp(StampText(d)) == d
  {
    assert Pow10(2) == 100 && Pow10(3) == 1000 && Pow10(4) == 10000;
    FieldValue(d.day, 2);
    FieldValue(d.month, 2);
    ShowNatValue(d.year);
    ShowNatLength(d.year, 4);
    ShowNatLengthAtLeast(d.year, 3);
    StampOf(ZFill(ShowNat(d.day), 2), ZFill(ShowNat(d.month), 2), ShowNat(d.year));
  }

  /** Day, month and year fields joined by slashes form a stamp that reads back field by field. */
  lemma StampOf(day: string, month: string, year: string)
    requires |day| == 2 && |month| == 2 && |year| == 4 && AllDigits(day) && AllDigits(month) && AllDigits(year)
    requires DigitsValue(day) <= 31 && DigitsValue(month) <= 12 && 2010 <= DigitsValue(year) <= 2029
    ensures var raw := day + "/" + month + "/" + year;
      IsStamp(raw) && ReadStamp(raw) == Date(DigitsValue(year), DigitsValue(month), DigitsValue(day))
  {
    var raw := day + "/" + month + "/" + year;
    StampFields(day, month, year);
    assert raw[..2] == day && raw[3..5] == month && raw[6..] == year;
  }

  /** The characters of the joined fields meet the stamp pattern. */
  lemma StampFields(day: string, month: string, year: string)
    requires |day| == 2 && |month| == 2 && |year| == 4 && AllDigits(day) && AllDigits(month) && AllDigits(year)
    requires DigitsValue(day) <= 31 && DigitsValue(month) <= 12 && 2010 <= DigitsValue(year) <= 2029
    ensures IsStamp(day + "/" + month + "/" + year)
  {
    DigitsValue2(day);
    DigitsValue2(month);
    DigitsValue4(year);
    assert '0' <= day[0] <= '3' && '0' <= month[0] <= '1';
    assert year[0] == '2' && year[1] == '0' && '1' <= year[2] <= '2';
    var raw := day + "/" + month + "/" + year;
    assert raw[0] == day[0] && raw[1] == day[1] && raw[3] == month[0] && raw[4] == month[1];
    assert raw[6..] == year;
  }

  /** `_parse_date`: the first stamp in the header statement, read by `strptime('%d/%m/%Y')`. */
  function ParseHeaderDate(statement: string): (r: Result<Date>)
    ensures r.Success? ==> ValidDate(r.value) && 2010 <= r.value.year <= 2029
    ensures r.Failure? ==> r.error == DateNotFound || r.error == InvalidDateFormat
    ensures r == Failure(DateNotFound) <==> forall j: nat :: !StampAt(statement, j)
  {
    match FindStamp(statement, 0)
    case None => Failure(DateNotFound)
    case Some(i) =>
      var d := ReadStamp(statement[i..i + 10]);
      if ValidDate(d) then Success(d) else Failure(InvalidDateFormat)
  }

  /** The date read is the one written in the first stamp of the statement. */
  lemma HeaderDateIsFirstStamp(statement: string)
    requires ParseHeaderDate(statement).Success?
    ensures exists i: nat :: (FirstStamp(statement, i)
      && statement[i..i + 10] == StampText(ParseHeaderDate(statement).value))
  {
    var i := FindStamp(statement, 0).value;
    ReadStampText(statement[i..i + 10]);
    assert FirstStamp(statement, i);
  }

  /** A statement whose first stamp is the `%d/%m/%Y` text of a date of 2010 to 2029 yields that
      date, whatever text comes before the stamp (as long as no stamp starts there) or after it. */
  lemma HeaderDateFound(prefix: string, d: Date, suffix: string)
    requires ValidDate(d) && 2010 <= d.year <= 2029
    requires forall j: nat :: j < |prefix| ==> !StampAt(prefix + StampText(d) + suffix, j)
    ensures ParseHeaderDate(prefix + StampText(d) + suffix) == Success(d)
  {
    var s := prefix + StampText(d) + suffix;
    var p := |prefix|;
    StampTextRead(d);
    assert s[p..p + 10] == StampText(d);
    assert StampAt(s, p);
    assert FindStamp(s, 0) == Some(p);
  }

  /** No stamp starts inside a text that holds no digit, since a stamp starts with one. */
  lemma DigitFreePrefix(prefix: string, rest: string)
    requires forall k :: 0 <= k < |prefix| ==> !IsDigit(prefix[k])
    ensures forall j: nat :: j < |prefix| ==> !StampAt(prefix + rest, j)
  {
    var s := prefix + rest;
    forall j: nat | j < |prefix| ensures !StampAt(s, j) {
      if j + 10 <= |s| {
        assert s[j..j + 10][0] == prefix[j];
      }
    }
  }

  lemma HeaderDateExample()
    ensures ParseHeaderDate("em 11/08/2020") == Success(Date(2020, 8, 11))
  {
    var d := Date(2020, 8, 11);
    ExampleStatement();
    DigitFreePrefix("em ", StampText(d) + "");
    assert "em " + (StampText(d) + "") == "em " + StampText(d) + "";
    HeaderDateFound("em ", d, "");
  }

  /** The example statement is a digit-free prefix, the stamp of 11 August 2020, and nothing else. */
  lemma ExampleStatement()
    ensures "em " + StampText(Date(2020, 8, 11)) + "" == "em 11/08/2020"
  {
    assert ShowNat(11) == "11" && ShowNat(8) == "8" && ShowNat(2020) == "2020";
    assert ZFill("8", 2) == "08";
    assert StampText(Date(2020, 8, 11)) == "11" + "/" + "08" + "/" + "2020";
  }
}
