/** The validated field values of a contact: phone numbers and birthdays.
    A name is kept as plain text; it is never validated. */
module Fields {
  import opened Wrappers
  import opened Calendar

  /** The two validation failures of the fields, each raised as a `ValueError`. */
  datatype FieldError = InvalidPhone | InvalidDate

  /** The text each error is raised with. */
  function Message(e: FieldError): string
  {
    match e
    case InvalidPhone => "Invalid phone number. It must contain exactly 10 digits."
    case InvalidDate => "Invalid date format. Use DD.MM.YYYY"
  }

  /** An ASCII decimal digit. */
  predicate IsDigit(c: char)
  {
    '0' <= c <= '9'
  }

  predicate IsNonZeroDigit(c: char)
  {
    '1' <= c <= '9'
  }

  function DigitValue(c: char): (v: int)
    requires IsDigit(c)
    ensures 0 <= v <= 9
  {
    c as int - '0' as int
  }

  function DigitChar(v: int): (c: char)
    requires 0 <= v <= 9
    ensures IsDigit(c) && DigitValue(c) == v
  {
    ('0' as int + v) as char
  }

  /** Every character is a digit. */
  function AllDigits(t: string): (ok: bool)
    ensures ok <==> forall i :: 0 <= i < |t| ==> IsDigit(t[i])
  {
    t == [] || (IsDigit(t[0]) && AllDigits(t[1..]))
  }

  // ---------------------------------------------------------------- phones

  /** `Phone.validate`: the text fully matches `\d{10}`. */
  function IsValidPhone(t: string): (ok: bool)
    ensures ok <==> |t| == 10 && forall i :: 0 <= i < |t| ==> IsDigit(t[i])
  {
    |t| == 10 && AllDigits(t)
  }

  /** The value of a constructed `Phone`: it always passed validation. */
  type PhoneNumber = t: string | IsValidPhone(t) witness "0000000000"

  /** `Phone(text)`: the phone, or the validation error. */
  function NewPhone(t: string): (r: Result<PhoneNumber, FieldError>)
    ensures r.Success? <==> IsValidPhone(t)
    ensures r.Success? ==> r.value == t
    ensures r.Failure? ==> r.error == InvalidPhone
    ensures r.Failure? ==> Message(r.error) == "Invalid phone number. It must contain exactly 10 digits."
  {
    if IsValidPhone(t) then Success(t) else Failure(InvalidPhone)
  }

  // ------------------------------------------------------------- birthdays

  /** Text matched by `%d` in `strptime`: `3[01]|[12]\d|0[1-9]|[1-9]| [1-9]`. */
  predicate DayField(t: string)
  {
    || (|t| == 2 && t[0] == '3' && (t[1] == '0' || t[1] == '1'))
    || (|t| == 2 && (t[0] == '1' || t[0] == '2') && IsDigit(t[1]))
    || (|t| == 2 && t[0] == '0' && IsNonZeroDigit(t[1]))
    || (|t| == 1 && IsNonZeroDigit(t[0]))
    || (|t| == 2 && t[0] == ' ' && IsNonZeroDigit(t[1]))
  }

  /** Text matched by `%m` in `strptime`: `1[0-2]|0[1-9]|[1-9]`. */
  predicate MonthField(t: string)
  {
    || (|t| == 2 && t[0] == '1' && '0' <= t[1] <= '2')
    || (|t| == 2 && t[0] == '0' && IsNonZeroDigit(t[1]))
    || (|t| == 1 && IsNonZeroDigit(t[0]))
  }

  /** Text matched by `%Y` in `strptime`: exactly four digits. */
  predicate YearField(t: string)
  {
    |t| == 4 && AllDigits(t)
  }

  /** `int()` of a day or month field: one digit, two digits, or a space and a digit. */
  function SmallValue(t: string): (v: int)
    requires DayField(t) || MonthField(t)
    ensures 1 <= v <= 31
  {
    if |t| == 1 then DigitValue(t[0])
    else if t[0] == ' ' then DigitValue(t[1])
    else 10 * DigitValue(t[0]) + DigitValue(t[1])
  }

  function YearValue(t: string): (v: int)
    requires YearField(t)
    ensures 0 <= v <= 9999
  {
    1000 * DigitValue(t[0]) + 100 * DigitValue(t[1]) + 10 * DigitValue(t[2]) + DigitValue(t[3])
  }

  /** The length of the day or month field at the front of `s`, when a dot ends it. */
  function FieldLength(s: string): (k: Option<nat>)
    ensures k.Some? ==> (k.value == 1 || k.value == 2) && k.value < |s| && s[k.value] == '.'
  {
    if |s| >= 2 && s[1] == '.' then Some(1)
    else if |s| >= 3 && s[2] == '.' then Some(2)
    else None
  }

  /** `datetime.strptime(s, "%d.%m.%Y")`: the whole text must match the pattern and
      denote a real calendar date. */
  function ParseDate(s: string): (r: Option<CivilDate>)
    ensures r.Some? ==> 8 <= |s| <= 10 && s[|s| - 5] == '.' && YearField(s[|s| - 4..])
    ensures r.Some? ==> r.value.year == YearValue(s[|s| - 4..])
  {
    match FieldLength(s)
    case None => None
    case Some(k) =>
      var dayText, rest := s[..k], s[k + 1..];
      if !DayField(dayText) then None
      else match FieldLength(rest)
        case None => None
        case Some(l) =>
          var monthText, yearText := rest[..l], rest[l + 1..];
          if !MonthField(monthText) || !YearField(yearText) then None
          else
            var d := Date(YearValue(yearText), SmallValue(monthText), SmallValue(dayText));
            if ValidDate(d) then Some(d) else None
  }

  /** `Birthday(text)`: the parsed date, or the validation error. */
  function NewBirthday(s: string): (r: Result<CivilDate, FieldError>)
    ensures r.Success? <==> ParseDate(s).Some?
    ensures r.Success? ==> Some(r.value) == ParseDate(s)
    ensures r.Failure? ==> r.error == InvalidDate
    ensures r.Failure? ==> Message(r.error) == "Invalid date format. Use DD.MM.YYYY"
  {
    match ParseDate(s)
    case Some(d) => Success(d)
    case None => Failure(InvalidDate)
  }

  /** Two digits, zero-padded, as `%d` and `%m` print. */
  function Pad2(v: int): (t: string)
    requires 0 <= v <= 99
    ensures |t| == 2
  {
    [DigitChar(v / 10), DigitChar(v % 10)]
  }

  /** Four digits, zero-padded. */
  function Pad4(v: int): (t: string)
    requires 0 <= v <= 9999
    ensures |t| == 4
  {
    [DigitChar(v / 1000), DigitChar(v / 100 % 10), DigitChar(v / 10 % 10), DigitChar(v % 10)]
  }

  /** `strftime('%d.%m.%Y')`. */
  function Render(d: CivilDate): (t: string)
    ensures |t| == 10 && t[2] == '.' && t[5] == '.'
    ensures forall i :: 0 <= i < 10 && i != 2 && i != 5 ==> IsDigit(t[i])
  {
    Pad2(d.day) + "." + Pad2(d.month) + "." + Pad4(d.year)
  }

  /** The text is one of the spellings of `d` that the pattern matches: day and month
      fields of one or two characters, a four-digit year, separated by dots. */
  ghost predicate Spells(s: string, d: Date)
  {
    exists dayText, monthText, yearText ::
      && DayField(dayText) && MonthField(monthText) && YearField(yearText)
      && s == dayText + "." + monthText + "." + yearText
      && d == Date(YearValue(yearText), SmallValue(monthText), SmallValue(dayText))
  }

  /** A split of the text into a day field, a month field and a year field is found
      by `ParseDate`, which then accepts it exactly when it names a real date. */
  lemma ParseFields(dayText: string, monthText: string, yearText: string)
    requires DayField(dayText) && MonthField(monthText) && YearField(yearText)
    ensures var d := Date(YearValue(yearText), SmallValue(monthText), SmallValue(dayText));
      ParseDate(dayText + "." + monthText + "." + yearText) == if ValidDate(d) then Some(d) else None
  {
    var rest := monthText + "." + yearText;
    var s := dayText + "." + rest;
    assert s == dayText + "." + monthText + "." + yearText;
    var k := |dayText|;
    assert s[..k] == dayText && s[k + 1..] == rest;
    assert s[k] == '.' && (k == 2 ==> s[1] == dayText[1] && IsDigit(dayText[1]));
    assert FieldLength(s) == Some(k);
    var l := |monthText|;
    assert rest[..l] == monthText && rest[l + 1..] == yearText;
    assert rest[l] == '.' && (l == 2 ==> rest[1] == monthText[1] && IsDigit(monthText[1]));
    assert FieldLength(rest) == Some(l);
  }

  /** `ParseDate` accepts a text exactly when it spells a real calendar date in the pattern. */
  lemma ParseExactly(s: string, d: Date)
    ensures ParseDate(s) == Some(d) <==> ValidDate(d) && Spells(s, d)
  {
    if ParseDate(s) == Some(d) {
      var k := FieldLength(s).value;
      var dayText, rest := s[..k], s[k + 1..];
      var l := FieldLength(rest).value;
      var monthText, yearText := rest[..l], rest[l + 1..];
      assert rest == monthText + "." + yearText;
      assert s == dayText + "." + monthText + "." + yearText;
      assert DayField(dayText) && MonthField(monthText) && YearField(yearText);
    }
    if ValidDate(d) && Spells(s, d) {
      var dayText, monthText, yearText :|
        && DayField(dayText) && MonthField(monthText) && YearField(yearText)
        && s == dayText + "." + monthText + "." + yearText
        && d == Date(YearValue(yearText), SmallValue(monthText), SmallValue(dayText));
      ParseFields(dayText, monthText, yearText);
    }
  }

  lemma TwoDigits(a: int, b: int)
    requires 0 <= a <= 9 && 0 <= b <= 9
    ensures (10 * a + b) / 10 == a && (10 * a + b) % 10 == b
  {
  }

  lemma FourDigits(a: int, b: int, c: int, d: int)
    requires 0 <= a <= 9 && 0 <= b <= 9 && 0 <= c <= 9 && 0 <= d <= 9
    ensures var v := 1000 * a + 100 * b + 10 * c + d;
      v / 1000 == a && v / 100 % 10 == b && v / 10 % 10 == c && v % 10 == d
  {
    var v := 1000 * a + 100 * b + 10 * c + d;
    assert v / 10 == 100 * a + 10 * b + c;
    assert v / 100 == 10 * a + b;
  }

  lemma SplitDigits(v: int, y: int)
    requires 0 <= v <= 99 && 0 <= y <= 9999
    ensures 10 * (v / 10) + v % 10 == v
    ensures 1000 * (y / 1000) + 100 * (y / 100 % 10) + 10 * (y / 10 % 10) + y % 10 == y
  {
  }

  /** The padded text of a value is a field of that value. */
  lemma PadValues(v: int, y: int)
    requires 1 <= v <= 31 && 0 <= y <= 9999
    ensures DayField(Pad2(v)) && SmallValue(Pad2(v)) == v
    ensures v <= 12 ==> MonthField(Pad2(v))
    ensures YearField(Pad4(y)) && YearValue(Pad4(y)) == y
  {
    SplitDigits(v, y);
    var t := Pad2(v);
    assert DigitValue(t[0]) == v / 10 && DigitValue(t[1]) == v % 10;
    var u := Pad4(y);
    assert DigitValue(u[0]) == y / 1000 && DigitValue(u[1]) == y / 100 % 10;
    assert DigitValue(u[2]) == y / 10 % 10 && DigitValue(u[3]) == y % 10;
  }

  /** A zero-padded two-character field is the padding of its own value, and so is a year. */
  lemma PaddedFields(dayText: string, yearText: string)
    requires DayField(dayText) && |dayText| == 2 && dayText[0] != ' '
    requires YearField(yearText)
    ensures Pad2(SmallValue(dayText)) == dayText
    ensures Pad4(YearValue(yearText)) == yearText
  {
    TwoDigits(DigitValue(dayText[0]), DigitValue(dayText[1]));
    assert DigitChar(DigitValue(dayText[0])) == dayText[0];
    assert DigitChar(DigitValue(dayText[1])) == dayText[1];
    FourDigits(DigitValue(yearText[0]), DigitValue(yearText[1]), DigitValue(yearText[2]), DigitValue(yearText[3]));
    assert forall i :: 0 <= i < 4 ==> DigitChar(DigitValue(yearText[i])) == yearText[i];
  }

  /** Rendering and parsing back gives the date again. */
  lemma RenderParse(d: CivilDate)
    ensures ParseDate(Render(d)) == Some(d)
  {
    PadValues(d.day, d.year);
    PadValues(d.month, d.year);
    ParseFields(Pad2(d.day), Pad2(d.month), Pad4(d.year));
  }

  /** Parsing and rendering back reproduces the text exactly when it was written
      zero-padded: ten characters, no leading space in the day. */
  lemma ParseRender(s: string, d: CivilDate)
    requires ParseDate(s) == Some(d)
    ensures Render(d) == s <==> |s| == 10 && s[0] != ' '
  {
    ParseExactly(s, d);
    var dayText, monthText, yearText :|
      && DayField(dayText) && MonthField(monthText) && YearField(yearText)
      && s == dayText + "." + monthText + "." + yearText
      && d == Date(YearValue(yearText), SmallValue(monthText), SmallValue(dayText));
    assert s[0] == dayText[0];
    if |s| == 10 && s[0] != ' ' {
      PaddedFields(dayText, yearText);
      PaddedFields(monthText, yearText);
      assert Render(d) == s;
    }
    if Render(d) == s {
      assert Render(d)[0] == DigitChar(d.day / 10);
    }
  }
}
