/**
 The form's validation of a candidate show: one independent rule per field,
 a staged rule for the show date, the weekday test, the 24-hour time
 pattern, the positive-price test and the uniqueness check against the
 stored list.
 */
module Validation {
  import opened Text
  import opened Calendar
  import opened Records

  /** The form's inputs. `endDate` is the read-only bound left by the previous save (empty on a fresh form). */
  datatype Candidate = Candidate(
    movieTitle: string,
    theater: string,
    showDate: string,
    showTime: string,
    endDate: string,
    ticketPrice: string,
    subtitles: bool,
    imax: bool,
    notes: string)

  datatype Field = MovieTitle | Theater | ShowDate | ShowTime | TicketPrice

  const AllFields: set<Field> := {MovieTitle, Theater, ShowDate, ShowTime, TicketPrice}

  /** One constructor per message the form can show under a field. */
  datatype FieldError =
    | Required(field: Field)
    | DateFormat
    | InvalidDate
    | NotWeekday
    | AfterEndDate
    | TimeFormat
    | PriceNotPositive

  /** The per-field error map and the separate uniqueness flag. */
  datatype Validation = Validation(errors: map<Field, FieldError>, duplicate: bool)

  // ---------------------------------------------------------------------
  // Show date

  /** Monday to Friday. */
  predicate WorkingDay(d: Date)
    requires InCalendar(d)
  {
    DayOfWeek(d) != 0 && DayOfWeek(d) != 6
  }

  /** The form's weekday test on the raw `dd/mm/yyyy` text. */
  function IsWeekday(s: string): (r: bool)
    ensures r <==> ParseShowDate(s).Some? && WorkingDay(ParseShowDate(s).value)
  {
    if s == "" then false
    else
      var parts := Split(s, '/');
      if |parts| == 3 then
        match DateFromParts(parts[0], parts[1], parts[2])
        case None => false
        case Some(d) => DayOfWeek(d) != 0 && DayOfWeek(d) != 6
      else false
  }

  /** The show date lies after the end-date bound; an empty or unreadable bound compares as false. */
  predicate AfterBound(d: Date, endDate: string)
  {
    endDate != "" && ParseIsoDate(endDate).Some? && Before(ParseIsoDate(endDate).value, d)
  }

  /** What the show date must satisfy: a valid weekday date not after the bound. */
  predicate ShowDateAcceptable(s: string, endDate: string)
  {
    ParseShowDate(s).Some? && WorkingDay(ParseShowDate(s).value) && !AfterBound(ParseShowDate(s).value, endDate)
  }

  /** The show date's single error, the first failing stage in the order the form checks them. */
  function ShowDateError(s: string, endDate: string): (r: Option<FieldError>)
    ensures r.None? <==> ShowDateAcceptable(s, endDate)
    ensures r == Some(Required(ShowDate)) <==> s == ""
    ensures r == Some(DateFormat) <==> s != "" && |Split(s, '/')| != 3
    ensures r == Some(InvalidDate) <==> s != "" && |Split(s, '/')| == 3 && ParseShowDate(s).None?
    ensures r == Some(NotWeekday) <==> ParseShowDate(s).Some? && !WorkingDay(ParseShowDate(s).value)
    ensures r == Some(AfterEndDate) <==>
      ParseShowDate(s).Some? && WorkingDay(ParseShowDate(s).value) && AfterBound(ParseShowDate(s).value, endDate)
  {
    if s == "" then Some(Required(ShowDate))
    else
      var parts := Split(s, '/');
      if |parts| != 3 then Some(DateFormat)
      else
        match DateFromParts(parts[0], parts[1], parts[2])
        case None => Some(InvalidDate)
        case Some(d) =>
          if !IsWeekday(s) then Some(NotWeekday)
          else if endDate != "" && (match ParseIsoDate(endDate) case Some(e) => Before(e, d) case None => false) then
            Some(AfterEndDate)
          else None
  }

  // ---------------------------------------------------------------------
  // Show time

  predicate InRange(ch: char, lo: char, hi: char) { lo <= ch <= hi }

  /** `/^([01]?[0-9]|2[0-3]):[0-5][0-9]$/`, written out character by character. */
  predicate TimePattern(s: string)
  {
    || (|s| == 4 && IsDigit(s[0]) && s[1] == ':' && InRange(s[2], '0', '5') && IsDigit(s[3]))
    || (|s| == 5
        && ((InRange(s[0], '0', '1') && IsDigit(s[1])) || (s[0] == '2' && InRange(s[1], '0', '3')))
        && s[2] == ':' && InRange(s[3], '0', '5') && IsDigit(s[4]))
  }

  /** Reference reading of a 24-hour time: a 1- or 2-digit hour below 24, a colon, a 2-digit minute below 60. */
  function ParseTime(s: string): Option<(nat, nat)>
  {
    var parts := Split(s, ':');
    if |parts| == 2 && 1 <= |parts[0]| <= 2 && |parts[1]| == 2 then
      match (ParseNat(parts[0]), ParseNat(parts[1]))
      case (Some(h), Some(m)) => if h < 24 && m < 60 then Some((h, m)) else None
      case _ => None
    else None
  }

  function ShowTimeError(s: string): (r: Option<FieldError>)
    ensures r == Some(Required(ShowTime)) <==> s == ""
    ensures r == Some(TimeFormat) <==> s != "" && !TimePattern(s)
    ensures r.None? <==> ParseTime(s).Some?
  {
    TimePatternIsParse(s);
    if s == "" then Some(Required(ShowTime))
    else if !TimePattern(s) then Some(TimeFormat)
    else None
  }

  lemma SplitAtColon(s: string, k: nat)
    requires k < |s| && s[k] == ':'
    requires forall i :: 0 <= i < |s| && i != k ==> IsDigit(s[i])
    ensures Split(s, ':') == [s[..k], s[k + 1..]]
  {
    var a, b := s[..k], s[k + 1..];
    DigitsAroundColon(s, k);
    assert s == a + [':'] + b;
    SplitDigitsAtColon(a, b);
  }

  lemma DigitsAroundColon(s: string, k: nat)
    requires k < |s|
    requires forall i :: 0 <= i < |s| && i != k ==> IsDigit(s[i])
    ensures AllDigits(s[..k]) && AllDigits(s[k + 1..])
  {
    var a, b := s[..k], s[k + 1..];
    forall i | 0 <= i < |a| ensures IsDigit(a[i]) { assert a[i] == s[i]; }
    forall i | 0 <= i < |b| ensures IsDigit(b[i]) { assert b[i] == s[k + 1 + i]; }
  }

  lemma SplitDigitsAtColon(a: string, b: string)
    requires AllDigits(a) && AllDigits(b)
    ensures Split(a + [':'] + b, ':') == [a, b]
  {
    DigitsHaveNoSeparator(a, ':');
    DigitsHaveNoSeparator(b, ':');
    SplitPeel(a, ':', b);
    SplitWhole(b, ':');
  }

  lemma TwoDigits(s: string)
    requires |s| == 2 && AllDigits(s)
    ensures DigitsValue(s) == DigitValue(s[0]) * 10 + DigitValue(s[1])
  {
    var p := s[..1];
    assert p == [s[0]];
    assert p[..0] == [];
    assert DigitsValue(p) == DigitValue(s[0]);
  }

  lemma OneDigit(s: string)
    requires |s| == 1 && AllDigits(s)
    ensures DigitsValue(s) == DigitValue(s[0])
  {
    assert s[..0] == [];
  }

  /** The regular expression accepts exactly the times the reference reading accepts. */
  lemma {:induction false} TimePatternIsParse(s: string)
    ensures TimePattern(s) <==> ParseTime(s).Some?
  {
    if TimePattern(s) {
      var k := if |s| == 4 then 1 else 2;
      SplitAtColon(s, k);
      var hh, mm := s[..k], s[k + 1..];
      TwoDigits(mm);
      if k == 1 { OneDigit(hh); } else { TwoDigits(hh); }
    }
    if ParseTime(s).Some? {
      var parts := Split(s, ':');
      JoinSplit(s, ':');
      var hh, mm := parts[0], parts[1];
      assert s == hh + [':'] + mm;
      TwoDigits(mm);
      if |hh| == 1 {
        OneDigit(hh);
        assert s[0] == hh[0] && s[1] == ':' && s[2] == mm[0] && s[3] == mm[1];
      } else {
        TwoDigits(hh);
        assert s[0] == hh[0] && s[1] == hh[1] && s[2] == ':' && s[3] == mm[0] && s[4] == mm[1];
      }
    }
  }

  /** The boundary cases of the time pattern. */
  lemma TimeExamples()
    ensures TimePattern("9:05") && TimePattern("23:59") && TimePattern("00:00")
    ensures !TimePattern("24:00") && !TimePattern("12:60") && !TimePattern("12:5")
  {
  }

  // ---------------------------------------------------------------------
  // Ticket price

  /** A decimal number: sign, digits as one integer, and the count of digits after the point. */
  datatype Decimal = Decimal(negative: bool, units: nat, scale: nat)

  /** A signed decimal numeral with at most one point and at least one digit. */
  function ParseDecimal(s: string): Option<Decimal>
  {
    var negative := |s| > 0 && s[0] == '-';
    var body := if |s| > 0 && (s[0] == '-' || s[0] == '+') then s[1..] else s;
    var parts := Split(body, '.');
    if |parts| > 2 then None
    else
      var whole := parts[0];
      var frac := if |parts| == 2 then parts[1] else "";
      if AllDigits(whole) && AllDigits(frac) && |whole| + |frac| > 0 then
        DigitsAppend(whole, frac);
        Some(Decimal(negative, DigitsValue(whole + frac), |frac|))
      else None
  }

  /** Numeric and strictly greater than zero. */
  predicate PricePositive(s: string)
  {
    ParseDecimal(s).Some? && !ParseDecimal(s).value.negative && ParseDecimal(s).value.units > 0
  }

  function PriceError(s: string): (r: Option<FieldError>)
    ensures r == Some(Required(TicketPrice)) <==> s == ""
    ensures r.None? <==> PricePositive(s)
    ensures r == Some(PriceNotPositive) <==> s != "" && !PricePositive(s)
  {
    if s == "" then Some(Required(TicketPrice))
    else if !PricePositive(s) then Some(PriceNotPositive)
    else None
  }

  /** An amount written with two decimals, such as `10.00`, reads back as that many hundredths. */
  lemma {:induction false} PriceRoundTrip(whole: nat, cents: nat)
    requires cents < 100
    ensures ParseDecimal(NatToString(whole) + "." + Pad2(cents)) == Some(Decimal(false, whole * 100 + cents, 2))
    ensures PricePositive(NatToString(whole) + "." + Pad2(cents)) <==> whole > 0 || cents > 0
  {
    var w, c := NatToString(whole), Pad2(cents);
    var s := w + "." + c;
    PriceSplits(w, c);
    ParseNatToString(whole);
    DigitsAppend(w, c);
    assert Pow10(2) == 100;
  }

  /** A digit string, a point and a digit string: no sign, and the point splits it in two. */
  lemma PriceSplits(w: string, c: string)
    requires |w| > 0 && AllDigits(w) && AllDigits(c)
    ensures (w + "." + c)[0] == w[0] && w[0] != '-' && w[0] != '+'
    ensures Split(w + "." + c, '.') == [w, c]
  {
    var s := w + "." + c;
    assert s[0] == w[0];
    DigitsHaveNoSeparator(w, '.');
    DigitsHaveNoSeparator(c, '.');
    assert s == w + ['.'] + c;
    SplitPeel(w, '.', c);
    SplitWhole(c, '.');
  }

  // ---------------------------------------------------------------------
  // Uniqueness

  function CandidateKey(c: Candidate): ShowKey
  {
    ShowKey(c.theater, c.movieTitle, c.showDate, c.showTime)
  }

  /** All four identity fields are filled in, the condition for checking uniqueness at all. */
  predicate KeyPresent(c: Candidate)
  {
    c.theater != "" && c.movieTitle != "" && c.showDate != "" && c.showTime != ""
  }

  /** `existingShows.some(...)`: some stored record has exactly this key. */
  function AnyWithKey(shows: seq<Show>, key: ShowKey): (r: bool)
    ensures r <==> exists i :: 0 <= i < |shows| && KeyOf(shows[i]) == key
    decreases |shows|
  {
    if |shows| == 0 then false
    else if KeyOf(shows[0]) == key then true
    else
      var r := AnyWithKey(shows[1..], key);
      assert forall i :: 1 <= i < |shows| ==> shows[i] == shows[1..][i - 1];
      r
  }

  function IsDuplicate(c: Candidate, stored: seq<Show>): (r: bool)
    ensures r <==> KeyPresent(c) && exists i :: 0 <= i < |stored| && KeyOf(stored[i]) == CandidateKey(c)
  {
    KeyPresent(c) && AnyWithKey(stored, CandidateKey(c))
  }

  // ---------------------------------------------------------------------
  // The whole form

  function FieldCheck(c: Candidate, f: Field): Option<FieldError>
  {
    match f
    case MovieTitle => if c.movieTitle == "" then Some(Required(MovieTitle)) else None
    case Theater => if c.theater == "" then Some(Required(Theater)) else None
    case ShowDate => ShowDateError(c.showDate, c.endDate)
    case ShowTime => ShowTimeError(c.showTime)
    case TicketPrice => PriceError(c.ticketPrice)
  }

  /** The inputs each field's rule reads. */
  function FieldInputs(c: Candidate, f: Field): seq<string>
  {
    match f
    case MovieTitle => [c.movieTitle]
    case Theater => [c.theater]
    case ShowDate => [c.showDate, c.endDate]
    case ShowTime => [c.showTime]
    case TicketPrice => [c.ticketPrice]
  }

  /** Every field is checked; the uniqueness flag is computed on the side. */
  function Validate(c: Candidate, stored: seq<Show>): (v: Validation)
    ensures MovieTitle in v.errors <==> c.movieTitle == ""
    ensures Theater in v.errors <==> c.theater == ""
    ensures ShowDate in v.errors <==> !ShowDateAcceptable(c.showDate, c.endDate)
    ensures ShowTime in v.errors <==> ParseTime(c.showTime).None?
    ensures TicketPrice in v.errors <==> !PricePositive(c.ticketPrice)
    ensures forall f :: f in v.errors ==> (v.errors[f].Required? ==> v.errors[f].field == f)
    ensures MovieTitle in v.errors ==> v.errors[MovieTitle] == Required(MovieTitle)
    ensures Theater in v.errors ==> v.errors[Theater] == Required(Theater)
    ensures forall f :: f in v.errors ==> Some(v.errors[f]) == FieldCheck(c, f)
    ensures v.duplicate <==> KeyPresent(c) && exists i :: 0 <= i < |stored| && KeyOf(stored[i]) == CandidateKey(c)
  {
    var errors := map f | f in AllFields && FieldCheck(c, f).Some? :: FieldCheck(c, f).value;
    FieldErrorsOwned(c);
    Validation(errors, IsDuplicate(c, stored))
  }

  lemma FieldErrorsOwned(c: Candidate)
    ensures forall f :: FieldCheck(c, f).Some? && FieldCheck(c, f).value.Required? ==> FieldCheck(c, f).value.field == f
    ensures FieldCheck(c, MovieTitle).Some? <==> c.movieTitle == ""
    ensures FieldCheck(c, Theater).Some? <==> c.theater == ""
    ensures FieldCheck(c, ShowDate).Some? <==> !ShowDateAcceptable(c.showDate, c.endDate)
    ensures FieldCheck(c, ShowTime).Some? <==> ParseTime(c.showTime).None?
    ensures FieldCheck(c, TicketPrice).Some? <==> !PricePositive(c.ticketPrice)
  {
    var d := ShowDateError(c.showDate, c.endDate);
    if d.Some? && d.value.Required? {
      assert d == Some(Required(d.value.field));
    }
  }

  /** The intended acceptance rule: no field error and no duplicate. */
  predicate Accepted(v: Validation)
  {
    |v.errors| == 0 && !v.duplicate
  }

  /** A candidate whose every field meets its rule. */
  predicate WellFormed(c: Candidate)
  {
    && c.movieTitle != ""
    && c.theater != ""
    && ShowDateAcceptable(c.showDate, c.endDate)
    && ParseTime(c.showTime).Some?
    && PricePositive(c.ticketPrice)
  }

  /** The field-error map is empty exactly for well-formed candidates. */
  lemma {:induction false} NoFieldErrorsIff(c: Candidate, stored: seq<Show>)
    ensures |Validate(c, stored).errors| == 0 <==> WellFormed(c)
  {
    var v := Validate(c, stored);
    if WellFormed(c) {
      assert forall f :: f in AllFields ==> f !in v.errors;
      assert v.errors.Keys == {};
    }
    if |v.errors| == 0 {
      assert v.errors.Keys == {};
    }
  }

  /** Validation accepts exactly the well-formed candidates whose key is not already stored. */
  lemma {:induction false} AcceptedIff(c: Candidate, stored: seq<Show>)
    ensures Accepted(Validate(c, stored)) <==>
      WellFormed(c) && !exists i :: 0 <= i < |stored| && KeyOf(stored[i]) == CandidateKey(c)
  {
    NoFieldErrorsIff(c, stored);
    if WellFormed(c) {
      assert c.showDate != "" && c.showTime != "";
    }
  }

  /** Each field's error depends only on that field's own inputs. */
  lemma {:induction false} ErrorsIndependent(c1: Candidate, c2: Candidate, s1: seq<Show>, s2: seq<Show>, f: Field)
    requires FieldInputs(c1, f) == FieldInputs(c2, f)
    ensures f in Validate(c1, s1).errors <==> f in Validate(c2, s2).errors
    ensures f in Validate(c1, s1).errors ==> Validate(c1, s1).errors[f] == Validate(c2, s2).errors[f]
  {
    assert FieldInputs(c1, f)[0] == FieldInputs(c2, f)[0];
    if f == ShowDate {
      assert FieldInputs(c1, f)[1] == FieldInputs(c2, f)[1];
    }
    assert FieldCheck(c1, f) == FieldCheck(c2, f);
  }
}
