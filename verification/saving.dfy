/**
 The save step: validate, derive the end date (show date plus seven days,
 as `yyyy-mm-dd`), assign `showId = count + 1` and append one record to the
 store. Also the save as the form wires it today, where the duplicate
 banner is read from the previous render.
 */
module Saving {
  import opened Text
  import opened Calendar
  import opened Records
  import opened Validation

  datatype SaveOutcome =
    | Rejected(validation: Validation)   // nothing written
    | Aborted                            // the show date failed to re-parse; nothing written
    | Saved(store: Store, endDate: string)

  /** The record the save appends for candidate `c`. */
  function NewShow(c: Candidate, showId: int, savedAt: string): (s: Show)
    ensures KeyOf(s) == CandidateKey(c)
  {
    Show(showId, c.showDate, c.showTime, c.movieTitle, c.theater, c.subtitles, c.imax, c.notes, savedAt)
  }

  /** The end date the save derives: seven calendar days after the parsed show date, as `yyyy-mm-dd`. */
  function EndDateFor(showDate: string): (r: Option<string>)
    ensures r.Some? <==> ParseShowDate(showDate).Some?
    ensures r.Some? ==>
      && ParseIsoDate(r.value).Some?
      && DayNumber(ParseIsoDate(r.value).value) == DayNumber(ParseShowDate(showDate).value) + 7
    ensures r.Some? ==> r.value == IsoText(AddDays(ParseShowDate(showDate).value, 7))
  {
    match ParseShowDate(showDate)
    case None => None
    case Some(d) =>
      var e := AddDays(d, 7);
      IsoRoundTrip(e);
      Some(IsoText(e))
  }

  /** The stored list with one record added at the end and nothing else touched. */
  function Append(shows: seq<Show>, s: Show): (w: seq<Show>)
    ensures |w| == |shows| + 1
    ensures w[..|shows|] == shows && w[|shows|] == s
  {
    var w := shows + [s];
    assert w[..|shows|] == shows;
    w
  }

  /** A candidate with no field errors has a show date that parses, whatever the duplicate flag says. */
  lemma NoErrorsDateParses(c: Candidate, shows: seq<Show>)
    requires |Validate(c, shows).errors| == 0
    ensures ParseShowDate(c.showDate).Some?
  {
    NoFieldErrorsIff(c, shows);
  }

  /** A candidate the validator accepts has a show date that parses, so the save never aborts. */
  lemma AcceptedDateParses(c: Candidate, shows: seq<Show>)
    requires Accepted(Validate(c, shows))
    ensures ParseShowDate(c.showDate).Some?
  {
    AcceptedIff(c, shows);
  }

  /**
   Saving candidate `c` into `st`: a rejected save writes nothing; an
   accepted one writes the old list plus one record at the end.
   */
  function Save(c: Candidate, st: Store, savedAt: string): (o: SaveOutcome)
    ensures o.Rejected? <==> !Accepted(Validate(c, Load(st)))
    ensures !o.Aborted?
    ensures o.Saved? ==>
      && o.store.Some?
      && |o.store.value| == |Load(st)| + 1
      && o.store.value[..|Load(st)|] == Load(st)
      && o.store.value[|Load(st)|] == NewShow(c, |Load(st)| + 1, savedAt)
      && Some(o.endDate) == EndDateFor(c.showDate)
  {
    var shows := Load(st);
    var v := Validate(c, shows);
    if !Accepted(v) then Rejected(v)
    else
      AcceptedDateParses(c, shows);
      Write(c, shows, savedAt)
  }

  /**
   The write once validation has passed: the end date is derived, and the
   record with `showId = count + 1` is appended; a show date that does not
   re-parse aborts with nothing written.
   */
  function Write(c: Candidate, shows: seq<Show>, savedAt: string): (o: SaveOutcome)
    ensures !o.Rejected?
    ensures o.Aborted? <==> ParseShowDate(c.showDate).None?
    ensures o.Saved? ==>
      && o.store == Some(Append(shows, NewShow(c, |shows| + 1, savedAt)))
      && Some(o.endDate) == EndDateFor(c.showDate)
  {
    match EndDateFor(c.showDate)
    case None => Aborted
    case Some(endDate) => Saved(Some(Append(shows, NewShow(c, |shows| + 1, savedAt))), endDate)
  }

  /** An accepted save stores exactly the old list with the new record appended. */
  lemma SavedIsAppend(c: Candidate, st: Store, savedAt: string)
    requires Save(c, st, savedAt).Saved?
    ensures Accepted(Validate(c, Load(st)))
    ensures Save(c, st, savedAt).store == Some(Append(Load(st), NewShow(c, |Load(st)| + 1, savedAt)))
  {
  }

  /** An accepted save keeps the stored keys unique. */
  lemma {:induction false} SaveKeepsKeysUnique(c: Candidate, st: Store, savedAt: string)
    requires UniqueKeys(Load(st))
    requires Save(c, st, savedAt).Saved?
    ensures UniqueKeys(Save(c, st, savedAt).store.value)
  {
    var shows := Load(st);
    var o := Save(c, st, savedAt);
    AcceptedIff(c, shows);
    var s := NewShow(c, |shows| + 1, savedAt);
    assert o.store.value == Append(shows, s);
    AppendKeepsUnique(shows, s);
  }

  /** Adding a record whose key no stored record has keeps the keys unique. */
  lemma AppendKeepsUnique(shows: seq<Show>, s: Show)
    requires UniqueKeys(shows)
    requires forall i :: 0 <= i < |shows| ==> KeyOf(shows[i]) != KeyOf(s)
    ensures UniqueKeys(Append(shows, s))
  {
    var w := Append(shows, s);
    forall i, j | 0 <= i < j < |w|
      ensures KeyOf(w[i]) != KeyOf(w[j])
    {
      assert w[i] == shows[i];
      if j < |shows| { assert w[j] == shows[j]; }
    }
  }

  /** Saving the same showing twice: the second save is rejected as a duplicate. */
  lemma {:induction false} SecondSaveRejected(c: Candidate, st: Store, t1: string, t2: string)
    requires Save(c, st, t1).Saved?
    ensures Save(c, Save(c, st, t1).store, t2).Rejected?
    ensures Validate(c, Save(c, st, t1).store.value).duplicate
  {
    var shows := Load(st);
    var n := |shows|;
    SavedIsAppend(c, st, t1);
    AcceptedIff(c, shows);
    assert KeyPresent(c) by {
      assert c.showDate != "" by { assert |Split(c.showDate, '/')| == 3; }
      assert c.showTime != "" by { assert ParseTime(c.showTime).Some?; }
    }
    var written := Append(shows, NewShow(c, n + 1, t1));
    assert KeyOf(written[n]) == CandidateKey(c);
    assert Validate(c, written).duplicate;
  }

  /** After a save the form holds the derived end date, and its show date is never after it. */
  lemma {:induction false} EndDateNotBeforeShow(c: Candidate, st: Store, savedAt: string)
    requires Save(c, st, savedAt).Saved?
    ensures !AfterBound(ParseShowDate(c.showDate).value, Save(c, st, savedAt).endDate)
  {
    var d := ParseShowDate(c.showDate).value;
    var endDate := Save(c, st, savedAt).endDate;
    var e := ParseIsoDate(endDate).value;
    DayNumberOrder(e, d);
  }

  /** The worked example: Monday 01/07/2024 ends on 2024-07-08. */
  lemma EndDateExample()
    ensures EndDateFor("01/07/2024") == Some("2024-07-08")
  {
    DuneDate();
    WeekAfterDune();
    IsoJulyEighth();
  }

  lemma WeekAfterDune()
    ensures AddDays(Date(1, 7, 2024), 7) == Date(8, 7, 2024)
  {
    var e := AddDays(Date(1, 7, 2024), 7);
    July2024();
    DayNumberInjective(e, Date(8, 7, 2024));
  }

  lemma IsoJulyEighth()
    ensures IsoText(Date(8, 7, 2024)) == "2024-07-08"
  {
    PadJuly();
    assert Pad2(20) == "20" && Pad2(24) == "24";
    assert Pad4(2024) == "2024";
  }

  // ---------------------------------------------------------------------
  // The save as written: the duplicate banner is read stale

  /**
   Acceptance as the form computes it: the field errors decide, and the
   uniqueness result only reaches acceptance through `staleBanner`, the
   banner text captured when the form last rendered (cleared to empty at
   the start of every save).
   */
  predicate AcceptedAsWritten(v: Validation, staleBanner: string)
  {
    |v.errors| == 0 && staleBanner == ""
  }

  function SaveAsWritten(c: Candidate, st: Store, savedAt: string, staleBanner: string): (o: SaveOutcome)
    ensures o.Rejected? <==> !AcceptedAsWritten(Validate(c, Load(st)), staleBanner)
    ensures !o.Aborted?
    ensures o.Saved? ==>
      && o.store.Some?
      && |o.store.value| == |Load(st)| + 1
      && o.store.value[..|Load(st)|] == Load(st)
      && o.store.value[|Load(st)|] == NewShow(c, |Load(st)| + 1, savedAt)
  {
    var shows := Load(st);
    var v := Validate(c, shows);
    if !AcceptedAsWritten(v, staleBanner) then Rejected(v)
    else NoErrorsDateParses(c, shows); Write(c, shows, savedAt)
  }

  const Dune := Candidate("Dune", "Theater 1", "01/07/2024", "18:00", "", "10.00", true, false, "")

  lemma Year2024Text()
    ensures NatToString(2024) == "2024"
  {
  }

  lemma PadJuly()
    ensures Pad2(1) == "01" && Pad2(6) == "06" && Pad2(7) == "07" && Pad2(8) == "08"
  {
  }

  /** Day counts for July 2024: 2024 is a leap year, and 182 days precede July 1. */
  lemma July2024()
    ensures DaysBeforeYear(2024) == 738885
    ensures DaysBeforeMonth(7, 2024) == 182
  {
  }

  lemma DuneText()
    ensures ShowDateText(Date(1, 7, 2024)) == "01/07/2024"
  {
    PadJuly();
    Year2024Text();
  }

  lemma DuneWeekday()
    ensures InCalendar(Date(1, 7, 2024)) && DayOfWeek(Date(1, 7, 2024)) == 1
  {
    July2024();
  }

  lemma DuneDate()
    ensures ParseShowDate("01/07/2024") == Some(Date(1, 7, 2024))
    ensures DayOfWeek(Date(1, 7, 2024)) == 1
  {
    ShowDateRoundTrip(Date(1, 7, 2024));
    DuneText();
    DuneWeekday();
  }

  lemma DuneShowDateAcceptable()
    ensures ShowDateAcceptable("01/07/2024", "")
  {
    DuneDate();
  }

  lemma SaturdayText()
    ensures ShowDateText(Date(6, 7, 2024)) == "06/07/2024"
  {
    PadJuly();
    Year2024Text();
  }

  lemma SaturdayWeekday()
    ensures InCalendar(Date(6, 7, 2024)) && DayOfWeek(Date(6, 7, 2024)) == 6
  {
    July2024();
  }

  /** Saturday 06/07/2024 is refused as not a weekday. */
  lemma SaturdayRejected()
    ensures ShowDateError("06/07/2024", "") == Some(NotWeekday)
  {
    ShowDateRoundTrip(Date(6, 7, 2024));
    SaturdayText();
    SaturdayWeekday();
  }

  lemma DuneTime()
    ensures ParseTime("18:00").Some?
  {
    TimePatternIsParse("18:00");
  }

  lemma DunePrice()
    ensures PricePositive("10.00")
  {
    PriceRoundTrip(10, 0);
    assert NatToString(10) + "." + Pad2(0) == "10.00";
  }

  lemma DuneWellFormed()
    ensures WellFormed(Dune)
  {
    DuneShowDateAcceptable();
    DuneTime();
    DunePrice();
  }

  /**
   With no banner showing, a well-formed candidate whose showing is already
   stored is written anyway, and the stored keys stop being unique.
   */
  lemma StaleBannerAdmitsDuplicate(c: Candidate, st: Store, savedAt: string, i: nat)
    requires WellFormed(c)
    requires i < |Load(st)| && KeyOf(Load(st)[i]) == CandidateKey(c)
    ensures SaveAsWritten(c, st, savedAt, "").Saved?
    ensures !UniqueKeys(SaveAsWritten(c, st, savedAt, "").store.value)
    ensures Save(c, st, savedAt).Rejected?
  {
    AsWrittenStoresDuplicate(c, st, savedAt, i);
    AcceptedIff(c, Load(st));
  }

  lemma AsWrittenStoresDuplicate(c: Candidate, st: Store, savedAt: string, i: nat)
    requires WellFormed(c)
    requires i < |Load(st)| && KeyOf(Load(st)[i]) == CandidateKey(c)
    ensures SaveAsWritten(c, st, savedAt, "").Saved?
    ensures !UniqueKeys(SaveAsWritten(c, st, savedAt, "").store.value)
  {
    var shows := Load(st);
    var n := |shows|;
    NoFieldErrorsIff(c, shows);
    assert ParseShowDate(c.showDate).Some?;
    var o := SaveAsWritten(c, st, savedAt, "");
    assert o.Saved?;
    var written := o.store.value;
    assert written[i] == written[..n][i] == shows[i];
    assert KeyOf(written[n]) == CandidateKey(c);
    assert KeyOf(written[i]) == KeyOf(written[n]);
  }

  /**
   The other half of the same defect: a banner left over from an earlier
   duplicate attempt refuses the next save even of an acceptable candidate.
   */
  lemma {:induction false} StaleBannerRefusesValid(c: Candidate, st: Store, savedAt: string, staleBanner: string)
    requires staleBanner != ""
    requires WellFormed(c)
    requires forall i :: 0 <= i < |Load(st)| ==> KeyOf(Load(st)[i]) != CandidateKey(c)
    ensures SaveAsWritten(c, st, savedAt, staleBanner).Rejected?
    ensures Save(c, st, savedAt).Saved?
  {
    AcceptedIff(c, Load(st));
  }

  /** The concrete case: the Dune showing of 01/07/2024 at 18:00, stored once and submitted again. */
  lemma {:induction false} DuneStoredTwice(st: Store)
    requires st == Some([NewShow(Dune, 1, "t0")])
    ensures UniqueKeys(Load(st))
    ensures SaveAsWritten(Dune, st, "t1", "").Saved?
    ensures !UniqueKeys(SaveAsWritten(Dune, st, "t1", "").store.value)
  {
    DuneWellFormed();
    StaleBannerAdmitsDuplicate(Dune, st, "t1", 0);
  }
}
