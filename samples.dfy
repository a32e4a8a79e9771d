/**
 * Worked cases: the concrete inputs the repository's code singles out or its
 * tests and documentation use, each derived from the general model. Each is
 * stated for a variable equal to the literal, so that the general lemmas do
 * the work.
 */
module Samples {
  import opened Wrappers
  import opened Text
  import opened Rows
  import opened Dates
  import opened Merge
  import opened Rules
  import opened Tables

  // ---------------------------------------------------------------- clean_date

  /** The first hard-coded date. */
  lemma FirstHardCodedDate(date: string)
    requires date == "9-30--2018"
    ensures CleanDateValue(date) == "2018-09-30"
  {
  }

  /** Without the override it would split on `-` into four parts. */
  lemma FirstHardCodedParts(date: string)
    requires date == "9-30--2018"
    ensures DateParts(date) == ["9", "30", "", "2018"]
  {
    assert IsStripped(date) && '/' !in date;
    DatePartsOn(date, '-');
    assert date == "9" + ['-'] + "30" + ['-'] + "" + ['-'] + "2018";
    SplitFourFields("9", "30", "", "2018", '-');
  }

  /** The second hard-coded date. */
  lemma SecondHardCodedDate(date: string)
    requires date == "10//28/20"
    ensures CleanDateValue(date) == "2020-10-28"
  {
  }

  /** Without the override it would split on `/` into four parts. */
  lemma SecondHardCodedParts(date: string)
    requires date == "10//28/20"
    ensures DateParts(date) == ["10", "", "28", "20"]
  {
    assert IsStripped(date) && date[2] == '/';
    DatePartsOn(date, '/');
    assert date == "10" + ['/'] + "" + ['/'] + "28" + ['/'] + "20";
    SplitFourFields("10", "", "28", "20", '/');
  }

  /** `"12/12"` has two parts. */
  lemma TwoPartDateIsUnknown(line: Row)
    requires line == map["date" := Some("12/12")]
    ensures CleanDate(line) == UnknownDate
  {
    assert Get(line, "Date") == None;
    var date := DateValue(line);
    assert date == "12" + ['/'] + "12";
    MonthDayIsUnknown("12", "12");
  }

  /** The example `1/1/22`. */
  lemma ShortDateExample(line: Row)
    requires line == map["date" := Some("1/1/22")]
    ensures CleanDate(line) == "2022-01-01"
  {
    assert Get(line, "Date") == None;
    var date := DateValue(line);
    assert date == "1" + ['/'] + "1" + ['/'] + "22";
    MonthDayYearText("1", "1", "22", '/');
    ShortDateText();
  }

  lemma ShortDateText()
    ensures Padded("22", 4, "20") + "-" + Padded("1", 2, "0") + "-" + Padded("1", 2, "0") == "2022-01-01"
  {
  }

  // ---------------------------------------------------------------- clean_cw_id

  /** A bare number gets the 2023 prefix. */
  lemma BareIdExample(cwid: string)
    requires cwid == "0045"
    ensures CleanCwId(cwid) == Ok(Some("23-0045"))
  {
    BareIdText(cwid);
    StripStripped(cwid);
    BareId(cwid);
  }

  lemma BareIdText(cwid: string)
    requires cwid == "0045"
    ensures IsStripped(cwid) && cwid != [] && '-' !in cwid && Year + "-" + cwid == "23-0045"
  {
  }

  /** A prefixed id is kept. */
  lemma PrefixedIdExample(cwid: string)
    requires cwid == "23-0045"
    ensures CleanCwId(cwid) == Ok(Some("23-0045"))
  {
    var x := "0045";
    assert cwid == Year + "-" + x;
    PrefixedId(x);
  }

  /** A two-part id from another year is refused. */
  lemma ForeignIdExample(cwid: string)
    requires cwid == "22-0045"
    ensures CleanCwId(cwid) == Err(AssertionError(cwid))
  {
    var a, b := "22", "0045";
    assert cwid == a + "-" + b;
    assert IsStripped(cwid);
    ForeignIdFails(a, b);
  }

  /** A blank id is no id. */
  lemma BlankIdExample(cwid: string)
    requires cwid == "  "
    ensures CleanCwId(cwid) == Ok(None)
  {
    assert IsSpace(cwid[0]) && IsSpace(cwid[1]);
    assert LStrip(cwid) == LStrip(cwid[1..]);
    assert LStrip(cwid[1..]) == LStrip(cwid[1..][1..]);
    assert cwid[1..][1..] == [];
  }

  // ---------------------------------------------------------------- the final address remap

  /** The target of line 416. */
  const ColumbusNE: string := "1 Columbus Circle NE"

  /** Line 416 is the first entry naming the bare circle. */
  lemma ColumbusFirst(s: string)
    requires s == "1 Columbus Circle"
    ensures FirstMatch(FinalAddressRemap, s) == Some(1)
  {
  }

  /** No entry after line 416 names its target. */
  lemma ColumbusSettled()
    ensures forall j :: 1 < j < |FinalAddressRemap| ==> FinalAddressRemap[j].from != ColumbusNE
  {
  }

  /** The final remap sends the bare circle to its quadrant. */
  lemma ColumbusRemapped(s: string)
    requires s == "1 Columbus Circle"
    ensures RemapExact(FinalAddressRemap, s) == ColumbusNE
  {
    ColumbusFirst(s);
    ColumbusSettled();
    RemapSettles(FinalAddressRemap, s, 1);
  }

  /** An address the final remap does not name. */
  const NewtonAddress: string := "1530 Newton St NE"

  lemma NewtonUnnamed()
    ensures forall j :: 0 <= j < |FinalAddressRemap| ==> FinalAddressRemap[j].from != NewtonAddress
  {
  }

  /** An address the final remap does not name passes through it unchanged. */
  lemma UnnamedAddressKept(s: string)
    requires s == NewtonAddress
    ensures RemapExact(FinalAddressRemap, s) == s
  {
    NewtonUnnamed();
    RemapUnmatched(FinalAddressRemap, s);
  }
}
