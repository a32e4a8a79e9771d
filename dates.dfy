/**
 * `clean_date`, which turns month/day/year spreadsheet dates into
 * `YYYY-MM-DD`, and `get_year`, which reads the survey year out of a file
 * name.
 */
module Dates {
  import opened Wrappers
  import opened Text
  import opened Rows

  /** What `clean_date` returns for a date it cannot read. */
  const UnknownDate: string := "Unknown"

  // ---------------------------------------------------------------- digits

  predicate IsDigits(s: string) {
    forall i :: 0 <= i < |s| ==> IsDigit(s[i])
  }

  /** The decimal value of a run of ASCII digits, as `int()` reads it. */
  function DigitsValue(s: string): nat
    requires IsDigits(s)
    decreases |s|
  {
    if s == [] then 0
    else DigitsValue(s[..|s| - 1]) * 10 + (s[|s| - 1] as int - '0' as int)
  }

  // ---------------------------------------------------------------- clean_date

  /** Lines 510-514: the truthy `"Date"` cell, else the truthy `"date"` cell, else `""`. */
  function DateValue(line: Row): (r: string)
    ensures Truthy(Get(line, "Date")) ==> r == Get(line, "Date").value
    ensures !Truthy(Get(line, "Date")) && Truthy(Get(line, "date")) ==> r == Get(line, "date").value
    ensures r == [] <==> !Truthy(Get(line, "Date")) && !Truthy(Get(line, "date"))
  {
    if Truthy(Get(line, "Date")) then Get(line, "Date").value
    else if Truthy(Get(line, "date")) then Get(line, "date").value
    else ""
  }

  /** Lines 518-521: split the stripped date on `/` if the raw date has one, else on `-`. */
  function DateParts(date: string): seq<string> {
    if '/' in date then Split(Strip(date), "/") else Split(Strip(date), "-")
  }

  /** Lines 529-531: a field of the wrong length gets `prefix` once. */
  function Padded(field: string, width: nat, prefix: string): string {
    if |field| == width then field else prefix + field
  }

  /** Lines 518-532 for a non-empty date. */
  function CleanDateValue(date: string): string {
    var parts := DateParts(date);
    if date == "9-30--2018" then "2018-09-30"
    else if date == "10//28/20" then "2020-10-28"
    else if |parts| != 3 then UnknownDate
    else Padded(parts[2], 4, "20") + "-" + Padded(parts[0], 2, "0") + "-" + Padded(parts[1], 2, "0")
  }

  /** `clean_date`. */
  function CleanDate(line: Row): (r: string)
    ensures DateValue(line) == [] ==> r == UnknownDate
  {
    var date := DateValue(line);
    if date == [] then UnknownDate else CleanDateValue(date)
  }

  // ---------------------------------------------------------------- properties

  /** A missing or empty date cell in both spellings gives `"Unknown"`. */
  lemma MissingDateIsUnknown(line: Row)
    requires !Truthy(Get(line, "Date")) && !Truthy(Get(line, "date"))
    ensures CleanDate(line) == UnknownDate
  {
  }

  /** When `"Date"` is filled in, whatever `"date"` holds does not matter. */
  lemma DatePrecedence(line: Row, other: Cell)
    requires Truthy(Get(line, "Date"))
    ensures CleanDate(line) == CleanDate(line["date" := other])
    ensures CleanDate(line) == CleanDateValue(Get(line, "Date").value)
  {
    assert Get(line["date" := other], "Date") == Get(line, "Date");
  }

  /** Only the two date columns are read. */
  lemma OtherColumnsIgnored(line: Row, col: string, v: Cell)
    requires col != "Date" && col != "date"
    ensures CleanDate(line[col := v]) == CleanDate(line)
  {
    assert Get(line[col := v], "Date") == Get(line, "Date");
    assert Get(line[col := v], "date") == Get(line, "date");
  }

  /** Three fields free of the separator character split back into themselves. */
  lemma SplitThreeFields(a: string, b: string, c: string, sep: char)
    requires sep !in a && sep !in b && sep !in c
    ensures Split(a + [sep] + b + [sep] + c, [sep]) == [a, b, c]
  {
    var x := b + [sep] + c;
    SplitAbsentChar(c, sep);
    SplitCharCons(b, sep, c);
    SplitCharCons(a, sep, x);
    ConcatAssoc(a + [sep], b + [sep], c);
    ConcatAssoc(a + [sep], b, [sep]);
    ConcatAssoc(a, [sep], x);
  }

  lemma SplitFourFields(a: string, b: string, c: string, d: string, sep: char)
    requires sep !in a && sep !in b && sep !in c && sep !in d
    ensures Split(a + [sep] + b + [sep] + c + [sep] + d, [sep]) == [a, b, c, d]
  {
    var x := b + [sep] + c + [sep] + d;
    SplitThreeFields(b, c, d, sep);
    SplitCharCons(a, sep, x);
    ConcatAssoc(a + [sep], b + [sep] + c + [sep], d);
    ConcatAssoc(a + [sep], b + [sep] + c, [sep]);
    ConcatAssoc(a + [sep], b + [sep], c);
    ConcatAssoc(a + [sep], b, [sep]);
    ConcatAssoc(a, [sep], x);
  }

  /** Any other date that does not split into three parts is `"Unknown"`. */
  lemma WrongPartCountIsUnknown(date: string)
    requires date != "9-30--2018" && date != "10//28/20"
    requires |DateParts(date)| != 3
    ensures CleanDateValue(date) == UnknownDate
  {
  }

  /** A digits-only month/day date, with no year, is `"Unknown"`. */
  lemma MonthDayIsUnknown(a: string, b: string)
    requires IsDigits(a) && IsDigits(b) && |a| > 0 && |b| > 0
    ensures CleanDateValue(a + ['/'] + b) == UnknownDate
  {
    MonthDayParts(a, b);
    MonthDayNotHardCoded(a, b);
    WrongPartCountIsUnknown(a + ['/'] + b);
  }

  lemma MonthDayParts(a: string, b: string)
    requires IsDigits(a) && IsDigits(b) && |a| > 0 && |b| > 0
    ensures DateParts(a + ['/'] + b) == [a, b]
  {
    var date := a + ['/'] + b;
    DigitsAvoid(a, '/');
    DigitsAvoid(b, '/');
    assert IsStripped(date) by {
      assert date[0] == a[0] && date[|date| - 1] == b[|b| - 1];
    }
    assert '/' in date by {
      assert date[|a|] == '/';
    }
    DatePartsOn(date, '/');
    SplitCharCons(a, '/', b);
    SplitAbsentChar(b, '/');
  }

  lemma MonthDayNotHardCoded(a: string, b: string)
    requires IsDigits(a) && IsDigits(b) && |a| > 0 && |b| > 0
    ensures a + ['/'] + b != "9-30--2018" && a + ['/'] + b != "10//28/20"
  {
    var date := a + ['/'] + b;
    DigitsAvoid(a, '-');
    DigitsAvoid(b, '-');
    assert '-' !in date;
    assert "9-30--2018"[1] == '-';
    assert "10//28/20"[2] == '/' && "10//28/20"[3] == '/';
    if |date| == 9 {
      assert |a| == 2 ==> date[3] == b[0];
    }
  }

  /** `YYYY-MM-DD` with digits in the fields. */
  predicate IsIsoDate(r: string) {
    |r| == 10 && r[4] == '-' && r[7] == '-'
    && IsDigits(r[..4]) && IsDigits(r[5..7]) && IsDigits(r[8..])
  }

  /** A year field as it is read: two digits are taken as 20xx. */
  function FullYear(y: string): nat
    requires IsDigits(y)
  {
    if |y| == 4 then DigitsValue(y) else 2000 + DigitsValue(y)
  }

  /** A one-character pad leaves the value of a short field unchanged. */
  lemma PaddedValue(f: string)
    requires IsDigits(f) && 1 <= |f| <= 2
    ensures IsDigits(Padded(f, 2, "0")) && |Padded(f, 2, "0")| == 2
    ensures DigitsValue(Padded(f, 2, "0")) == DigitsValue(f)
  {
    if |f| == 1 {
      var p := "0" + f;
      assert p[..1] == "0" && p[..1][..0] == [];
      assert f[..0] == [];
    }
  }

  lemma PaddedYearValue(y: string)
    requires IsDigits(y) && (|y| == 2 || |y| == 4)
    ensures IsDigits(Padded(y, 4, "20")) && |Padded(y, 4, "20")| == 4
    ensures DigitsValue(Padded(y, 4, "20")) == FullYear(y)
  {
    if |y| == 2 {
      var p := "20" + y;
      var d0 := y[0] as int - '0' as int;
      var d1 := y[1] as int - '0' as int;
      assert DigitsValue(y[..1]) == d0 by {
        assert y[..1][..0] == [];
      }
      assert DigitsValue(y) == d0 * 10 + d1 by {
        assert y[..|y| - 1] == y[..1];
      }
      assert DigitsValue("20") == 20 by {
        assert "20"[..1] == "2" && "2"[..0] == [];
      }
      assert DigitsValue(p[..3]) == 200 + d0 by {
        assert p[..3][..2] == "20";
      }
      assert DigitsValue(p) == 2000 + d0 * 10 + d1 by {
        assert p[..|p| - 1] == p[..3];
      }
    }
  }

  /** Neither hard-coded date has the shape of a digits-only month/day/year date. */
  lemma NotHardCoded(m: string, d: string, y: string, sep: char)
    requires sep == '/' || sep == '-'
    requires IsDigits(m) && IsDigits(d) && IsDigits(y)
    requires 1 <= |m| <= 2 && 1 <= |d| <= 2 && (|y| == 2 || |y| == 4)
    ensures m + [sep] + d + [sep] + y != "9-30--2018"
    ensures m + [sep] + d + [sep] + y != "10//28/20"
  {
    var date := m + [sep] + d + [sep] + y;
    var first := "9-30--2018";
    var second := "10//28/20";
    if |date| == 10 {
      assert |m| == 2 && date[1] == m[1];
      assert first[1] == '-';
    }
    if |date| == 9 {
      assert second[2] == '/' && second[3] == '/';
      assert date[2] == '/' ==> |m| == 2 && date[3] == d[0];
    }
  }

  lemma DigitsAvoid(s: string, c: char)
    requires IsDigits(s) && !IsDigit(c)
    ensures c !in s
  {
  }

  /** The shape of a digits-only date: stripped, and holding `/` exactly when that is the separator. */
  lemma DigitsDateShape(m: string, d: string, y: string, sep: char)
    requires sep == '/' || sep == '-'
    requires IsDigits(m) && IsDigits(d) && IsDigits(y) && |m| > 0 && |y| > 0
    ensures IsStripped(m + [sep] + d + [sep] + y)
    ensures '/' in m + [sep] + d + [sep] + y <==> sep == '/'
  {
    var date := m + [sep] + d + [sep] + y;
    assert date[0] == m[0] && date[|date| - 1] == y[|y| - 1];
    assert date[|m|] == sep;
    DigitsAvoid(m, '/');
    DigitsAvoid(d, '/');
    DigitsAvoid(y, '/');
  }

  /** A stripped date is split on `/` exactly when it holds one. */
  lemma DatePartsOn(date: string, sep: char)
    requires sep == '/' || sep == '-'
    requires IsStripped(date) && ('/' in date <==> sep == '/')
    ensures DateParts(date) == Split(date, [sep])
  {
    StripStripped(date);
    if sep == '/' {
      assert [sep] == "/";
    } else {
      assert [sep] == "-";
    }
  }

  /** A digits-only month/day/year date splits into its three fields. */
  lemma MonthDayYearParts(m: string, d: string, y: string, sep: char)
    requires sep == '/' || sep == '-'
    requires IsDigits(m) && IsDigits(d) && IsDigits(y)
    requires 1 <= |m| <= 2 && 1 <= |d| <= 2 && (|y| == 2 || |y| == 4)
    ensures DateParts(m + [sep] + d + [sep] + y) == [m, d, y]
  {
    var date := m + [sep] + d + [sep] + y;
    DigitsAvoid(m, sep);
    DigitsAvoid(d, sep);
    DigitsAvoid(y, sep);
    DigitsDateShape(m, d, y, sep);
    DatePartsOn(date, sep);
    SplitThreeFields(m, d, y, sep);
  }

  /**
   * A month/day/year date in digits, separated by `/` or `-`, comes out as
   * an ISO date carrying the same month, day and (two-digit years taken as
   * 20xx) year.
   */
  lemma MonthDayYear(m: string, d: string, y: string, sep: char)
    requires sep == '/' || sep == '-'
    requires IsDigits(m) && IsDigits(d) && IsDigits(y)
    requires 1 <= |m| <= 2 && 1 <= |d| <= 2 && (|y| == 2 || |y| == 4)
    ensures var r := CleanDateValue(m + [sep] + d + [sep] + y);
      IsIsoDate(r) && DigitsValue(r[5..7]) == DigitsValue(m) && DigitsValue(r[8..]) == DigitsValue(d)
      && DigitsValue(r[..4]) == FullYear(y)
  {
    MonthDayYearText(m, d, y, sep);
    PaddedValue(m);
    PaddedValue(d);
    PaddedYearValue(y);
    IsoFields(Padded(y, 4, "20"), Padded(m, 2, "0"), Padded(d, 2, "0"));
  }

  /** Joining a four-digit and two two-digit fields with `-` gives an ISO date with those fields. */
  lemma IsoFields(yy: string, mm: string, dd: string)
    requires IsDigits(yy) && IsDigits(mm) && IsDigits(dd) && |yy| == 4 && |mm| == 2 && |dd| == 2
    ensures var r := yy + "-" + mm + "-" + dd;
      IsIsoDate(r) && r[..4] == yy && r[5..7] == mm && r[8..] == dd
  {
    var r := yy + "-" + mm + "-" + dd;
    assert r[..4] == yy && r[5..7] == mm && r[8..] == dd;
  }

  /** The text of the result for a digits-only month/day/year date. */
  lemma MonthDayYearText(m: string, d: string, y: string, sep: char)
    requires sep == '/' || sep == '-'
    requires IsDigits(m) && IsDigits(d) && IsDigits(y)
    requires 1 <= |m| <= 2 && 1 <= |d| <= 2 && (|y| == 2 || |y| == 4)
    ensures CleanDateValue(m + [sep] + d + [sep] + y)
         == Padded(y, 4, "20") + "-" + Padded(m, 2, "0") + "-" + Padded(d, 2, "0")
  {
    MonthDayYearParts(m, d, y, sep);
    NotHardCoded(m, d, y, sep);
  }

  // ---------------------------------------------------------------- get_year

  /** Four ASCII digits start at `i` (`\d\d\d\d`). */
  predicate FourDigitsAt(s: string, i: nat) {
    i + 4 <= |s| && IsDigits(s[i..i + 4])
  }

  /** The leftmost position at or after `i` where four digits start. */
  function FirstFourDigits(s: string, i: nat): (r: Option<nat>)
    requires i <= |s|
    ensures r.Some? ==> i <= r.value && FourDigitsAt(s, r.value)
    ensures forall j :: i <= j && (r.None? || j < r.value) ==> !FourDigitsAt(s, j)
    decreases |s| - i
  {
    if FourDigitsAt(s, i) then Some(i)
    else if i + 4 > |s| then None
    else FirstFourDigits(s, i + 1)
  }

  /**
   * `get_year`: the value of the leftmost four-digit run; `None` stands for
   * the error raised when the file name has none.
   */
  function GetYear(filename: string): (r: Option<nat>)
    ensures r.None? <==> forall i: nat :: !FourDigitsAt(filename, i)
    ensures r.Some? ==> r.value < 10000
    ensures r.Some? ==> exists i: nat :: (FourDigitsAt(filename, i)
      && r.value == DigitsValue(filename[i..i + 4])
      && forall j: nat :: j < i ==> !FourDigitsAt(filename, j))
  {
    match FirstFourDigits(filename, 0)
    case None => None
    case Some(i) =>
      DigitsBelowPow10(filename[i..i + 4]);
      assert Pow10(4) == 10000;
      Some(DigitsValue(filename[i..i + 4]))
  }

  lemma {:induction false} DigitsBelowPow10(s: string)
    requires IsDigits(s)
    ensures DigitsValue(s) < Pow10(|s|)
    decreases |s|
  {
    if s != [] {
      DigitsBelowPow10(s[..|s| - 1]);
    }
  }

  function Pow10(n: nat): nat {
    if n == 0 then 1 else 10 * Pow10(n - 1)
  }
}
