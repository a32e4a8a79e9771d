/**
 * `get_cleaned_data`: each spreadsheet line is annotated with its cleaned
 * species, sex, address and date, restricted to the clean-sheet columns, and
 * counted twice, per address and year and per year.
 */
module Aggregate {
  import opened Wrappers
  import opened Text
  import opened Tables
  import opened Rows
  import opened Address
  import opened Bird
  import opened Dates

  const SexCol: string := "Sex, if known"
  const CleanBirdCol: string := "Clean Bird Species"
  const CleanAddressCol: string := "Clean Address"
  const DateCol: string := "Date"

  /** Per address, per year, per species. */
  type AddressCounts = map<string, map<int, map<string, nat>>>

  /** Per year, per species. */
  type BirdCounts = map<int, map<string, nat>>

  // ---------------------------------------------------------------- one line

  /** A kept line: the cleaned row and what it is counted under. */
  datatype Entry = Entry(row: Row, address: string, bird: string)

  /** What the loop body at lines 551-571 makes of one line. */
  datatype Outcome = Skipped | Kept(entry: Entry)

  /**
   * What the loop body consults: the column lists of `tables.py` and the
   * cleaners `get_bird_gender`, `clean_bird`, `clean_address` and
   * `clean_date`. They are fields so that the fold can be reasoned about
   * without unfolding the literal tables; `Repository` gives the
   * repository's, and `RepositoryLine` states what a line then holds.
   */
  datatype Config = Config(
    birdCols: seq<string>, addrCols: seq<string>, sheetCols: seq<string>,
    gender: string -> Cell, bird: string -> string, address: Cell -> string, date: Row -> string)

  function Repository(t: AddressTables, bt: BirdTables): Config {
    Config(AltBirdCols, AltAddrCols, CleanSheetCols,
           GetBirdGender, b => CleanBirdWith(bt, b), a => CleanAddressWith(t, a), CleanDate)
  }

  /** Line 553: a line with no species, or marked `Not used`, is skipped. */
  predicate Unused(raw: Cell) {
    !Truthy(raw) || raw.value == "Not used"
  }

  /** Line 558: species the tables map to `deleted`, in any case, are skipped. */
  predicate Deleted(bird: string) {
    LowerString(bird) == "deleted"
  }

  /** Lines 555-556: a sex column already present, even empty, is kept. */
  function WithSex(c: Config, line: Row, raw: string): Row {
    if SexCol in line then line else line[SexCol := c.gender(raw)]
  }

  /** Line 571: only the clean-sheet columns survive. */
  function Restrict(line: Row, cols: seq<string>): (r: Row)
    ensures forall k :: k in r <==> k in line && k in cols
    ensures forall k :: k in r ==> r[k] == line[k]
  {
    map k | k in line && k in cols :: line[k]
  }

  /** Lines 555-561: the line with its species columns filled in. */
  function Named(c: Config, line: Row, raw: string, bird: string): Row {
    WithSex(c, line, raw)[DefaultBirdCol := Some(raw)][CleanBirdCol := Some(bird)]
  }

  /** Lines 564-569: the line with its address columns filled in. */
  function Located(named: Row, rawAddr: Cell, address: string): Row {
    named[CleanAddressCol := Some(address)][DefaultAddrCol := rawAddr]
  }

  /** Lines 552-571. */
  function ProcessLine(c: Config, line: Row): (r: Outcome)
    ensures r.Skipped? <==> Unused(GetVariablyNamedVal(c.birdCols, line))
                             || Deleted(c.bird(GetVariablyNamedVal(c.birdCols, line).value))
    ensures r.Kept? ==> r.entry.bird == c.bird(GetVariablyNamedVal(c.birdCols, line).value)
    ensures r.Kept? ==> forall k :: k in r.entry.row ==> k in c.sheetCols
    ensures r.Kept? && CleanBirdCol in c.sheetCols ==>
      CleanBirdCol in r.entry.row && r.entry.row[CleanBirdCol] == Some(r.entry.bird)
    ensures r.Kept? && CleanAddressCol in c.sheetCols ==>
      CleanAddressCol in r.entry.row && r.entry.row[CleanAddressCol] == Some(r.entry.address)
    ensures r.Kept? && DateCol in c.sheetCols ==> DateCol in r.entry.row
  {
    var raw := GetVariablyNamedVal(c.birdCols, line);
    if Unused(raw) then Skipped
    else
      var bird := c.bird(raw.value);
      if Deleted(bird) then Skipped
      else
        var named := Named(c, line, raw.value, bird);
        var rawAddr := GetVariablyNamedVal(c.addrCols, named);
        var address := c.address(rawAddr);
        var located := Located(named, rawAddr, address);
        var dated := located[DateCol := Some(c.date(located))];
        Kept(Entry(Restrict(dated, c.sheetCols), address, bird))
  }

  // ---------------------------------------------------------------- the fold

  /** The entries of the lines that are kept, in order. */
  function KeptLines(c: Config, lines: seq<Row>): seq<Entry>
    decreases |lines|
  {
    if lines == [] then []
    else
      var k := KeptLines(c, lines[..|lines| - 1]);
      var o := ProcessLine(c, lines[|lines| - 1]);
      if o.Kept? then k + [o.entry] else k
  }

  function RowsOf(k: seq<Entry>): (r: seq<Row>)
    ensures |r| == |k| && forall i :: 0 <= i < |k| ==> r[i] == k[i].row
  {
    seq(|k|, i requires 0 <= i < |k| => k[i].row)
  }

  function BirdsOf(k: seq<Entry>): (r: seq<string>)
    ensures |r| == |k| && forall i :: 0 <= i < |k| ==> r[i] == k[i].bird
  {
    seq(|k|, i requires 0 <= i < |k| => k[i].bird)
  }

  /** `d.get(key, 0) + 1`. */
  function Bump(counts: map<string, nat>, key: string): map<string, nat> {
    counts[key := (if key in counts then counts[key] else 0) + 1]
  }

  /** Species counts of a sequence of species, one `Bump` each. */
  function Tally(birds: seq<string>): map<string, nat>
    decreases |birds|
  {
    if birds == [] then map[] else Bump(Tally(birds[..|birds| - 1]), birds[|birds| - 1])
  }

  /** Lines 572-574 for one kept line. */
  function Record(counts: AddressCounts, year: int, address: string, bird: string): AddressCounts {
    var c := if address in counts then counts else counts[address := map[year := map[]]];
    var perYear := if year in c[address] then c[address][year] else map[];
    c[address := c[address][year := Bump(perYear, bird)]]
  }

  function AddressTally(year: int, k: seq<Entry>): AddressCounts
    decreases |k|
  {
    if k == [] then map[]
    else Record(AddressTally(year, k[..|k| - 1]), year, k[|k| - 1].address, k[|k| - 1].bird)
  }

  /** One more line: its entry is appended when it is kept. */
  lemma KeptLinesStep(c: Config, lines: seq<Row>, i: nat)
    requires i < |lines|
    ensures ProcessLine(c, lines[i]).Kept? ==>
      KeptLines(c, lines[..i + 1]) == KeptLines(c, lines[..i]) + [ProcessLine(c, lines[i]).entry]
    ensures ProcessLine(c, lines[i]).Skipped? ==> KeptLines(c, lines[..i + 1]) == KeptLines(c, lines[..i])
  {
    assert lines[..i + 1][..i] == lines[..i];
  }

  /** One more entry: each fold takes one step. */
  lemma FoldsStep(year: int, k: seq<Entry>, e: Entry)
    ensures RowsOf(k + [e]) == RowsOf(k) + [e.row]
    ensures Tally(BirdsOf(k + [e])) == Bump(Tally(BirdsOf(k)), e.bird)
    ensures AddressTally(year, k + [e]) == Record(AddressTally(year, k), year, e.address, e.bird)
  {
    assert BirdsOf(k + [e])[..|k|] == BirdsOf(k);
    assert (k + [e])[..|k|] == k;
  }

  lemma SingleKeyUpdate<K, V>(m: map<K, V>, k: K, v: V)
    requires m.Keys == {k}
    ensures m[k := v] == map[k := v]
  {
  }

  /** Every address entry of the counts holds the year. */
  lemma {:induction false} AddressTallyHasYear(year: int, k: seq<Entry>)
    ensures forall a :: a in AddressTally(year, k) ==> year in AddressTally(year, k)[a]
    decreases |k|
  {
    if k != [] {
      AddressTallyHasYear(year, k[..|k| - 1]);
    }
  }

  /**
   * Lines 572-575: one more sighting of `bird` at `address` in `year`, in
   * both tables.
   */
  method CountLine(addressToBird: AddressCounts, birdCounts: BirdCounts, year: int, address: string, bird: string)
    returns (byAddress: AddressCounts, byYear: BirdCounts)
    requires forall a :: a in addressToBird ==> year in addressToBird[a]
    requires birdCounts.Keys == {year}
    ensures byAddress == Record(addressToBird, year, address, bird)
    ensures byYear == map[year := Bump(birdCounts[year], bird)]
  {
    byAddress := addressToBird;
    if address !in byAddress {
      byAddress := byAddress[address := map[year := map[]]];
    }
    byAddress := byAddress[address := byAddress[address][year := Bump(byAddress[address][year], bird)]];
    SingleKeyUpdate(birdCounts, year, Bump(birdCounts[year], bird));
    byYear := birdCounts[year := Bump(birdCounts[year], bird)];
  }

  /**
   * `get_cleaned_data` for the lines of one sheet: the read and the
   * `print` are left out.
   */
  method GetCleanedData(c: Config, lines: seq<Row>, year: int)
    returns (cleanedRows: seq<Row>, addressToBird: AddressCounts, birdCounts: BirdCounts)
    ensures cleanedRows == RowsOf(KeptLines(c, lines))
    ensures addressToBird == AddressTally(year, KeptLines(c, lines))
    ensures birdCounts == map[year := Tally(BirdsOf(KeptLines(c, lines)))]
  {
    addressToBird := map[];
    birdCounts := map[year := map[]];
    cleanedRows := [];
    ghost var kept: seq<Entry> := [];
    var i := 0;
    while i < |lines|
      invariant 0 <= i <= |lines|
      invariant kept == KeptLines(c, lines[..i])
      invariant cleanedRows == RowsOf(kept)
      invariant addressToBird == AddressTally(year, kept)
      invariant birdCounts == map[year := Tally(BirdsOf(kept))]
    {
      var o := ProcessLine(c, lines[i]);
      KeptLinesStep(c, lines, i);
      if o.Kept? {
        var e := o.entry;
        FoldsStep(year, kept, e);
        AddressTallyHasYear(year, kept);
        cleanedRows := cleanedRows + [e.row];
        addressToBird, birdCounts := CountLine(addressToBird, birdCounts, year, e.address, e.bird);
        kept := kept + [e];
      }
      i := i + 1;
    }
    assert lines[..|lines|] == lines;
  }

  // ---------------------------------------------------------------- what the counts mean

  /** Each species is counted once per occurrence, and only species that occur are keys. */
  lemma {:induction false} TallyCounts(birds: seq<string>)
    ensures forall b :: b in Tally(birds) <==> b in multiset(birds)
    ensures forall b :: b in Tally(birds) ==> Tally(birds)[b] == multiset(birds)[b]
    decreases |birds|
  {
    if birds != [] {
      var init := birds[..|birds| - 1];
      TallyCounts(init);
      assert birds == init + [birds[|birds| - 1]];
      assert multiset(birds) == multiset(init) + multiset{birds[|birds| - 1]};
    }
  }

  /** The kept species at one address, in order. */
  function BirdsAt(k: seq<Entry>, address: string): seq<string>
    decreases |k|
  {
    if k == [] then []
    else
      var rest := BirdsAt(k[..|k| - 1], address);
      if k[|k| - 1].address == address then rest + [k[|k| - 1].bird] else rest
  }

  /** The address counts hold exactly the cleaned addresses. */
  lemma {:induction false} AddressTallyKeys(year: int, k: seq<Entry>)
    ensures forall a :: a in AddressTally(year, k) <==> exists i :: 0 <= i < |k| && k[i].address == a
    decreases |k|
  {
    if k != [] {
      var init := k[..|k| - 1];
      AddressTallyKeys(year, init);
      forall a ensures a in AddressTally(year, k) <==> exists i :: 0 <= i < |k| && k[i].address == a {
        if exists i :: 0 <= i < |init| && init[i].address == a {
          var i :| 0 <= i < |init| && init[i].address == a;
          assert k[i] == init[i];
        }
        if exists i :: 0 <= i < |k| && k[i].address == a {
          var i :| 0 <= i < |k| && k[i].address == a;
          if i < |init| {
            assert init[i] == k[i];
          }
        }
      }
    }
  }

  /** Each address has one entry, for the year: the species counts of its lines. */
  lemma AddressTallyValues(year: int, k: seq<Entry>)
    ensures forall a :: a in AddressTally(year, k) ==> AddressTally(year, k)[a] == map[year := Tally(BirdsAt(k, a))]
  {
    forall a | a in AddressTally(year, k)
      ensures AddressTally(year, k)[a] == map[year := Tally(BirdsAt(k, a))]
    {
      AddressTallyValueAt(year, k, a);
    }
  }

  lemma AddressTallyOfNone(year: int)
    ensures AddressTally(year, []) == map[]
  {
  }

  lemma {:induction false} AddressTallyValueAt(year: int, k: seq<Entry>, a: string)
    requires a in AddressTally(year, k)
    ensures AddressTally(year, k)[a] == map[year := Tally(BirdsAt(k, a))]
    decreases |k|
  {
    AddressTallyOfNone(year);
    var init := k[..|k| - 1];
    var last := k[|k| - 1];
    var before := AddressTally(year, init);
    var bs := BirdsAt(init, a);
    if a == last.address {
      if a in before {
        AddressTallyValueAt(year, init, a);
      } else {
        AddressTallyKeys(year, init);
        BirdsAtAbsent(init, a);
        assert Tally(bs) == map[];
      }
      RecordValue(before, year, a, last.bird, Tally(bs));
      assert BirdsAt(k, a) == bs + [last.bird];
      TallySnoc(bs, last.bird);
    } else {
      RecordOther(before, year, last.address, last.bird, a);
      AddressTallyValueAt(year, init, a);
      assert BirdsAt(k, a) == bs;
    }
  }

  lemma TallySnoc(birds: seq<string>, b: string)
    ensures Tally(birds + [b]) == Bump(Tally(birds), b)
  {
    assert (birds + [b])[..|birds|] == birds;
  }

  /** `Record` at its own address: the year's counts take one `Bump`. */
  lemma RecordValue(counts: AddressCounts, year: int, address: string, bird: string, t: map<string, nat>)
    requires address in counts ==> counts[address] == map[year := t]
    requires address !in counts ==> t == map[]
    ensures address in Record(counts, year, address, bird)
    ensures Record(counts, year, address, bird)[address] == map[year := Bump(t, bird)]
  {
  }

  /** `Record` leaves every other address as it is. */
  lemma RecordOther(counts: AddressCounts, year: int, address: string, bird: string, a: string)
    requires a != address
    ensures a in Record(counts, year, address, bird) <==> a in counts
    ensures a in counts ==> Record(counts, year, address, bird)[a] == counts[a]
  {
  }

  lemma {:induction false} BirdsAtAbsent(k: seq<Entry>, address: string)
    requires forall i :: 0 <= i < |k| ==> k[i].address != address
    ensures BirdsAt(k, address) == []
    decreases |k|
  {
    if k != [] {
      BirdsAtAbsent(k[..|k| - 1], address);
    }
  }

  /** How many kept lines at `address` have species `bird`. */
  lemma CountAt(year: int, k: seq<Entry>, address: string, bird: string)
    requires address in AddressTally(year, k)
    ensures year in AddressTally(year, k)[address]
    ensures bird in AddressTally(year, k)[address][year] <==> bird in multiset(BirdsAt(k, address))
    ensures bird in AddressTally(year, k)[address][year] ==>
      AddressTally(year, k)[address][year][bird] == multiset(BirdsAt(k, address))[bird]
  {
    AddressTallyValues(year, k);
    TallyCounts(BirdsAt(k, address));
  }

  // ---------------------------------------------------------------- the repository's cleaners

  /** The columns the loop body adds before reading the address are not address aliases. */
  lemma AnnotationsAreNotAddresses()
    ensures SexCol !in AltAddrCols && DefaultBirdCol !in AltAddrCols && CleanBirdCol !in AltAddrCols
  {
  }

  /** The columns the loop body adds before reading the date are not date columns. */
  lemma AnnotationsAreNotDates()
    ensures SexCol != "Date" && DefaultBirdCol != "Date" && CleanBirdCol != "Date"
    ensures CleanAddressCol != "Date" && DefaultAddrCol != "Date"
    ensures SexCol != "date" && DefaultBirdCol != "date" && CleanBirdCol != "date"
    ensures CleanAddressCol != "date" && DefaultAddrCol != "date"
  {
  }

  /**
   * With the repository's cleaners, a kept line is counted under the cleaned
   * species of its raw species and the cleaned address of its own address
   * cell, which is never empty, and its date column is its cleaned date.
   */
  lemma RepositoryLine(t: AddressTables, bt: BirdTables, line: Row)
    requires ProcessLine(Repository(t, bt), line).Kept?
    ensures var e := ProcessLine(Repository(t, bt), line).entry;
      && e.bird == CleanBirdWith(bt, GetVariablyNamedVal(AltBirdCols, line).value)
      && e.address == CleanAddressWith(t, GetVariablyNamedVal(AltAddrCols, line))
      && e.address != []
      && DateCol in e.row && e.row[DateCol] == Some(CleanDate(line))
  {
    var c := Repository(t, bt);
    var raw := GetVariablyNamedVal(c.birdCols, line);
    var bird := c.bird(raw.value);
    AnnotationsAreNotAddresses();
    var sexed := WithSex(c, line, raw.value);
    if SexCol !in line {
      VariablyNamedIgnores(AltAddrCols, line, SexCol, c.gender(raw.value));
    }
    VariablyNamedIgnores(AltAddrCols, sexed, DefaultBirdCol, Some(raw.value));
    var named := sexed[DefaultBirdCol := Some(raw.value)];
    VariablyNamedIgnores(AltAddrCols, named, CleanBirdCol, Some(bird));
    named := named[CleanBirdCol := Some(bird)];
    var rawAddr := GetVariablyNamedVal(AltAddrCols, named);
    var address := c.address(rawAddr);
    AnnotationsAreNotDates();
    if SexCol !in line {
      OtherColumnsIgnored(line, SexCol, c.gender(raw.value));
    }
    OtherColumnsIgnored(sexed, DefaultBirdCol, Some(raw.value));
    OtherColumnsIgnored(sexed[DefaultBirdCol := Some(raw.value)], CleanBirdCol, Some(bird));
    OtherColumnsIgnored(named, CleanAddressCol, Some(address));
    OtherColumnsIgnored(named[CleanAddressCol := Some(address)], DefaultAddrCol, rawAddr);
    assert CleanSheetCols[0] == DateCol;
  }
}
