/**
 * `clean_bird` and `get_bird_gender`: the species name is cut at the first
 * `(` and `,`, title-cased, whitespace-collapsed, passed through the ordered
 * substring table and the sequential exact table, collapsed to `"Unknown"`
 * when it names no species, and a trailing ` Sp` is spelled out.
 */
module Bird {
  import opened Wrappers
  import opened Text
  import opened Rules
  import opened Tables
  import opened AddressRewrites

  // ---------------------------------------------------------------- str.title()

  /** `str.title()` on ASCII from a position whose predecessor was (or was not) a letter. */
  function TitleFrom(s: string, afterLetter: bool): (r: string)
    ensures |r| == |s|
    ensures forall i :: 0 <= i < |s| ==> ToLower(r[i]) == ToLower(s[i])
    ensures forall i :: 0 <= i < |s| ==> (IsLetter(r[i]) <==> IsLetter(s[i]))
    ensures forall i :: 0 <= i < |s| && !IsLetter(s[i]) ==> r[i] == s[i]
    decreases |s|
  {
    if s == [] then []
    else
      var c := s[0];
      var t := if !IsLetter(c) then c else if afterLetter then ToLower(c) else ToUpper(c);
      var rest := TitleFrom(s[1..], IsLetter(c));
      assert forall i :: 0 < i < |s| ==> ([t] + rest)[i] == rest[i - 1] && s[i] == s[1..][i - 1];
      [t] + rest
  }

  function Title(s: string): string {
    TitleFrom(s, false)
  }

  /**
   * A letter comes out upper-case exactly when it starts a run of letters,
   * and lower-case otherwise.
   */
  lemma {:induction false} TitleFromCase(s: string, afterLetter: bool)
    ensures forall i :: 0 <= i < |s| && IsLetter(s[i]) ==>
      (IsUpper(TitleFrom(s, afterLetter)[i]) <==> (if i == 0 then !afterLetter else !IsLetter(s[i - 1])))
    decreases |s|
  {
    if s != [] {
      var r := TitleFrom(s, afterLetter);
      var rest := TitleFrom(s[1..], IsLetter(s[0]));
      TitleFromCase(s[1..], IsLetter(s[0]));
      assert forall i :: 0 < i < |s| ==> r[i] == rest[i - 1] && s[i] == s[1..][i - 1];
    }
  }

  lemma TitleCase(s: string)
    ensures forall i :: 0 <= i < |s| && IsLetter(s[i]) ==>
      (IsUpper(Title(s)[i]) <==> (i == 0 || !IsLetter(s[i - 1])))
  {
    TitleFromCase(s, false);
    assert Title(s) == TitleFrom(s, false);
    forall i | 0 <= i < |s| && IsLetter(s[i])
      ensures IsUpper(Title(s)[i]) <==> (i == 0 || !IsLetter(s[i - 1]))
    {
    }
  }

  /** Title-casing a concatenation: the second part carries on from the last character of the first. */
  lemma {:induction false} TitleFromAppend(a: string, b: string, afterLetter: bool)
    ensures TitleFrom(a + b, afterLetter)
         == TitleFrom(a, afterLetter) + TitleFrom(b, if a == [] then afterLetter else IsLetter(a[|a| - 1]))
    decreases |a|
  {
    if a == [] {
      assert a + b == b;
    } else {
      assert (a + b)[0] == a[0] && (a + b)[1..] == a[1..] + b;
      TitleFromAppend(a[1..], b, IsLetter(a[0]));
    }
  }

  /** Title-casing changes letters only, so it brings in no other character. */
  lemma TitleKeepsNonLetters(s: string, c: char)
    requires !IsLetter(c)
    ensures c in Title(s) <==> c in s
  {
    var r := Title(s);
    if c in r {
      var i :| 0 <= i < |r| && r[i] == c;
      assert r[i] == s[i];
    }
    if c in s {
      var i :| 0 <= i < |s| && s[i] == c;
      assert r[i] == s[i];
    }
  }

  // ---------------------------------------------------------------- the stages

  /** The two rule tables the cleaner reads. */
  datatype BirdTables = BirdTables(substrings: seq<Rule>, exact: seq<Rule>)

  const RepositoryBirdTables: BirdTables := BirdTables(BirdSubstringMappings, BirdReplacements)

  /** Line 479. */
  function Truncated(bird: string): string {
    Strip(Replace(Title(Before(Before(bird, "("), ",")), "'S", "'s"))
  }

  /** Lines 479-485: cut, title-case, collapse, then both tables. */
  function Renamed(t: BirdTables, bird: string): string {
    RemapExact(t.exact, ReplaceAll(t.substrings, CollapseSpaces(Truncated(bird))))
  }

  /** Lines 486-487. */
  function UnknownIfUnnamed(b: string): string {
    if Contains(b, "Unidentified") || Contains(b, "Unknown") then UnknownBird else b
  }

  /** Line 488, `re.sub(r" Sp$", " Species", b)`: `$` also matches before a final line feed. */
  function ExpandSp(b: string): string {
    if EndsWith(b, " Sp") then b[..|b| - 3] + " Species"
    else if EndsWith(b, " Sp\n") then b[..|b| - 4] + " Species\n"
    else b
  }

  /** `clean_bird`, for the given tables. */
  function CleanBirdWith(t: BirdTables, bird: string): (r: string)
    ensures IsStripped(r)
  {
    Strip(ExpandSp(UnknownIfUnnamed(Renamed(t, bird))))
  }

  /** `clean_bird` with the repository's tables. */
  function CleanBird(bird: string): string {
    CleanBirdWith(RepositoryBirdTables, bird)
  }

  // ---------------------------------------------------------------- properties

  /** None of the characters the cleaner cuts at or deletes. */
  predicate NoBirdSeparator(s: string) {
    '(' !in s && ',' !in s && '?' !in s
  }

  /** Line 479 leaves no `(` and no `,`. */
  lemma TruncatedClear(bird: string)
    ensures '(' !in Truncated(bird) && ',' !in Truncated(bird)
  {
    var b := Before(Before(bird, "("), ",");
    CutClear(bird);
    TitledClear(b);
  }

  /** The two cuts of line 479 leave no `(` and no `,`. */
  lemma CutClear(bird: string)
    ensures var b := Before(Before(bird, "("), ","); '(' !in b && ',' !in b
  {
    var a := Before(bird, "(");
    BeforeAvoidsChar(bird, '(');
    var b := Before(a, ",");
    BeforeAvoidsChar(a, ',');
    SliceChars(a, 0, |b|);
  }

  /** Title-casing and the `'S` fix bring in no `(` and no `,`. */
  lemma TitledClear(b: string)
    requires '(' !in b && ',' !in b
    ensures var r := Strip(Replace(Title(b), "'S", "'s")); '(' !in r && ',' !in r
  {
    TitleKeepsNonLetters(b, '(');
    TitleKeepsNonLetters(b, ',');
    FixedClear(Title(b));
  }

  /** The `'S` fix and the strip bring in no `(` and no `,`. */
  lemma FixedClear(c: string)
    requires '(' !in c && ',' !in c
    ensures var r := Strip(Replace(c, "'S", "'s")); '(' !in r && ',' !in r
  {
    var x := Replace(c, "'S", "'s");
    ReplaceChars(c, "'S", "'s");
    assert '(' !in x && ',' !in x by {
      assert forall ch :: ch in c + "'s" ==> ch in c || ch == '\'' || ch == 's';
    }
  }

  /** A substring table whose first rule deletes `?` leaves none behind. */
  lemma QuestionMarksRemoved(rules: seq<Rule>, s: string)
    requires |rules| > 0 && rules[0].from == "?"
    ensures '?' !in ReplaceAll(rules, s)
  {
    var x := Replace(s, "?", rules[0].to);
    ReplaceRemovesChar(s, '?', rules[0].to);
    ReplaceAllChars(rules[1..], x);
  }

  lemma RenamedClear(t: BirdTables, bird: string)
    requires |t.substrings| > 0 && t.substrings[0].from == "?"
    ensures NoBirdSeparator(Renamed(t, bird))
  {
    var a := Truncated(bird);
    TruncatedClear(bird);
    var b := CollapseSpaces(a);
    var c := ReplaceAll(t.substrings, b);
    ReplaceAllChars(t.substrings, b);
    QuestionMarksRemoved(t.substrings, b);
    RemapChars(t.exact, c);
  }

  /** Line 488 brings in only the letters of `" Species"` and a line feed already there. */
  lemma ExpandSpChars(b: string)
    ensures Within(ExpandSp(b), b + " Species\n")
  {
    if EndsWith(b, " Sp") {
      SliceChars(b, 0, |b| - 3);
    } else if EndsWith(b, " Sp\n") {
      SliceChars(b, 0, |b| - 4);
    }
  }

  lemma UnknownIfUnnamedClear(x: string)
    requires NoBirdSeparator(x)
    ensures NoBirdSeparator(UnknownIfUnnamed(x))
  {
  }

  /** Line 488 adds no `(`, `,` or `?`. */
  lemma ExpandSpClear(b: string)
    requires NoBirdSeparator(b)
    ensures NoBirdSeparator(ExpandSp(b))
  {
    if EndsWith(b, " Sp") {
      SliceChars(b, 0, |b| - 3);
    } else if EndsWith(b, " Sp\n") {
      SliceChars(b, 0, |b| - 4);
    }
  }

  /** A cleaned species holds no `(`, `,` or `?`. */
  lemma CleanBirdClear(t: BirdTables, bird: string)
    requires |t.substrings| > 0 && t.substrings[0].from == "?"
    ensures NoBirdSeparator(CleanBirdWith(t, bird))
  {
    var x := Renamed(t, bird);
    RenamedClear(t, bird);
    var b := UnknownIfUnnamed(x);
    UnknownIfUnnamedClear(x);
    var e := ExpandSp(b);
    ExpandSpClear(b);
    assert Within(Strip(e), e);
  }

  /** `"Unknown"` passes lines 488-489 untouched. */
  lemma UnknownSettled()
    ensures Strip(ExpandSp(UnknownBird)) == UnknownBird
  {
    assert !EndsWith(UnknownBird, " Sp");
    assert !EndsWith(UnknownBird, " Sp\n");
    StripStripped(UnknownBird);
  }

  /** The repository's substring table deletes `?` first and has no empty pattern. */
  lemma RepositorySubstrings()
    ensures |BirdSubstringMappings| > 0 && BirdSubstringMappings[0].from == "?"
    ensures forall k :: 0 <= k < |BirdSubstringMappings| ==> |BirdSubstringMappings[k].from| > 0
  {
  }

  lemma CleanBirdRepositoryClear(bird: string)
    ensures NoBirdSeparator(CleanBird(bird))
  {
    RepositorySubstrings();
    CleanBirdClear(RepositoryBirdTables, bird);
  }

  /** Any name that mentions `Unidentified` or `Unknown` after the tables is `"Unknown"`. */
  lemma UnnamedIsUnknown(t: BirdTables, bird: string)
    requires Contains(Renamed(t, bird), "Unidentified") || Contains(Renamed(t, bird), "Unknown")
    ensures CleanBirdWith(t, bird) == UnknownBird
  {
    assert UnknownIfUnnamed(Renamed(t, bird)) == UnknownBird;
    UnknownSettled();
  }

  lemma UnknownMentionsUnknown()
    ensures Contains(UnknownBird, "Unknown")
  {
    assert StartsWith(UnknownBird, "Unknown");
  }

  /** A name that the substring pass empties is `"Unknown"` when the exact table maps `""` there. */
  lemma EmptiedIsUnknown(t: BirdTables, bird: string)
    requires ReplaceAll(t.substrings, CollapseSpaces(Truncated(bird))) == []
    requires RemapExact(t.exact, []) == UnknownBird
    ensures CleanBirdWith(t, bird) == UnknownBird
  {
    assert Renamed(t, bird) == UnknownBird;
    UnknownMentionsUnknown();
    UnnamedIsUnknown(t, bird);
  }

  /** Substring rules with non-empty patterns leave the empty string empty. */
  lemma {:induction false} ReplaceAllEmpty(rules: seq<Rule>)
    requires forall k :: 0 <= k < |rules| ==> |rules[k].from| > 0
    ensures ReplaceAll(rules, []) == []
    decreases |rules|
  {
    if rules != [] {
      assert Replace([], rules[0].from, rules[0].to) == [];
      ReplaceAllEmpty(rules[1..]);
    }
  }

  /**
   * A species name cut to nothing at line 479 (the empty name among them)
   * is `"Unknown"` under any exact table that maps `""` there, as the
   * repository's does at line 309.
   */
  lemma EmptyBirdIsUnknown(t: BirdTables, bird: string)
    requires forall k :: 0 <= k < |t.substrings| ==> |t.substrings[k].from| > 0
    requires RemapExact(t.exact, []) == UnknownBird
    requires Truncated(bird) == []
    ensures CleanBirdWith(t, bird) == UnknownBird
  {
    assert CollapseSpaces([]) == [];
    ReplaceAllEmpty(t.substrings);
    EmptiedIsUnknown(t, bird);
  }

  // ---------------------------------------------------------------- the repository's exact table

  /** No entry of `rules` is for `s`. */
  predicate Unnamed(rules: seq<Rule>, s: string) {
    forall r :: r in rules ==> r.from != s
  }

  /** Lines 302-369, a run of lines at a time: what lines 302-309 leave, no later line names. */
  lemma RemapRepository(s: string, t: string)
    requires RemapExact(BirdRules302, s) == t
    requires Unnamed(BirdRules310, t) && Unnamed(BirdRules320, t) && Unnamed(BirdRules330, t)
    requires Unnamed(BirdRules340, t) && Unnamed(BirdRules350, t) && Unnamed(BirdRules360, t)
    ensures RemapExact(BirdReplacements, s) == t
  {
    var a := BirdRules302;
    RemapAppend(a, BirdRules310, s);
    RemapMissing(BirdRules310, t);
    a := a + BirdRules310;
    RemapAppend(a, BirdRules320, s);
    RemapMissing(BirdRules320, t);
    a := a + BirdRules320;
    RemapAppend(a, BirdRules330, s);
    RemapMissing(BirdRules330, t);
    a := a + BirdRules330;
    RemapAppend(a, BirdRules340, s);
    RemapMissing(BirdRules340, t);
    a := a + BirdRules340;
    RemapAppend(a, BirdRules350, s);
    RemapMissing(BirdRules350, t);
    a := a + BirdRules350;
    RemapAppend(a, BirdRules360, s);
    RemapMissing(BirdRules360, t);
  }

  /** Line 309 maps the empty name to `"Unknown"`, and no line before it names the empty name. */
  lemma EmptyRun()
    ensures RemapExact(BirdRules302, []) == UnknownBird
  {
    var front := [Line302, Line303, Line304, Line305, Line306, Line307, Line308];
    assert BirdRules302 == front + [Line309];
    assert Unnamed(front, []);
    RemapMissing(front, []);
    RemapAppend(front, [Line309], []);
    assert [Line309][1..] == [];
  }

  /** No line after 309 names `"Unknown"`, so line 309's target stays. */
  lemma UnknownRuns()
    ensures Unnamed(BirdRules310, UnknownBird) && Unnamed(BirdRules320, UnknownBird) && Unnamed(BirdRules330, UnknownBird)
    ensures Unnamed(BirdRules340, UnknownBird) && Unnamed(BirdRules350, UnknownBird) && Unnamed(BirdRules360, UnknownBird)
  {
    UnknownRuns310();
    UnknownRuns330();
    UnknownRuns350();
  }

  lemma UnknownRuns310()
    ensures Unnamed(BirdRules310, UnknownBird) && Unnamed(BirdRules320, UnknownBird)
  {
  }

  lemma UnknownRuns330()
    ensures Unnamed(BirdRules330, UnknownBird) && Unnamed(BirdRules340, UnknownBird)
  {
  }

  lemma UnknownRuns350()
    ensures Unnamed(BirdRules350, UnknownBird) && Unnamed(BirdRules360, UnknownBird)
  {
  }

  /** With the repository's tables, a name cut to nothing at line 479 is `"Unknown"`. */
  lemma CleanBirdEmptyIsUnknown(bird: string)
    requires Truncated(bird) == []
    ensures CleanBird(bird) == UnknownBird
  {
    RepositorySubstrings();
    EmptyRun();
    UnknownRuns();
    RemapRepository([], UnknownBird);
    EmptyBirdIsUnknown(RepositoryBirdTables, bird);
  }

  /** With the repository's tables, a name the substring pass empties is `"Unknown"`. */
  lemma CleanBirdEmptiedIsUnknown(bird: string)
    requires ReplaceAll(BirdSubstringMappings, CollapseSpaces(Truncated(bird))) == []
    ensures CleanBird(bird) == UnknownBird
  {
    EmptyRun();
    UnknownRuns();
    RemapRepository([], UnknownBird);
    EmptiedIsUnknown(RepositoryBirdTables, bird);
  }

  /** The empty input is `"Unknown"`. */
  lemma EmptyInputIsUnknown(bird: string)
    requires bird == []
    ensures CleanBird(bird) == UnknownBird
  {
    assert Before(Before(bird, "("), ",") == [];
    assert Title([]) == [];
    assert Replace([], "'S", "'s") == [];
    assert Truncated(bird) == [];
    CleanBirdEmptyIsUnknown(bird);
  }

  // ---------------------------------------------------------------- get_bird_gender

  /** `(?i)\(x\.?\)` matches at `i`: `(`, the letter, an optional `.`, `)`. */
  predicate TagAt(s: string, x: char, i: nat) {
    i + 3 <= |s| && s[i] == '(' && ToLower(s[i + 1]) == x
    && (s[i + 2] == ')' || (i + 4 <= |s| && s[i + 2] == '.' && s[i + 3] == ')'))
  }

  predicate HasTag(s: string, x: char) {
    exists i :: 0 <= i < |s| && TagAt(s, x, i)
  }

  /** `(?i)\bw\b` matches somewhere in `s`. */
  predicate HasWord(s: string, w: string) {
    exists i :: 0 <= i <= |s| && TokenAt(s, w, i, true)
  }

  /** `get_bird_gender`: `"male"` is tested first, then `"female"`, else `None`. */
  function GetBirdGender(bird: string): (r: Option<string>)
    ensures r == Some("male") <==> HasTag(bird, 'm') || HasWord(bird, "male")
    ensures r == Some("female") <==> !(HasTag(bird, 'm') || HasWord(bird, "male"))
                                     && (HasTag(bird, 'f') || HasWord(bird, "female"))
    ensures r == None <==> !HasTag(bird, 'm') && !HasWord(bird, "male")
                           && !HasTag(bird, 'f') && !HasWord(bird, "female")
  {
    if HasTag(bird, 'm') || HasWord(bird, "male") then Some("male")
    else if HasTag(bird, 'f') || HasWord(bird, "female") then Some("female")
    else None
  }

  /** The `male` inside a whole word `female` is not a whole word itself. */
  lemma FemaleWordIsNotMale(s: string, i: nat)
    requires TokenAt(s, "female", i, true)
    ensures !TokenAt(s, "male", i + 2, true)
  {
    assert ToLower(s[i + 1]) == ToLower("female"[1]) && ToLower(s[i + 2]) == ToLower("female"[2]);
    assert IsWordChar(s[i + 1]) && IsWordChar(s[i + 2]);
  }

  /** The letters of `w` stand at `i`, ignoring case, whole word or not. */
  predicate LettersAt(s: string, w: string, i: nat) {
    i + |w| <= |s| && forall j :: 0 <= j < |w| ==> ToLower(s[i + j]) == ToLower(w[j])
  }

  /**
   * A name whose only `male` letters are the tail of a whole word `female`,
   * with no `(m)` tag, is female when it has the word `female`: that `male`
   * is never a whole word, so the `male` test fails and the `female` test
   * decides.
   */
  lemma FemaleOnlyIsFemale(s: string)
    requires !HasTag(s, 'm')
    requires forall i: nat :: LettersAt(s, "male", i) ==> 2 <= i && TokenAt(s, "female", i - 2, true)
    requires HasWord(s, "female")
    ensures GetBirdGender(s) == Some("female")
  {
    forall i | 0 <= i <= |s|
      ensures !TokenAt(s, "male", i, true)
    {
      if LettersAt(s, "male", i) {
        FemaleWordIsNotMale(s, i - 2);
      }
    }
  }
}
