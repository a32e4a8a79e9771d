/**
 * Worked cases of `clean_bird` with the repository's tables: the two spellings
 * of an unidentified warbler both come out as `"Warbler Species"`, one through
 * the substring table, the other through the trailing ` Sp` rewrite. Then the
 * gender tags and words `get_bird_gender` recognises.
 *
 * Each stage is shown by a lemma of its own, most of them over any string with
 * the right characters, because the verifier evaluates the stages on a literal
 * only a few characters at a time.
 */
module BirdSamples {
  import opened Wrappers
  import opened Text
  import opened Rules
  import opened Tables
  import opened AddressRewrites
  import opened Bird

  const WarblerSpecies: string := "Warbler Species"
  const WarblerSp: string := "Warbler Sp"

  // ---------------------------------------------------------------- line 479

  lemma TitleWar() ensures TitleFrom("War", false) == "War" {}
  lemma TitleBler() ensures TitleFrom("bler", true) == "bler" {}
  lemma TitleSpDot() ensures TitleFrom(" sp.", true) == " Sp." {}
  lemma TitleSp() ensures TitleFrom(" sp", true) == " Sp" {}

  lemma TitleWarbler()
    ensures TitleFrom("Warbler", false) == "Warbler"
  {
    assert "War" + "bler" == "Warbler";
    TitleWar();
    TitleBler();
    TitleFromAppend("War", "bler", false);
  }

  lemma WarblerPieces()
    ensures "Warbler sp." == "Warbler" + " sp." && "Warbler sp" == "Warbler" + " sp"
    ensures "Warbler Sp." == "Warbler" + " Sp." && WarblerSp == "Warbler" + " Sp"
    ensures "Warbler Sp." == "Warbler" + " " + "Sp." && WarblerSp == "Warbler" + " " + "Sp"
    ensures "Warbler Sp." == "Warbler " + "Sp." && WarblerSpecies == "Warbler " + "Species"
    ensures WarblerSpecies == "Warbler" + " Species"
    ensures IsLetter("Warbler"[6])
  {
  }

  /** Neither spelling holds a `(` or a `,`, so nothing is cut. */
  lemma WarblerUncut(bird: string)
    requires bird == "Warbler sp." || bird == "Warbler sp"
    ensures Before(Before(bird, "("), ",") == bird
  {
    BeforeAbsentChar(bird, '(');
    BeforeAbsentChar(bird, ',');
  }

  lemma TitleWarblerSpDot()
    ensures Title("Warbler sp.") == "Warbler Sp."
  {
    WarblerPieces();
    TitleWarbler();
    TitleSpDot();
    TitleFromAppend("Warbler", " sp.", false);
  }

  lemma TitleWarblerSp()
    ensures Title("Warbler sp") == WarblerSp
  {
    WarblerPieces();
    TitleWarbler();
    TitleSp();
    TitleFromAppend("Warbler", " sp", false);
  }

  /** Without `'S` and without outer whitespace the rest of line 479 changes nothing. */
  lemma TitledSettled(t: string)
    requires '\'' !in t && IsStripped(t)
    ensures Strip(Replace(t, "'S", "'s")) == t
  {
    AbsentByChar(t, "'S", 0);
    ReplaceAbsent(t, "'S", "'s");
    StripStripped(t);
  }

  lemma SpDotSettled() ensures Strip(Replace("Warbler Sp.", "'S", "'s")) == "Warbler Sp." { TitledSettled("Warbler Sp."); }
  lemma SpSettled() ensures Strip(Replace(WarblerSp, "'S", "'s")) == WarblerSp { TitledSettled(WarblerSp); }

  // ---------------------------------------------------------------- lines 480-485

  /** Two single-spaced words survive the whitespace collapse. */
  lemma CollapsedWarbler(b: string)
    requires b == "Sp." || b == "Sp"
    ensures CollapseSpaces("Warbler" + " " + b) == "Warbler" + " " + b
  {
    WordOfChars("Warbler");
    WordOfChars(b);
    CollapseTwoWords("Warbler", b);
  }

  /** Lines 294-296 find nothing in a name without `?`, `s`, `B` and `F`. */
  lemma FrontSubstringsAbsent(s: string)
    requires '?' !in s && 's' !in s && 'B' !in s && 'F' !in s
    ensures ReplaceAll(BirdSubstringMappings, s) == ReplaceAll(BirdSubstringMappings[4..], s)
  {
    AbsentByChar(s, "?", 0);
    AbsentByChar(s, "sp.", 0);
    AbsentByChar(s, " Breasted", 1);
    AbsentByChar(s, " Feathers Only)", 1);
    ReplaceAllSkip(BirdSubstringMappings, s, 4);
  }

  lemma LastSubstrings()
    ensures BirdSubstringMappings[4..] == [Line297, Line298]
  {
  }

  /** Line 297 spells out a final `Sp.`, and line 298 finds no `Grey` after it. */
  lemma LastTwoSubstrings(a: string, s: string)
    requires |a| > 0 && a[|a| - 1] == ' ' && 'S' !in a && 'G' !in a && s == a + "Sp."
    ensures ReplaceAll([Line297, Line298], s) == a + "Species"
  {
    ReplaceTail(a, "Sp.", "Species");
    var t := a + "Species";
    assert Replace(s, Line297.from, Line297.to) == t;
    assert ReplaceAll([Line297, Line298], s) == ReplaceAll([Line298], t);
    AbsentByChar(t, "Grey", 0);
    ReplaceAbsent(t, "Grey", "Gray");
    assert [Line298][1..] == [];
  }

  /** A name without `.` and `G` passes lines 297-298 unchanged. */
  lemma LastTwoSubstringsAbsent(s: string)
    requires '.' !in s && 'G' !in s
    ensures ReplaceAll([Line297, Line298], s) == s
  {
    AbsentByChar(s, "Sp.", 2);
    AbsentByChar(s, "Grey", 0);
    ReplaceAllAbsent([Line297, Line298], s);
  }

  /** A name ending in `Sp.` whose front has none of the patterns' characters: only line 297 applies. */
  lemma SubstringsSpDot(a: string, s: string)
    requires |a| > 0 && a[|a| - 1] == ' ' && s == a + "Sp."
    requires '?' !in a && 's' !in a && 'B' !in a && 'F' !in a && 'S' !in a && 'G' !in a
    ensures ReplaceAll(BirdSubstringMappings, s) == a + "Species"
  {
    FrontSubstringsAbsent(s);
    LastSubstrings();
    LastTwoSubstrings(a, s);
  }

  /** A name with none of the patterns' characters passes lines 293-299 unchanged. */
  lemma SubstringsNone(s: string)
    requires '?' !in s && 's' !in s && 'B' !in s && 'F' !in s && '.' !in s && 'G' !in s
    ensures ReplaceAll(BirdSubstringMappings, s) == s
  {
    FrontSubstringsAbsent(s);
    LastSubstrings();
    LastTwoSubstringsAbsent(s);
  }

  lemma SubstringsWarblerSpDot()
    ensures ReplaceAll(BirdSubstringMappings, "Warbler Sp.") == WarblerSpecies
  {
    WarblerPieces();
    SubstringsSpDot("Warbler ", "Warbler Sp.");
  }

  lemma SubstringsWarblerSp()
    ensures ReplaceAll(BirdSubstringMappings, WarblerSp) == WarblerSp
  {
    SubstringsNone(WarblerSp);
  }

  lemma WarblerRun302() ensures Unnamed(BirdRules302, WarblerSpecies) && Unnamed(BirdRules302, WarblerSp) {}
  lemma WarblerRun310() ensures Unnamed(BirdRules310, WarblerSpecies) && Unnamed(BirdRules310, WarblerSp) {}
  lemma WarblerRun320() ensures Unnamed(BirdRules320, WarblerSpecies) && Unnamed(BirdRules320, WarblerSp) {}
  lemma WarblerRun330() ensures Unnamed(BirdRules330, WarblerSpecies) && Unnamed(BirdRules330, WarblerSp) {}
  lemma WarblerRun340() ensures Unnamed(BirdRules340, WarblerSpecies) && Unnamed(BirdRules340, WarblerSp) {}
  lemma WarblerRun350() ensures Unnamed(BirdRules350, WarblerSpecies) && Unnamed(BirdRules350, WarblerSp) {}
  lemma WarblerRun360() ensures Unnamed(BirdRules360, WarblerSpecies) && Unnamed(BirdRules360, WarblerSp) {}

  /** Lines 302-370 name neither warbler, so the exact table leaves both alone. */
  lemma RemapWarbler(s: string)
    requires s == WarblerSpecies || s == WarblerSp
    ensures RemapExact(BirdReplacements, s) == s
  {
    WarblerRun302();
    WarblerRun310();
    WarblerRun320();
    WarblerRun330();
    WarblerRun340();
    WarblerRun350();
    WarblerRun360();
    RemapMissing(BirdRules302, s);
    RemapRepository(s, s);
  }

  // ---------------------------------------------------------------- lines 486-489

  /** A name without `U` is neither `Unidentified` nor `Unknown`. */
  lemma KeepsNamed(s: string)
    requires 'U' !in s
    ensures UnknownIfUnnamed(s) == s
  {
    AbsentByChar(s, "Unidentified", 0);
    AbsentByChar(s, "Unknown", 0);
  }

  /** A name ending in neither `p` nor a line feed has no ` Sp` to spell out. */
  lemma ExpandSpNone(s: string)
    requires |s| > 0 && s[|s| - 1] != 'p' && s[|s| - 1] != '\n'
    ensures ExpandSp(s) == s
  {
  }

  /** A final ` Sp` becomes ` Species`. */
  lemma ExpandSpTail(a: string)
    ensures ExpandSp(a + " Sp") == a + " Species"
  {
    var b := a + " Sp";
    assert b[|b| - 3..] == " Sp";
    assert b[..|b| - 3] == a;
  }

  lemma SpeciesKept() ensures UnknownIfUnnamed(WarblerSpecies) == WarblerSpecies { KeepsNamed(WarblerSpecies); }
  lemma SpKept() ensures UnknownIfUnnamed(WarblerSp) == WarblerSp { KeepsNamed(WarblerSp); }
  lemma SpeciesUnexpanded() ensures ExpandSp(WarblerSpecies) == WarblerSpecies { ExpandSpNone(WarblerSpecies); }
  lemma SpeciesStripped() ensures Strip(WarblerSpecies) == WarblerSpecies { StripStripped(WarblerSpecies); }

  lemma SpExpanded()
    ensures ExpandSp(WarblerSp) == WarblerSpecies
  {
    WarblerPieces();
    ExpandSpTail("Warbler");
  }

  // ---------------------------------------------------------------- the two spellings

  /** `clean_bird`, stage by stage. */
  lemma CleanBirdStages(bird: string, t: string, r: string, e: string)
    requires Truncated(bird) == t && CollapseSpaces(t) == t
    requires RemapExact(BirdReplacements, ReplaceAll(BirdSubstringMappings, t)) == r
    requires ExpandSp(UnknownIfUnnamed(r)) == e && Strip(e) == e
    ensures CleanBird(bird) == e
  {
  }

  lemma WarblerSpDotFront(bird: string)
    requires bird == "Warbler sp."
    ensures Truncated(bird) == "Warbler Sp." && CollapseSpaces("Warbler Sp.") == "Warbler Sp."
  {
    WarblerUncut(bird);
    TitleWarblerSpDot();
    SpDotSettled();
    WarblerPieces();
    CollapsedWarbler("Sp.");
  }

  lemma WarblerSpDotBack()
    ensures RemapExact(BirdReplacements, ReplaceAll(BirdSubstringMappings, "Warbler Sp.")) == WarblerSpecies
    ensures ExpandSp(UnknownIfUnnamed(WarblerSpecies)) == WarblerSpecies && Strip(WarblerSpecies) == WarblerSpecies
  {
    SubstringsWarblerSpDot();
    RemapWarbler(WarblerSpecies);
    SpeciesKept();
    SpeciesUnexpanded();
    SpeciesStripped();
  }

  /** `"Warbler sp."` is spelled out by line 297 of the substring table. */
  lemma WarblerSpDot(bird: string)
    requires bird == "Warbler sp."
    ensures CleanBird(bird) == "Warbler Species"
  {
    WarblerSpDotFront(bird);
    WarblerSpDotBack();
    CleanBirdStages(bird, "Warbler Sp.", WarblerSpecies, WarblerSpecies);
  }

  lemma WarblerSpFront(bird: string)
    requires bird == "Warbler sp"
    ensures Truncated(bird) == WarblerSp && CollapseSpaces(WarblerSp) == WarblerSp
  {
    WarblerUncut(bird);
    TitleWarblerSp();
    SpSettled();
    WarblerPieces();
    CollapsedWarbler("Sp");
  }

  lemma WarblerSpBack()
    ensures RemapExact(BirdReplacements, ReplaceAll(BirdSubstringMappings, WarblerSp)) == WarblerSp
    ensures ExpandSp(UnknownIfUnnamed(WarblerSp)) == WarblerSpecies && Strip(WarblerSpecies) == WarblerSpecies
  {
    SubstringsWarblerSp();
    RemapWarbler(WarblerSp);
    SpKept();
    SpExpanded();
    SpeciesStripped();
  }

  /** `"Warbler sp"` is spelled out by the trailing ` Sp` rewrite of line 488. */
  lemma WarblerSpNoDot(bird: string)
    requires bird == "Warbler sp"
    ensures CleanBird(bird) == "Warbler Species"
  {
    WarblerSpFront(bird);
    WarblerSpBack();
    CleanBirdStages(bird, WarblerSp, WarblerSp, WarblerSpecies);
  }

  // ---------------------------------------------------------------- get_bird_gender

  /** A lower-case `(m)` tag is male. */
  lemma MaleTagExample(bird: string)
    requires bird == "(m)"
    ensures GetBirdGender(bird) == Some("male")
  {
    assert TagAt(bird, 'm', 0);
  }

  /** An upper-case tag with a dot, `(M.)`, is male too. */
  lemma DottedMaleTagExample(bird: string)
    requires bird == "(M.)"
    ensures GetBirdGender(bird) == Some("male")
  {
    assert TagAt(bird, 'm', 0);
  }

  /** The capitalised word `Male` is male. */
  lemma MaleWordExample(bird: string)
    requires bird == "Male"
    ensures GetBirdGender(bird) == Some("male")
  {
    assert TokenAt(bird, "male", 0, true);
  }

  /** The tag `(f.)` is female: nothing in it reads as male. */
  lemma FemaleTagExample(bird: string)
    requires bird == "(f.)"
    ensures GetBirdGender(bird) == Some("female")
  {
    assert TagAt(bird, 'f', 0);
    forall i | 0 <= i < |bird|
      ensures !TagAt(bird, 'm', i)
    {
      assert i > 0 ==> bird[i] != '(';
    }
    forall i | 0 <= i <= |bird|
      ensures !TokenAt(bird, "male", i, true)
    {
      assert i == 0 ==> ToLower(bird[0]) != 'm';
    }
  }

  /** The word `female` is female although it ends in the letters `male`. */
  lemma FemaleWordExample(bird: string)
    requires bird == "female"
    ensures GetBirdGender(bird) == Some("female")
  {
    forall i | 0 <= i < |bird|
      ensures !TagAt(bird, 'm', i)
    {
      assert bird[i] != '(';
    }
    assert TokenAt(bird, "female", 0, true);
    forall i: nat | LettersAt(bird, "male", i)
      ensures 2 <= i && TokenAt(bird, "female", i - 2, true)
    {
      assert ToLower(bird[i + 0]) == ToLower("male"[0]) == 'm';
      assert ToLower(bird[0]) != 'm' && ToLower(bird[1]) != 'm';
    }
    FemaleOnlyIsFemale(bird);
  }
}
