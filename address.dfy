/**
 * `clean_address`: a fixed pipeline of cuts, literal replacements, targeted
 * regular-expression rewrites and a final exact remap, with `"Unknown"` for
 * an empty or missing address. Each stage is a function named after what it
 * does; the rule tables are a parameter so that facts about the pipeline hold
 * for any tables, and `CleanAddress` plugs in the repository's own.
 */
module Address {
  import opened Wrappers
  import opened Text
  import opened Rules
  import opened Tables
  import opened AddressRewrites
  import opened Rows

  /** The three rule tables the cleaner reads. */
  datatype AddressTables = AddressTables(preClean: seq<Rule>, replacements: seq<Rule>, finalRemap: seq<Rule>)

  const RepositoryTables: AddressTables :=
    AddressTables(PreCleanAddressReplacements, AddressReplacements, FinalAddressRemap)

  // ---------------------------------------------------------------- the stages

  /** Lines 386-390: whitespace collapsed, then the pre-clean table; line 391 discards it. */
  function PreCleaned(addr: string, preClean: seq<Rule>): string {
    ReplaceAll(preClean, CollapseSpaces(Replace(Replace(addr, "\n", " "), "\r", " ")))
  }

  /** Line 391, which starts again from the raw address. */
  function CutAtSemicolon(addr: string): string {
    Replace(Strip(Before(Replace(addr, ".", ""), ";")), "\n", " ")
  }

  /** Line 392. */
  function SpellOutAnd(s: string): string {
    Replace(Replace(s, "&", "and"), " And ", " and ")
  }

  /** Every quadrant is a two-letter token. */
  predicate AreTokens(ds: seq<string>) {
    forall k :: 0 <= k < |ds| ==> IsTwoLetters(ds[k])
  }

  lemma DirectionsAreTokens()
    ensures AreTokens(Directions)
  {
  }

  /** Lines 393-395: `", NE"` becomes `" NE"`, then every `ne` word is upcased, quadrant by quadrant. */
  function FixQuadrants(s: string, ds: seq<string>): string
    requires AreTokens(ds)
    decreases |ds|
  {
    if ds == [] then s
    else
      var d := ds[0];
      FixQuadrants(UpcaseToken(Replace(s, ", " + d, " " + d), d), ds[1..])
  }

  /** Lines 396-397: with no `&` left, the tokens are replaced by themselves and the ends stripped. */
  function StripQuadrants(s: string, ds: seq<string>): string {
    if Contains(s, "&") then s else Strip(KeepTokensFrom(s, ds, 0))
  }

  /** Lines 398-399. */
  function CutAtSeparators(s: string): string {
    Before(Before(Before(s, " - "), ","), "(")
  }

  predicate AreStreets(streets: seq<string>) {
    forall k :: 0 <= k < |streets| ==> IsStreet(streets[k])
  }

  lemma NeedsNwAreStreets()
    ensures AreStreets(NeedsNw)
  {
  }

  /** Lines 404-405, street by street. */
  function AppendNwAll(s: string, streets: seq<string>): string
    requires AreStreets(streets)
    decreases |streets|
  {
    if streets == [] then s else AppendNwAll(AppendNw(s, streets[0]), streets[1..])
  }

  /** Lines 402-406. */
  function FixSuffixes(s: string): string {
    NeedsNwAreStreets();
    TruncateNwSlash(AppendNwAll(PluraliseCondominium(RemoveNoma(s)), NeedsNw))
  }

  predicate AreNonEmpty(ps: seq<string>) {
    forall k :: 0 <= k < |ps| ==> |ps[k]| > 0
  }

  /** Every character of every phrase may appear in a rule target. */
  predicate AreRuleText(ps: seq<string>) {
    forall k, c :: 0 <= k < |ps| && c in ps[k] ==> IsRuleChar(c)
  }

  lemma EndingsAreRuleText()
    ensures AreNonEmpty(AddressEndings) && AreRuleText(AddressEndings)
  {
  }

  /** Lines 408-409, ending by ending. */
  function CutAtEndings(s: string, endings: seq<string>): string
    requires AreNonEmpty(endings)
    decreases |endings|
  {
    if endings == [] then s else CutAtEndings(CutLine(s, endings[0], endings[0]), endings[1..])
  }

  /** Lines 407-411. */
  function Tidy(s: string): string {
    EndingsAreRuleText();
    SqueezeHyphens(CutLine(CutAtEndings(CollapseSpaces(Strip(s)), AddressEndings), " to the right", ""))
  }

  /** Lines 412-413. */
  function FixBuildings(s: string): string {
    Replace(Replace(Replace(s, "Thurgood Marshall Building NW", Thurgood), " NE Building", ""), "NW NW", "NW")
  }

  /** Lines 391-399: everything before the first rule table. */
  function Prepared(addr: string): string {
    DirectionsAreTokens();
    CutAtSeparators(StripQuadrants(FixQuadrants(SpellOutAnd(CutAtSemicolon(addr)), Directions), Directions))
  }

  /** Lines 400-413: the substring table and the targeted rewrites. */
  function Rewritten(t: AddressTables, s: string): string {
    FixBuildings(Tidy(FixSuffixes(ReplaceAll(t.replacements, s))))
  }

  /** Lines 391-457: the address before the `"Unknown"` fallback. */
  function Remapped(t: AddressTables, addr: string): string {
    RemapExact(t.finalRemap, Rewritten(t, Prepared(addr)))
  }

  /** `clean_address`, for the given tables. */
  function CleanAddressWith(t: AddressTables, addr: Cell): (r: string)
    ensures r != []
    ensures !Truthy(addr) ==> r == UnknownAddress
  {
    if !Truthy(addr) then UnknownAddress
    else
      var discarded := PreCleaned(addr.value, t.preClean);
      var clean := Remapped(t, addr.value);
      if clean == [] then UnknownAddress else clean
  }

  /**
   * `clean_address` with the repository's tables. Every property below is
   * stated for any tables, so it holds for this instance.
   */
  function CleanAddress(addr: Cell): string {
    CleanAddressWith(RepositoryTables, addr)
  }

  // ---------------------------------------------------------------- properties

  /** Neither the whitespace collapse nor the pre-clean table affects the result. */
  lemma PreCleanIgnored(t: AddressTables, u: AddressTables, addr: Cell)
    requires t.replacements == u.replacements && t.finalRemap == u.finalRemap
    ensures CleanAddressWith(t, addr) == CleanAddressWith(u, addr)
  {
  }

  /** Where a separator could come from: none of `.`, `;`, `,` and `(`. */
  predicate NoSeparator(s: string) {
    '.' !in s && ';' !in s && ',' !in s && '(' !in s
  }

  /** Every character of `r` comes from `s`, or is a space or an ASCII letter. */
  predicate FromOrPlain(r: string, s: string) {
    forall c :: c in r ==> c in s || c == ' ' || IsLetter(c)
  }

  /** Line 391 removes every `.` and leaves no `;`. */
  lemma CutAtSemicolonClear(addr: string)
    ensures '.' !in CutAtSemicolon(addr) && ';' !in CutAtSemicolon(addr)
  {
    var x1 := Replace(addr, ".", "");
    ReplaceRemovesChar(addr, '.', "");
    var x2 := Before(x1, ";");
    BeforeAvoidsChar(x1, ';');
    SliceChars(x1, 0, |x2|);
    var x3 := Strip(x2);
    ReplaceChars(x3, "\n", " ");
  }

  /** Line 392 leaves no `&` and brings in only spaces and letters. */
  lemma SpellOutAndChars(s: string)
    ensures '&' !in SpellOutAnd(s) && FromOrPlain(SpellOutAnd(s), s)
  {
    var x1 := Replace(s, "&", "and");
    ReplaceRemovesChar(s, '&', "and");
    ReplaceChars(s, "&", "and");
    ReplaceChars(x1, " And ", " and ");
  }

  /** Lines 393-395 bring in only spaces and the quadrants' letters. */
  lemma {:induction false} FixQuadrantsChars(s: string, ds: seq<string>)
    requires AreTokens(ds)
    ensures FromOrPlain(FixQuadrants(s, ds), s)
    decreases |ds|
  {
    if ds != [] {
      var d := ds[0];
      var y := Replace(s, ", " + d, " " + d);
      ReplaceChars(s, ", " + d, " " + d);
      var z := UpcaseToken(y, d);
      UpcaseTokenChars(y, d);
      assert FromOrPlain(z, s);
      FixQuadrantsChars(z, ds[1..]);
    }
  }

  /** Lines 396-397 only strip the ends of a text without `&`. */
  lemma StripQuadrantsIsStrip(s: string, ds: seq<string>)
    requires '&' !in s
    ensures StripQuadrants(s, ds) == Strip(s)
  {
    ContainsChar(s, '&');
    assert s[0..] == s;
  }

  /** In the pipeline no `&` survives line 392, so lines 396-397 are a `strip()`. */
  lemma QuadrantsThenStrip(addr: string, ds: seq<string>)
    requires AreTokens(ds)
    ensures var s := FixQuadrants(SpellOutAnd(CutAtSemicolon(addr)), ds);
            StripQuadrants(s, ds) == Strip(s)
  {
    var s1 := SpellOutAnd(CutAtSemicolon(addr));
    SpellOutAndChars(CutAtSemicolon(addr));
    FixQuadrantsChars(s1, ds);
    StripQuadrantsIsStrip(FixQuadrants(s1, ds), ds);
  }

  /** Lines 391-397 leave no `.` and no `;`. */
  lemma QuadrantsStageClear(addr: string, ds: seq<string>)
    requires AreTokens(ds)
    ensures var s := StripQuadrants(FixQuadrants(SpellOutAnd(CutAtSemicolon(addr)), ds), ds);
            '.' !in s && ';' !in s
  {
    var s0 := CutAtSemicolon(addr);
    CutAtSemicolonClear(addr);
    var s1 := SpellOutAnd(s0);
    SpellOutAndChars(s0);
    var s2 := FixQuadrants(s1, ds);
    FixQuadrantsChars(s1, ds);
    PlainKeepsOut(s0, s1, s2);
    QuadrantsThenStrip(addr, ds);
    StripAvoids(s2);
  }

  /** Two rewrites that bring in only spaces and letters bring in no `.` and no `;`. */
  lemma PlainKeepsOut(s0: string, s1: string, s2: string)
    requires '.' !in s0 && ';' !in s0
    requires FromOrPlain(s1, s0) && FromOrPlain(s2, s1)
    ensures '.' !in s2 && ';' !in s2
  {
  }

  lemma StripAvoids(s: string)
    requires '.' !in s && ';' !in s
    ensures '.' !in Strip(s) && ';' !in Strip(s)
  {
  }

  /** Lines 398-399 cut at every separator and bring in no character. */
  lemma CutAtSeparatorsClear(s: string)
    requires '.' !in s && ';' !in s
    ensures NoSeparator(CutAtSeparators(s))
  {
    var a := Before(s, " - ");
    SliceChars(s, 0, |a|);
    var b := Before(a, ",");
    BeforeAvoidsChar(a, ',');
    SliceChars(a, 0, |b|);
    var c := Before(b, "(");
    BeforeAvoidsChar(b, '(');
    SliceChars(b, 0, |c|);
  }

  /** Lines 391-399 leave no separator. */
  lemma PreparedClear(addr: string)
    ensures NoSeparator(Prepared(addr))
  {
    DirectionsAreTokens();
    QuadrantsStageClear(addr, Directions);
    CutAtSeparatorsClear(StripQuadrants(FixQuadrants(SpellOutAnd(CutAtSemicolon(addr)), Directions), Directions));
  }

  /** A character test that no rule target can fail. */
  lemma WithinRuleChars(r: string, s: string, extra: string)
    requires Within(r, s + extra) && forall c :: c in extra ==> IsRuleChar(c)
    ensures FromOrRuleChars(r, s)
  {
  }

  lemma {:induction false} AppendNwAllChars(s: string, streets: seq<string>)
    requires AreStreets(streets)
    ensures Within(AppendNwAll(s, streets), s + " NW")
    decreases |streets|
  {
    if streets != [] {
      var t := AppendNw(s, streets[0]);
      AppendNwSpec(s, streets[0]);
      SliceChars(s, 0, |RStrip(s)|);
      assert Within(t, s + " NW");
      AppendNwAllChars(t, streets[1..]);
    }
  }

  lemma {:induction false} CutAtEndingsChars(s: string, endings: seq<string>)
    requires AreNonEmpty(endings) && AreRuleText(endings)
    ensures FromOrRuleChars(CutAtEndings(s, endings), s)
    decreases |endings|
  {
    if endings != [] {
      var t := CutLine(s, endings[0], endings[0]);
      CutLineChars(s, endings[0], endings[0]);
      WithinRuleChars(t, s, endings[0]);
      CutAtEndingsChars(t, endings[1..]);
      FromOrRuleCharsTrans(CutAtEndings(s, endings), t, s);
    }
  }

  /** Lines 402-406 bring in only characters a rule target may hold. */
  lemma FixSuffixesChars(s: string)
    ensures FromOrRuleChars(FixSuffixes(s), s)
  {
    NeedsNwAreStreets();
    SuffixStageChars(s, NeedsNw);
  }

  /** Lines 402-406 for any list of streets. */
  lemma SuffixStageChars(s: string, streets: seq<string>)
    requires AreStreets(streets)
    ensures FromOrRuleChars(TruncateNwSlash(AppendNwAll(PluraliseCondominium(RemoveNoma(s)), streets)), s)
  {
    var s1 := RemoveNoma(s);
    RemoveNomaChars(s);
    var s2 := PluraliseCondominium(s1);
    PluraliseCondominiumChars(s1);
    var s3 := AppendNwAll(s2, streets);
    AppendNwAllChars(s2, streets);
    TruncateNwSlashChars(s3);
    var r := TruncateNwSlash(s3);
    assert Within(r, s + "s NW");
    WithinRuleChars(r, s, "s NW");
  }

  lemma WithinFrom(r: string, s: string)
    requires Within(r, s)
    ensures FromOrRuleChars(r, s)
  {
  }

  /** Lines 407-411 bring in only characters a rule target may hold. */
  lemma TidyChars(s: string)
    ensures FromOrRuleChars(Tidy(s), s)
  {
    EndingsAreRuleText();
    TidyStageChars(s, AddressEndings);
  }

  /** Lines 407-411 for any list of endings. */
  lemma TidyStageChars(s: string, endings: seq<string>)
    requires AreNonEmpty(endings) && AreRuleText(endings)
    ensures FromOrRuleChars(SqueezeHyphens(CutLine(CutAtEndings(CollapseSpaces(Strip(s)), endings), " to the right", "")), s)
  {
    var s1 := CollapseSpaces(Strip(s));
    CollapseStageChars(s);
    CutStageChars(s1, endings);
    FromOrRuleCharsTrans(SqueezeHyphens(CutLine(CutAtEndings(s1, endings), " to the right", "")), s1, s);
  }

  /** Lines 407-408 bring in only spaces. */
  lemma CollapseStageChars(s: string)
    ensures FromOrRuleChars(CollapseSpaces(Strip(s)), s)
  {
    var s0 := Strip(s);
    WithinFrom(s0, s);
    CollapseChars(s0);
    FromOrRuleCharsTrans(CollapseSpaces(s0), s0, s);
  }

  /** Collapsing whitespace brings in only spaces. */
  lemma CollapseChars(s: string)
    ensures FromOrRuleChars(CollapseSpaces(s), s)
  {
    var r := CollapseSpaces(s);
    forall c | c in r
      ensures c in s || IsRuleChar(c)
    {
      assert c in s + " ";
      if c !in s {
        assert c == ' ';
      }
    }
  }

  /** Lines 409-411 bring in only characters a rule target may hold. */
  lemma CutStageChars(s1: string, endings: seq<string>)
    requires AreNonEmpty(endings) && AreRuleText(endings)
    ensures FromOrRuleChars(SqueezeHyphens(CutLine(CutAtEndings(s1, endings), " to the right", "")), s1)
  {
    var s2 := CutAtEndings(s1, endings);
    CutAtEndingsChars(s1, endings);
    var s3 := CutLine(s2, " to the right", "");
    CutLineChars(s2, " to the right", "");
    WithinRuleChars(s3, s2, "");
    var s4 := SqueezeHyphens(s3);
    SqueezeHyphensSpec(s3);
    WithinFrom(s4, s3);
    FromOrRuleCharsTrans(s3, s2, s1);
    FromOrRuleCharsTrans(s4, s3, s1);
  }

  /** Lines 412-413 bring in only characters a rule target may hold. */
  lemma FixBuildingsChars(s: string)
    ensures FromOrRuleChars(FixBuildings(s), s)
  {
    var s1 := Replace(s, "Thurgood Marshall Building NW", Thurgood);
    ReplaceChars(s, "Thurgood Marshall Building NW", Thurgood);
    WithinRuleChars(s1, s, Thurgood);
    var s2 := Replace(s1, " NE Building", "");
    ReplaceChars(s1, " NE Building", "");
    WithinRuleChars(s2, s1, "");
    var s3 := Replace(s2, "NW NW", "NW");
    ReplaceChars(s2, "NW NW", "NW");
    WithinRuleChars(s3, s2, "NW");
    assert FixBuildings(s) == s3;
    FromOrRuleCharsTrans(s2, s1, s);
    FromOrRuleCharsTrans(s3, s2, s);
  }

  /** Lines 400-413 bring in only characters a rule target may hold. */
  lemma RewrittenChars(t: AddressTables, s: string)
    ensures FromOrRuleChars(Rewritten(t, s), s)
  {
    var s1 := ReplaceAll(t.replacements, s);
    ReplaceAllChars(t.replacements, s);
    var s2 := FixSuffixes(s1);
    FixSuffixesChars(s1);
    var s3 := Tidy(s2);
    TidyChars(s2);
    var s4 := FixBuildings(s3);
    FixBuildingsChars(s3);
    assert Rewritten(t, s) == s4;
    FromOrRuleCharsTrans(s2, s1, s);
    FromOrRuleCharsTrans(s3, s2, s);
    FromOrRuleCharsTrans(s4, s3, s);
  }

  /**
   * A cleaned address never holds `.`, `;`, `,` or `(`: lines 391 and
   * 398-399 remove them and no later stage or rule target brings one back.
   */
  lemma CleanAddressClear(t: AddressTables, addr: Cell)
    ensures NoSeparator(CleanAddressWith(t, addr))
  {
    if Truthy(addr) {
      RemappedClear(t, addr.value);
    }
  }

  lemma RemappedClear(t: AddressTables, addr: string)
    ensures NoSeparator(Remapped(t, addr))
  {
    var p := Prepared(addr);
    PreparedClear(addr);
    var w := Rewritten(t, p);
    RewrittenChars(t, p);
    var clean := RemapExact(t.finalRemap, w);
    RemapChars(t.finalRemap, w);
    FromOrRuleCharsTrans(clean, w, p);
    ClearFrom(clean, p);
  }

  lemma ClearFrom(r: string, s: string)
    requires FromOrRuleChars(r, s) && NoSeparator(s)
    ensures NoSeparator(r)
  {
  }
}
