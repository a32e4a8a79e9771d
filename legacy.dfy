/**
 * `aggregate_by_bldg.py`: the older address cleaner, a chain of replacements,
 * a regular-expression cut after the quadrant and two picks of the part of the
 * address that names a quadrant.
 */
module Legacy {
  import opened Wrappers
  import opened Text

  // ---------------------------------------------------------------- quadrants

  /** `NE`, `NW`, `SE` or `SW` starts at `i`. */
  predicate QuadrantAt(s: string, i: nat) {
    i + 1 < |s| && (s[i] == 'N' || s[i] == 'S') && (s[i + 1] == 'E' || s[i + 1] == 'W')
  }

  /** `"NE" in p or "NW" in p or "SE" in p or "SW" in p`. */
  predicate HasQuadrant(p: string) {
    Contains(p, "NE") || Contains(p, "NW") || Contains(p, "SE") || Contains(p, "SW")
  }

  // ---------------------------------------------------------------- line 6

  /** Line 6: commas before a quadrant go, and so do full stops. */
  function CommaFix(addr: string): (r: string)
    ensures '.' !in r
    ensures Within(r, addr + " NWESN")
  {
    var a := Replace(addr, ", NW", " NW");
    var b := Replace(a, ", NE", " NE");
    var c := Replace(b, ", SE", " SE");
    var d := Replace(c, ", SW", " SW");
    ReplaceChars(addr, ", NW", " NW");
    ReplaceChars(a, ", NE", " NE");
    ReplaceChars(b, ", SE", " SE");
    ReplaceChars(c, ", SW", " SW");
    ReplaceChars(d, ".", "");
    ReplaceRemovesChar(d, '.', "");
    Replace(d, ".", "")
  }

  // ---------------------------------------------------------------- line 7

  /** Where the line that starts `s` ends: its first line feed, or the end. */
  function LineEnd(s: string): (j: nat)
    ensures j <= |s|
  {
    match IndexOf(s, "\n")
    case None => |s|
    case Some(j) => j
  }

  /**
   * Line 7, `re.sub(r"(NE|NW|SE|SW).*", r"\1", s)`: at the leftmost
   * quadrant the rest of its line is dropped, and the scan resumes at the
   * line feed that ends it, since `.` does not match one.
   */
  function QuadrantCut(s: string): (r: string)
    ensures Within(r, s)
    decreases |s|
  {
    if |s| < 2 then s
    else if QuadrantAt(s, 0) then
      var rest := s[2..];
      var next := rest[LineEnd(rest)..];
      var r := QuadrantCut(next);
      SliceChars(s, 2 + LineEnd(rest), |s|);
      assert next == s[2 + LineEnd(rest)..];
      SliceChars(s, 0, 2);
      s[..2] + r
    else
      var r := QuadrantCut(s[1..]);
      SliceChars(s, 1, |s|);
      [s[0]] + r
  }

  /** Without a quadrant the cut changes nothing. */
  lemma {:induction false} QuadrantCutNone(s: string)
    requires forall i :: 0 <= i < |s| ==> !QuadrantAt(s, i)
    ensures QuadrantCut(s) == s
    decreases |s|
  {
    if |s| >= 2 {
      assert !QuadrantAt(s, 0);
      forall i | 0 <= i < |s[1..]|
        ensures !QuadrantAt(s[1..], i)
      {
        assert !QuadrantAt(s, i + 1);
      }
      QuadrantCutNone(s[1..]);
    }
  }

  /** On one line, nothing after the first quadrant survives. */
  lemma {:induction false} QuadrantCutOneLine(s: string, i: nat)
    requires '\n' !in s
    requires QuadrantAt(s, i) && forall j :: 0 <= j < i ==> !QuadrantAt(s, j)
    ensures QuadrantCut(s) == s[..i + 2]
    decreases |s|
  {
    if i == 0 {
      var rest := s[2..];
      assert '\n' !in rest by { SliceChars(s, 2, |s|); }
      IndexOfAbsentChar(rest, '\n');
      assert rest[LineEnd(rest)..] == [];
    } else {
      assert !QuadrantAt(s, 0);
      assert QuadrantAt(s[1..], i - 1);
      forall j | 0 <= j < i - 1
        ensures !QuadrantAt(s[1..], j)
      {
        assert !QuadrantAt(s, j + 1);
      }
      assert '\n' !in s[1..] by { SliceChars(s, 1, |s|); }
      QuadrantCutOneLine(s[1..], i - 1);
      assert [s[0]] + s[1..][..i + 1] == s[..i + 2];
    }
  }

  // ---------------------------------------------------------------- lines 8-19

  /** `[p for p in parts if <p names a quadrant>]`. */
  function WithQuadrant(parts: seq<string>): (r: seq<string>)
    ensures forall k :: 0 <= k < |r| ==> r[k] in parts && HasQuadrant(r[k])
    ensures r == [] <==> forall k :: 0 <= k < |parts| ==> !HasQuadrant(parts[k])
    ensures r != [] ==> exists k :: 0 <= k < |parts| && parts[k] == r[0] && FirstWithQuadrant(parts, k)
    decreases |parts|
  {
    if parts == [] then []
    else
      var rest := WithQuadrant(parts[1..]);
      assert forall k :: 0 < k < |parts| ==> parts[k] == parts[1..][k - 1];
      if HasQuadrant(parts[0]) then
        assert FirstWithQuadrant(parts, 0);
        [parts[0]] + rest
      else
        FirstWithQuadrantShift(parts);
        rest
  }

  lemma FirstWithQuadrantShift(parts: seq<string>)
    requires |parts| > 0 && !HasQuadrant(parts[0])
    ensures forall k :: 0 <= k < |parts| - 1 && FirstWithQuadrant(parts[1..], k) ==> FirstWithQuadrant(parts, k + 1)
  {
    forall k | 0 <= k < |parts| - 1 && FirstWithQuadrant(parts[1..], k)
      ensures FirstWithQuadrant(parts, k + 1)
    {
      assert forall j :: 0 < j <= k + 1 ==> parts[j] == parts[1..][j - 1];
    }
  }

  /** No part before `k` names a quadrant, and part `k` does. */
  predicate FirstWithQuadrant(parts: seq<string>, k: nat)
    requires k < |parts|
  {
    HasQuadrant(parts[k]) && forall j :: 0 <= j < k ==> !HasQuadrant(parts[j])
  }

  /** Lines 9-13 and 15-19: the first part that names a quadrant, else the first part. */
  function Pick(parts: seq<string>): (r: string)
    requires |parts| > 0
    ensures r in parts
    ensures (forall k :: 0 <= k < |parts| ==> !HasQuadrant(parts[k])) ==> r == parts[0]
    ensures (exists k :: 0 <= k < |parts| && HasQuadrant(parts[k])) ==>
      exists k :: 0 <= k < |parts| && parts[k] == r && FirstWithQuadrant(parts, k)
  {
    var street := WithQuadrant(parts);
    if |street| > 0 then street[0] else parts[0]
  }

  /** Line 14: the `(`-separated parts, each without its `)`. */
  function ParenParts(s: string): (r: seq<string>)
    ensures |r| == |Split(s, "(")|
    ensures forall k :: 0 <= k < |r| ==> r[k] == Replace(Split(s, "(")[k], ")", "")
  {
    var parts := Split(s, "(");
    seq(|parts|, k requires 0 <= k < |parts| => Replace(parts[k], ")", ""))
  }

  // ---------------------------------------------------------------- line 20

  /** Line 20: the spelling fixes, each applied once, in this order. */
  function SpellingFixes(s: string): (r: string)
    ensures Within(r, s + "ConstiuMae AvSW1")
  {
    var a := Replace(s, "Consitution", "Constitution");
    var b := Replace(a, "Maine SW", "Maine Ave SW");
    var c := Replace(b, "First", "1st");
    var d := Replace(c, "Street", "St");
    ReplaceChars(s, "Consitution", "Constitution");
    ReplaceChars(a, "Maine SW", "Maine Ave SW");
    ReplaceChars(b, "First", "1st");
    ReplaceChars(c, "Street", "St");
    ReplaceChars(d, "Avenue", "Ave");
    Replace(d, "Avenue", "Ave")
  }

  // ---------------------------------------------------------------- clean_address

  /** Lines 5-21. */
  function LegacyCleanAddress(addr: string): string {
    var cut := Strip(QuadrantCut(CommaFix(addr)));
    var street := Pick(Split(cut, ","));
    var named := Pick(ParenParts(street));
    Strip(SpellingFixes(named))
  }

  // ---------------------------------------------------------------- properties

  /** None of the characters the cleaner cuts at or deletes. */
  predicate NoPunctuation(s: string) {
    '.' !in s && ',' !in s && '(' !in s && ')' !in s
  }

  /** Each piece of a split is made of characters of the string. */
  lemma {:induction false} SplitPiecesWithin(s: string, sep: string)
    requires |sep| > 0
    ensures forall k :: 0 <= k < |Split(s, sep)| ==> Within(Split(s, sep)[k], s)
    decreases |s|
  {
    match IndexOf(s, sep)
    case None =>
    case Some(i) =>
      var rest := s[i + |sep|..];
      var parts := Split(s, sep);
      assert parts == [s[..i]] + Split(rest, sep);
      SplitPiecesWithin(rest, sep);
      SliceChars(s, i + |sep|, |s|);
      SliceChars(s, 0, i);
      forall k | 0 <= k < |parts|
        ensures Within(parts[k], s)
      {
        if k > 0 {
          assert parts[k] == Split(rest, sep)[k - 1];
        }
      }
  }

  /** A piece of the `,` split has no `,` and no `.`. */
  lemma StreetClean(cut: string)
    requires '.' !in cut
    ensures ',' !in Pick(Split(cut, ",")) && '.' !in Pick(Split(cut, ","))
  {
    var parts := Split(cut, ",");
    var street := Pick(parts);
    var k :| 0 <= k < |parts| && parts[k] == street;
    SplitPiecesAvoid(cut, ",");
    SplitPiecesWithin(cut, ",");
    ContainsChar(street, ',');
  }

  /** A `)`-less piece of the `(` split keeps none of the punctuation. */
  lemma NamedClean(street: string)
    requires ',' !in street && '.' !in street
    ensures NoPunctuation(Pick(ParenParts(street)))
  {
    var pieces := Split(street, "(");
    var parts := ParenParts(street);
    var named := Pick(parts);
    var k :| 0 <= k < |parts| && parts[k] == named;
    SplitPiecesAvoid(street, "(");
    SplitPiecesWithin(street, "(");
    ContainsChar(pieces[k], '(');
    ReplaceChars(pieces[k], ")", "");
    ReplaceRemovesChar(pieces[k], ')', "");
  }

  lemma FixTargetsClean()
    ensures NoPunctuation("ConstiuMae AvSW1")
  {
  }

  /** The spelling fixes and the final strip bring in no punctuation. */
  lemma FixesClean(named: string)
    requires NoPunctuation(named)
    ensures NoPunctuation(Strip(SpellingFixes(named)))
  {
    FixTargetsClean();
    var fixed := SpellingFixes(named);
    assert Within(fixed, named + "ConstiuMae AvSW1");
    assert NoPunctuation(fixed);
  }

  /**
   * Lines 6-21: the result has no `.`, `,`, `(` or `)`, and no leading or
   * trailing whitespace.
   */
  lemma LegacyCleanAddressClean(addr: string)
    ensures NoPunctuation(LegacyCleanAddress(addr))
    ensures IsStripped(LegacyCleanAddress(addr))
  {
    var cut := Strip(QuadrantCut(CommaFix(addr)));
    StreetClean(cut);
    var street := Pick(Split(cut, ","));
    NamedClean(street);
    FixesClean(Pick(ParenParts(street)));
  }

  /** Line 21: the result is stripped. */
  lemma LegacyCleanAddressStripped(addr: string)
    ensures Strip(LegacyCleanAddress(addr)) == LegacyCleanAddress(addr)
  {
    StripStripped(LegacyCleanAddress(addr));
  }
}
