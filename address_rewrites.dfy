/**
 * The fixed regular-expression rewrites of the address cleaner, each written
 * out as the scan Python's `re.sub` performs for that one pattern: try a
 * match at the current position, emit the replacement and resume after the
 * match, otherwise copy one character and move on.
 */
module AddressRewrites {
  import opened Wrappers
  import opened Text

  // ---------------------------------------------------------------- quadrant tokens

  /** `(\b)d(\b)` matches at `i`, case-insensitively when `ignoreCase`. */
  predicate TokenAt(s: string, d: string, i: nat, ignoreCase: bool) {
    i + |d| <= |s| && Boundary(s, i) && Boundary(s, i + |d|)
    && forall j :: 0 <= j < |d| ==> (if ignoreCase then ToLower(s[i + j]) == ToLower(d[j]) else s[i + j] == d[j])
  }

  /** A two-letter token such as a quadrant. */
  predicate IsTwoLetters(d: string) {
    |d| == 2 && IsLetter(d[0]) && IsLetter(d[1])
  }

  /** `re.sub(rf"(?i)(\b){d}(\b)", rf"\1{d}\2", s)`, scanning from `i`. */
  function UpcaseTokenFrom(s: string, d: string, i: nat): string
    requires i <= |s| && |d| > 0
    decreases |s| - i
  {
    if i == |s| then []
    else if TokenAt(s, d, i, true) then d + UpcaseTokenFrom(s, d, i + |d|)
    else [s[i]] + UpcaseTokenFrom(s, d, i + 1)
  }

  function UpcaseToken(s: string, d: string): string
    requires |d| > 0
  {
    UpcaseTokenFrom(s, d, 0)
  }

  /** What the rewrite puts at position `k`: the token's letter inside a token, else the input. */
  function UpcasedAt(s: string, d: string, k: nat): char
    requires k < |s| && |d| == 2
  {
    if TokenAt(s, d, k, true) then d[0]
    else if k > 0 && TokenAt(s, d, k - 1, true) then d[1]
    else s[k]
  }

  /** Two letters that match a two-letter token are not separated by a word boundary. */
  lemma InsideToken(s: string, d: string, j: nat)
    requires IsTwoLetters(d)
    ensures j + 2 <= |s| && ToLower(s[j]) == ToLower(d[0]) && ToLower(s[j + 1]) == ToLower(d[1])
            ==> !Boundary(s, j + 1)
  {
  }

  /** Two whole-word occurrences of a two-letter token never overlap. */
  lemma TokensApart(s: string, d: string, k: nat)
    requires IsTwoLetters(d) && TokenAt(s, d, k, true)
    ensures !TokenAt(s, d, k + 1, true)
  {
    InsideToken(s, d, k + 1);
  }

  lemma {:induction false} UpcaseTokenFromSpec(s: string, d: string, i: nat)
    requires IsTwoLetters(d) && i <= |s|
    requires i == 0 || !TokenAt(s, d, i - 1, true)
    ensures |UpcaseTokenFrom(s, d, i)| == |s| - i
    ensures forall k :: i <= k < |s| ==> UpcaseTokenFrom(s, d, i)[k - i] == UpcasedAt(s, d, k)
    decreases |s| - i, 1
  {
    if i < |s| {
      if TokenAt(s, d, i, true) {
        UpcaseTokenFromToken(s, d, i);
      } else {
        UpcaseTokenFromCopy(s, d, i);
      }
    }
  }

  lemma {:induction false} UpcaseTokenFromToken(s: string, d: string, i: nat)
    requires IsTwoLetters(d) && i < |s| && TokenAt(s, d, i, true)
    ensures |UpcaseTokenFrom(s, d, i)| == |s| - i
    ensures forall k :: i <= k < |s| ==> UpcaseTokenFrom(s, d, i)[k - i] == UpcasedAt(s, d, k)
    decreases |s| - i, 0
  {
    TokensApart(s, d, i);
    var rest := UpcaseTokenFrom(s, d, i + 2);
    assert UpcaseTokenFrom(s, d, i) == d + rest;
    UpcaseTokenFromSpec(s, d, i + 2);
    TokenStep(s, d, i, rest);
  }

  lemma {:induction false} UpcaseTokenFromCopy(s: string, d: string, i: nat)
    requires IsTwoLetters(d) && i < |s| && !TokenAt(s, d, i, true)
    requires i == 0 || !TokenAt(s, d, i - 1, true)
    ensures |UpcaseTokenFrom(s, d, i)| == |s| - i
    ensures forall k :: i <= k < |s| ==> UpcaseTokenFrom(s, d, i)[k - i] == UpcasedAt(s, d, k)
    decreases |s| - i, 0
  {
    var rest := UpcaseTokenFrom(s, d, i + 1);
    assert UpcaseTokenFrom(s, d, i) == [s[i]] + rest;
    UpcaseTokenFromSpec(s, d, i + 1);
    CopyStep(s, d, i, rest);
  }

  /** A token at `i` followed by the rewritten rest. */
  lemma TokenStep(s: string, d: string, i: nat, rest: string)
    requires IsTwoLetters(d) && TokenAt(s, d, i, true) && !TokenAt(s, d, i + 1, true)
    requires |rest| == |s| - (i + 2)
    requires forall k :: i + 2 <= k < |s| ==> rest[k - (i + 2)] == UpcasedAt(s, d, k)
    ensures forall k :: i <= k < |s| ==> (d + rest)[k - i] == UpcasedAt(s, d, k)
  {
    forall k | i <= k < |s|
      ensures (d + rest)[k - i] == UpcasedAt(s, d, k)
    {
      if k >= i + 2 {
        assert (d + rest)[k - i] == rest[k - (i + 2)];
      }
    }
  }

  /** A copied character at `i` followed by the rewritten rest. */
  lemma CopyStep(s: string, d: string, i: nat, rest: string)
    requires IsTwoLetters(d) && i < |s| && !TokenAt(s, d, i, true)
    requires i == 0 || !TokenAt(s, d, i - 1, true)
    requires |rest| == |s| - (i + 1)
    requires forall k :: i + 1 <= k < |s| ==> rest[k - (i + 1)] == UpcasedAt(s, d, k)
    ensures forall k :: i <= k < |s| ==> ([s[i]] + rest)[k - i] == UpcasedAt(s, d, k)
  {
    forall k | i <= k < |s|
      ensures ([s[i]] + rest)[k - i] == UpcasedAt(s, d, k)
    {
      if k > i {
        assert ([s[i]] + rest)[k - i] == rest[k - (i + 1)];
      }
    }
  }

  /**
   * The quadrant rewrite keeps the length, writes `d` over every whole-word
   * case-insensitive occurrence of it and leaves every other character alone.
   */
  lemma UpcaseTokenSpec(s: string, d: string)
    requires IsTwoLetters(d)
    ensures |UpcaseToken(s, d)| == |s|
    ensures forall k :: 0 <= k < |s| ==> UpcaseToken(s, d)[k] == UpcasedAt(s, d, k)
    ensures forall k :: 0 <= k < |s| && TokenAt(s, d, k, true) ==> UpcaseToken(s, d)[k..k + 2] == d
  {
    UpcaseTokenFromSpec(s, d, 0);
    var r := UpcaseToken(s, d);
    forall k | 0 <= k < |s| && TokenAt(s, d, k, true)
      ensures r[k..k + 2] == d
    {
      TokensApart(s, d, k);
      assert r[k] == UpcasedAt(s, d, k);
      assert r[k + 1] == UpcasedAt(s, d, k + 1);
    }
  }

  /** The quadrant rewrite only brings in the token's own letters. */
  lemma UpcaseTokenChars(s: string, d: string)
    requires IsTwoLetters(d)
    ensures Within(UpcaseToken(s, d), s + d)
  {
    UpcaseTokenSpec(s, d);
    var r := UpcaseToken(s, d);
    forall c | c in r
      ensures c in s + d
    {
      var k :| 0 <= k < |r| && r[k] == c;
      assert r[k] == UpcasedAt(s, d, k);
      assert d[0] in d && d[1] in d;
    }
  }

  /** `d` stands at `i` as a case-sensitive whole word: `TokenAt(s, d, i, false)` as a slice. */
  predicate ExactTokenAt(s: string, d: string, i: nat) {
    i + |d| <= |s| && Boundary(s, i) && Boundary(s, i + |d|) && s[i..i + |d|] == d
  }

  /** The first of `ds` that matches as a case-sensitive whole word at `i`. */
  function FirstTokenAt(s: string, ds: seq<string>, i: nat): (r: Option<string>)
    ensures r.Some? ==> r.value in ds && |r.value| > 0 && ExactTokenAt(s, r.value, i)
    decreases |ds|
  {
    if ds == [] then None
    else if |ds[0]| > 0 && ExactTokenAt(s, ds[0], i) then Some(ds[0])
    else FirstTokenAt(s, ds[1..], i)
  }

  /** What the scan keeps at `i`: the first token of `ds` standing there, else one character. */
  function TokenOrChar(s: string, ds: seq<string>, i: nat): (w: string)
    requires i < |s|
    ensures |w| > 0 && i + |w| <= |s| && w == s[i..i + |w|]
  {
    match FirstTokenAt(s, ds, i)
    case Some(d) => d
    case None => [s[i]]
  }

  /**
   * `re.sub(r"(\b)(NE|NW|SE|SW)(\b)", r"\1\2", s)`, scanning from `i`: each
   * token is replaced by itself, so the scan gives back the rest of `s`.
   */
  function KeepTokensFrom(s: string, ds: seq<string>, i: nat): (r: string)
    requires i <= |s|
    ensures r == s[i..]
    decreases |s| - i
  {
    if i == |s| then []
    else
      var w := TokenOrChar(s, ds, i);
      var rest := KeepTokensFrom(s, ds, i + |w|);
      SuffixPieces(s, i, i + |w|);
      w + rest
  }

  // ---------------------------------------------------------------- the "NoMa" suffix

  /** The number of leading whitespace characters. */
  function SpaceRun(s: string): (n: nat)
    ensures n <= |s| && AllSpace(s[..n]) && (n == |s| || !IsSpace(s[n]))
  {
    var r := LStrip(s);
    assert s[..|s| - |r|] == s[..|s| - |r|];
    |s| - |r|
  }

  /** `noma(\b|$)` matches at `j`, case-insensitively. */
  predicate NomaAt(s: string, j: nat) {
    j + 4 <= |s| && EqualsIgnoringCase(s[j..j + 4], "noma") && (j + 4 == |s| || !IsWordChar(s[j + 4]))
  }

  /** `re.sub(r"(?i)\s+noma(\b|$)", "", s)`. */
  function RemoveNoma(s: string): string
    decreases |s|
  {
    if s == [] then []
    else if IsSpace(s[0]) && NomaAt(s, SpaceRun(s)) then RemoveNoma(s[SpaceRun(s) + 4..])
    else [s[0]] + RemoveNoma(s[1..])
  }

  /** Deleting matches only drops characters. */
  lemma {:induction false} RemoveNomaChars(s: string)
    ensures Within(RemoveNoma(s), s)
    decreases |s|
  {
    if s != [] {
      if IsSpace(s[0]) && NomaAt(s, SpaceRun(s)) {
        RemoveNomaChars(s[SpaceRun(s) + 4..]);
        SliceChars(s, SpaceRun(s) + 4, |s|);
      } else {
        RemoveNomaChars(s[1..]);
        SliceChars(s, 1, |s|);
      }
    }
  }

  // ---------------------------------------------------------------- "Condominium"

  /** `re.sub(r"Condominium(\b)", r"Condominiums\1", s)`. */
  function PluraliseCondominium(s: string): string
    decreases |s|
  {
    if s == [] then []
    else if StartsWith(s, "Condominium") && (|s| == 11 || !IsWordChar(s[11])) then
      "Condominiums" + PluraliseCondominium(s[11..])
    else [s[0]] + PluraliseCondominium(s[1..])
  }

  lemma {:induction false} PluraliseCondominiumChars(s: string)
    ensures Within(PluraliseCondominium(s), s + "s")
    decreases |s|
  {
    if s != [] {
      if StartsWith(s, "Condominium") && (|s| == 11 || !IsWordChar(s[11])) {
        PluraliseCondominiumChars(s[11..]);
        SliceChars(s, 11, |s|);
        assert s[..11] == "Condominium";
        forall c | c in "Condominiums"
          ensures c in s + "s"
        {
          if c != 's' {
            assert c in s[..11];
            SliceChars(s, 0, 11);
          }
        }
      } else {
        PluraliseCondominiumChars(s[1..]);
        SliceChars(s, 1, |s|);
      }
    }
  }

  // ---------------------------------------------------------------- missing "NW"

  /** `re.sub(rf"{street}\s*$", f"{street} NW", s)`. */
  function AppendNw(s: string, street: string): string
    requires |street| > 0
    decreases |s|
  {
    if StartsWith(s, street) && AllSpace(s[|street|..]) then street + " NW"
    else if s == [] then []
    else [s[0]] + AppendNw(s[1..], street)
  }

  /** A street name that ends with a non-whitespace character. */
  predicate IsStreet(street: string) {
    |street| > 0 && !IsSpace(street[|street| - 1])
  }

  /**
   * The rewrite adds ` NW` exactly when the address, trailing whitespace
   * aside, ends with the street; the trailing whitespace is dropped.
   */
  lemma {:induction false} AppendNwSpec(s: string, street: string)
    requires IsStreet(street)
    ensures AppendNw(s, street) == if EndsWith(RStrip(s), street) then RStrip(s) + " NW" else s
    decreases |s|
  {
    var n := |street|;
    if StartsWith(s, street) && AllSpace(s[n..]) {
      RStripUnique(s, street);
    } else if s != [] {
      // `RStrip(s) == street` would make the guard above hold.
      RStripMatch(s, street);
      assert AppendNw(s, street) == [s[0]] + AppendNw(s[1..], street);
      AppendNwSpec(s[1..], street);
      RStripTail(s);
      NwStep(s[0], s[1..], AppendNw(s[1..], street), RStrip(s[1..]), RStrip(s), street);
      HeadTail(s);
    }
  }

  lemma RStripMatch(s: string, w: string)
    ensures RStrip(s) == w ==> StartsWith(s, w) && AllSpace(s[|w|..])
  {
  }

  /** One step of the scan, on plain values: `c` before a tail whose result is known. */
  lemma NwStep(c: char, rest: string, r1: string, t1: string, t: string, street: string)
    requires |street| > 0 && t != street
    requires r1 == if EndsWith(t1, street) then t1 + " NW" else rest
    requires t == if t1 == [] && IsSpace(c) then [] else [c] + t1
    ensures [c] + r1 == if EndsWith(t, street) then t + " NW" else [c] + rest
  {
    if t != [] {
      EndsWithCons(c, t1, street);
      if EndsWith(t1, street) {
        assert [c] + (t1 + " NW") == t + " NW";
      }
    }
  }

  lemma EndsWithCons(c: char, t: string, p: string)
    ensures EndsWith([c] + t, p) <==> EndsWith(t, p) || [c] + t == p
  {
    var u := [c] + t;
    if |p| <= |t| {
      assert u[|u| - |p|..] == t[|t| - |p|..];
    }
  }

  /** The one prefix that is followed only by whitespace and ends in non-whitespace is `s.rstrip()`. */
  lemma RStripUnique(s: string, t: string)
    requires |t| <= |s| && t == s[..|t|] && AllSpace(s[|t|..])
    requires t == [] || !IsSpace(t[|t| - 1])
    ensures RStrip(s) == t
    decreases |s|
  {
    if |s| > 0 && IsSpace(s[|s| - 1]) {
      assert |t| < |s|;
      var u := s[..|s| - 1];
      assert u[..|t|] == t;
      assert u[|t|..] == s[|t|..|s| - 1];
      RStripUnique(u, t);
    } else {
      LastOfSuffix(s, |t|);
      assert |t| == |s|;
    }
  }

  lemma LastOfSuffix(s: string, k: nat)
    requires k <= |s|
    ensures k < |s| ==> s[k..][|s| - 1 - k] == s[|s| - 1]
  {
  }

  /** Stripping the end of `s` in terms of stripping the end of its tail. */
  lemma RStripTail(s: string)
    requires |s| > 0
    ensures RStrip(s) == (if RStrip(s[1..]) == [] && IsSpace(s[0]) then [] else [s[0]] + RStrip(s[1..]))
  {
    var t1 := RStrip(s[1..]);
    if t1 == [] && IsSpace(s[0]) {
      assert s == [s[0]] + s[1..];
      RStripUnique(s, []);
    } else {
      var t := [s[0]] + t1;
      TailSlices(s, |t1|);
      RStripUnique(s, t);
    }
  }

  // ---------------------------------------------------------------- "NW / ..."

  /** The number of leading characters before the first line feed. */
  function LineRun(s: string): (n: nat)
    ensures n <= |s| && '\n' !in s[..n] && (n == |s| || s[n] == '\n')
    ensures '\n' !in s ==> n == |s|
    decreases |s|
  {
    if s == [] || s[0] == '\n' then 0
    else
      var n := LineRun(s[1..]);
      assert s[..n + 1] == [s[0]] + s[1..][..n];
      n + 1
  }

  // `\s*/` matches at the start of `s`: whitespace, then a slash.
  predicate SlashAfterSpaces(s: string) {
    SpaceRun(s) < |s| && s[SpaceRun(s)] == '/'
  }

  // `re.sub(r"NW\s*/.*", "NW", s)`: a slash after `NW` drops the rest of the line.
  function TruncateNwSlash(s: string): string
    decreases |s|
  {
    if StartsWith(s, "NW") && SlashAfterSpaces(s[2..]) then
      var after := s[2 + SpaceRun(s[2..]) + 1..];
      "NW" + TruncateNwSlash(after[LineRun(after)..])
    else if s == [] then []
    else [s[0]] + TruncateNwSlash(s[1..])
  }

  lemma {:induction false} TruncateNwSlashChars(s: string)
    ensures Within(TruncateNwSlash(s), s)
    decreases |s|
  {
    if StartsWith(s, "NW") && SlashAfterSpaces(s[2..]) {
      var k := 2 + SpaceRun(s[2..]) + 1;
      var after := s[k..];
      var rest := after[LineRun(after)..];
      TruncateNwSlashChars(rest);
      assert rest == s[k + LineRun(after)..];
      SliceChars(s, k + LineRun(after), |s|);
      assert s[..2] == "NW";
      SliceChars(s, 0, 2);
    } else if s != [] {
      TruncateNwSlashChars(s[1..]);
      SliceChars(s, 1, |s|);
    }
  }

  // ---------------------------------------------------------------- cut at a phrase

  /** `re.sub(rf"{pat}.*", rep, s)`: `pat` and the rest of its line become `rep`. */
  function CutLine(s: string, pat: string, rep: string): string
    requires |pat| > 0
    decreases |s|
  {
    if StartsWith(s, pat) then
      var after := s[|pat|..];
      rep + CutLine(after[LineRun(after)..], pat, rep)
    else if s == [] then []
    else [s[0]] + CutLine(s[1..], pat, rep)
  }

  lemma {:induction false} CutLineChars(s: string, pat: string, rep: string)
    requires |pat| > 0
    ensures Within(CutLine(s, pat, rep), s + rep)
    decreases |s|
  {
    if StartsWith(s, pat) {
      var after := s[|pat|..];
      var rest := after[LineRun(after)..];
      CutLineChars(rest, pat, rep);
      assert rest == s[|pat| + LineRun(after)..];
      SliceChars(s, |pat| + LineRun(after), |s|);
    } else if s != [] {
      CutLineChars(s[1..], pat, rep);
      SliceChars(s, 1, |s|);
    }
  }

  /**
   * On a single line the cut keeps what precedes the first occurrence of
   * `pat` and puts `rep` in place of everything from there on.
   */
  lemma {:induction false} CutLineSingleLine(s: string, pat: string, rep: string)
    requires |pat| > 0 && '\n' !in s
    ensures CutLine(s, pat, rep) == if Contains(s, pat) then Before(s, pat) + rep else s
    decreases |s|
  {
    if StartsWith(s, pat) {
      var after := s[|pat|..];
      SliceChars(s, |pat|, |s|);
      assert after[LineRun(after)..] == [];
      assert IndexOf(s, pat) == Some(0);
    } else if s != [] {
      SliceChars(s, 1, |s|);
      CutLineSingleLine(s[1..], pat, rep);
      BeforeCons(s, pat);
    }
  }

  // ---------------------------------------------------------------- hyphen runs

  /** The number of leading hyphens. */
  function HyphenRun(s: string): (n: nat)
    ensures n <= |s| && (n == |s| || s[n] != '-')
    ensures forall i :: 0 <= i < n ==> s[i] == '-'
    decreases |s|
  {
    if s == [] || s[0] != '-' then 0 else HyphenRun(s[1..]) + 1
  }

  /** `re.sub("-+", "-", s)`. */
  function SqueezeHyphens(s: string): (r: string)
    ensures |s| > 0 ==> |r| > 0 && r[0] == s[0]
    decreases |s|
  {
    if s == [] then []
    else if s[0] == '-' then "-" + SqueezeHyphens(s[HyphenRun(s)..])
    else [s[0]] + SqueezeHyphens(s[1..])
  }

  /** No two hyphens are adjacent. */
  predicate NoDoubleHyphen(s: string) {
    forall i :: 0 <= i < |s| - 1 ==> !(s[i] == '-' && s[i + 1] == '-')
  }

  /** After squeezing, no two hyphens are adjacent, and nothing new appears. */
  lemma {:induction false} SqueezeHyphensSpec(s: string)
    ensures NoDoubleHyphen(SqueezeHyphens(s))
    ensures Within(SqueezeHyphens(s), s)
    decreases |s|
  {
    if s != [] {
      var r := SqueezeHyphens(s);
      if s[0] == '-' {
        var t := s[HyphenRun(s)..];
        SqueezeHyphensSpec(t);
        SliceChars(s, HyphenRun(s), |s|);
        var rt := SqueezeHyphens(t);
        assert r == "-" + rt;
        forall i | 0 <= i < |r| - 1
          ensures !(r[i] == '-' && r[i + 1] == '-')
        {
          if i == 0 {
            assert r[1] == rt[0] == t[0];
          } else {
            assert r[i] == rt[i - 1] && r[i + 1] == rt[i];
          }
        }
      } else {
        var t := s[1..];
        SqueezeHyphensSpec(t);
        SliceChars(s, 1, |s|);
        var rt := SqueezeHyphens(t);
        assert r == [s[0]] + rt;
        forall i | 0 <= i < |r| - 1
          ensures !(r[i] == '-' && r[i + 1] == '-')
        {
          if i > 0 {
            assert r[i] == rt[i - 1] && r[i + 1] == rt[i];
          }
        }
      }
    }
  }

  /**
   * The same rewriting read one character at a time: a hyphen is dropped
   * exactly when the character before it in `s` was a hyphen too.
   */
  function DropRepeatedHyphens(s: string, afterHyphen: bool): (r: string)
    ensures |r| <= |s|
    decreases |s|
  {
    if s == [] then []
    else if s[0] == '-' && afterHyphen then DropRepeatedHyphens(s[1..], true)
    else [s[0]] + DropRepeatedHyphens(s[1..], s[0] == '-')
  }

  /** Squeezing each run of hyphens agrees with dropping every repeated hyphen. */
  lemma {:induction false} SqueezeHyphensDropsRepeats(s: string)
    ensures SqueezeHyphens(s) == DropRepeatedHyphens(s, false)
    decreases |s|
  {
    if s != [] {
      if s[0] == '-' {
        var n := HyphenRun(s);
        SqueezeHyphensDropsRepeats(s[n..]);
        RepeatedHyphensDropped(s[1..], n - 1);
        assert s[1..][n - 1..] == s[n..];
        AfterHyphenIrrelevant(s[n..]);
      } else {
        SqueezeHyphensDropsRepeats(s[1..]);
      }
    }
  }

  /** Right after a hyphen, a run of further hyphens vanishes. */
  lemma {:induction false} RepeatedHyphensDropped(s: string, k: nat)
    requires k <= |s| && forall i :: 0 <= i < k ==> s[i] == '-'
    ensures DropRepeatedHyphens(s, true) == DropRepeatedHyphens(s[k..], true)
    decreases k
  {
    if k > 0 {
      RepeatedHyphensDropped(s[1..], k - 1);
      assert s[1..][k - 1..] == s[k..];
    }
  }

  /** Before anything but a hyphen, whether a hyphen came last does not matter. */
  lemma AfterHyphenIrrelevant(s: string)
    requires s == [] || s[0] != '-'
    ensures DropRepeatedHyphens(s, true) == DropRepeatedHyphens(s, false)
  {
  }

  /** Text without two adjacent hyphens is left as it is. */
  lemma {:induction false} SqueezeHyphensIdle(s: string)
    requires NoDoubleHyphen(s)
    ensures SqueezeHyphens(s) == s
    decreases |s|
  {
    if s != [] {
      var t := s[1..];
      assert NoDoubleHyphen(t) by {
        forall i | 0 <= i < |t| - 1
          ensures !(t[i] == '-' && t[i + 1] == '-')
        {
          assert t[i] == s[i + 1] && t[i + 1] == s[i + 2];
        }
      }
      SqueezeHyphensIdle(t);
      if s[0] == '-' {
        assert HyphenRun(s) == 1 by {
          assert |s| > 1 ==> s[1] != '-';
        }
      }
      HeadTail(s);
    }
  }

  /** Squeezing is idempotent. */
  lemma SqueezeHyphensTwice(s: string)
    ensures SqueezeHyphens(SqueezeHyphens(s)) == SqueezeHyphens(s)
  {
    SqueezeHyphensSpec(s);
    SqueezeHyphensIdle(SqueezeHyphens(s));
  }

  /** The text with its hyphens removed. */
  function Dehyphen(s: string): (r: string)
    ensures '-' !in r
    decreases |s|
  {
    if s == [] then []
    else if s[0] == '-' then Dehyphen(s[1..])
    else [s[0]] + Dehyphen(s[1..])
  }

  /** Squeezing removes hyphens only: everything else stays, in order. */
  lemma {:induction false} SqueezeHyphensKeepsOthers(s: string)
    ensures Dehyphen(SqueezeHyphens(s)) == Dehyphen(s)
    decreases |s|
  {
    if s != [] {
      if s[0] == '-' {
        var n := HyphenRun(s);
        SqueezeHyphensKeepsOthers(s[n..]);
        LeadingHyphensDehyphen(s, n);
        assert ("-" + SqueezeHyphens(s[n..]))[1..] == SqueezeHyphens(s[n..]);
      } else {
        SqueezeHyphensKeepsOthers(s[1..]);
        assert ([s[0]] + SqueezeHyphens(s[1..]))[1..] == SqueezeHyphens(s[1..]);
      }
    }
  }

  /** Leading hyphens contribute nothing to the dehyphenated text. */
  lemma {:induction false} LeadingHyphensDehyphen(s: string, k: nat)
    requires k <= |s| && forall i :: 0 <= i < k ==> s[i] == '-'
    ensures Dehyphen(s) == Dehyphen(s[k..])
    decreases k
  {
    if k > 0 {
      LeadingHyphensDehyphen(s[1..], k - 1);
      assert s[1..][k - 1..] == s[k..];
    }
  }
}
