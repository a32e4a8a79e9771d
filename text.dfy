/**
 * The Python string primitives the cleaning scripts rely on, over Dafny
 * strings: character classes, `in`, `str.split(sep)`, `sep.join`,
 * `str.replace`, `str.strip()` and `" ".join(s.split())`.
 */
module Text {
  import opened Wrappers

  // ---------------------------------------------------------------- characters

  /** Python's `str.isspace()`: what `split()` and `strip()` treat as whitespace. */
  predicate IsSpace(c: char) {
    c == ' ' || ('\t' <= c <= '\r') || ('\U{1C}' <= c <= '\U{1F}')
    || c == '\U{85}' || c == '\U{A0}' || c == '\U{1680}'
    || ('\U{2000}' <= c <= '\U{200A}') || c == '\U{2028}' || c == '\U{2029}'
    || c == '\U{202F}' || c == '\U{205F}' || c == '\U{3000}'
  }

  predicate IsUpper(c: char) { 'A' <= c <= 'Z' }
  predicate IsLower(c: char) { 'a' <= c <= 'z' }
  predicate IsLetter(c: char) { IsUpper(c) || IsLower(c) }
  predicate IsDigit(c: char) { '0' <= c <= '9' }

  /** A regular-expression word character (`\w`), restricted to ASCII. */
  predicate IsWordChar(c: char) { IsLetter(c) || IsDigit(c) || c == '_' }

  function ToUpper(c: char): char {
    if IsLower(c) then (c as int - 32) as char else c
  }

  function ToLower(c: char): char {
    if IsUpper(c) then (c as int + 32) as char else c
  }

  /** `s.lower()` on ASCII letters. */
  function LowerString(s: string): (r: string)
    ensures |r| == |s|
    ensures forall i :: 0 <= i < |s| ==> r[i] == ToLower(s[i])
    decreases |s|
  {
    if s == [] then [] else [ToLower(s[0])] + LowerString(s[1..])
  }

  /** Equality under the regular-expression flag `(?i)`, ASCII letters only. */
  predicate EqualsIgnoringCase(a: string, b: string) {
    |a| == |b| && forall i :: 0 <= i < |a| ==> ToLower(a[i]) == ToLower(b[i])
  }

  /** `\b` at position `i` of `s`: a word character on exactly one side. */
  predicate Boundary(s: string, i: nat)
    requires i <= |s|
  {
    (i > 0 && IsWordChar(s[i - 1])) != (i < |s| && IsWordChar(s[i]))
  }

  // ---------------------------------------------------------------- occurrences

  predicate StartsWith(s: string, p: string) {
    |p| <= |s| && s[..|p|] == p
  }

  predicate EndsWith(s: string, p: string) {
    |p| <= |s| && s[|s| - |p|..] == p
  }

  predicate OccursAt(s: string, p: string, i: nat) {
    i + |p| <= |s| && s[i..i + |p|] == p
  }

  /** `s.find(p)`: the leftmost position where `p` occurs. */
  function IndexOf(s: string, p: string): (r: Option<nat>)
    ensures r.Some? ==> OccursAt(s, p, r.value)
    ensures forall j :: 0 <= j <= |s| && (r.None? || j < r.value) ==> !OccursAt(s, p, j)
    decreases |s|
  {
    if StartsWith(s, p) then Some(0)
    else if |s| == 0 then None
    else
      var rest := IndexOf(s[1..], p);
      assert !OccursAt(s, p, 0) by {
        assert |p| <= |s| ==> s[0..|p|] == s[..|p|];
      }
      assert forall j :: 1 <= j <= |s| ==> (OccursAt(s, p, j) <==> OccursAt(s[1..], p, j - 1)) by {
        forall j | 1 <= j <= |s| ensures OccursAt(s, p, j) <==> OccursAt(s[1..], p, j - 1) {
          ShiftedOccurrence(s, p, j - 1);
        }
      }
      match rest
      case None => None
      case Some(i) => Some(i + 1)
  }

  lemma ShiftedOccurrence(s: string, p: string, j: nat)
    requires |s| > 0
    ensures OccursAt(s, p, j + 1) <==> OccursAt(s[1..], p, j)
  {
    if j + 1 + |p| <= |s| {
      SliceOfSlice(s, 1, |s|, j, j + |p|);
    }
  }

  lemma SliceOfSlice(s: string, a: nat, b: nat, i: nat, j: nat)
    requires a <= b <= |s| && i <= j <= b - a
    ensures s[a..b][i..j] == s[a + i..a + j]
  {
    var x := s[a..b][i..j];
    var y := s[a + i..a + j];
    forall k | 0 <= k < |x|
      ensures x[k] == y[k]
    {
    }
  }

  /** Python's `p in s`. */
  predicate Contains(s: string, p: string) {
    IndexOf(s, p).Some?
  }

  lemma ContainsChar(s: string, c: char)
    ensures Contains(s, [c]) <==> c in s
  {
    if c in s {
      var j :| 0 <= j < |s| && s[j] == c;
      assert OccursAt(s, [c], j);
    }
    if Contains(s, [c]) {
      var j := IndexOf(s, [c]).value;
      assert s[j..j + 1] == [c];
      assert s[j] == c;
    }
  }

  /** An occurrence inside a slice of `s` is an occurrence in `s`. */
  lemma OccursInSlice(s: string, a: nat, b: nat, p: string, j: nat)
    requires a <= b <= |s|
    requires OccursAt(s[a..b], p, j)
    ensures OccursAt(s, p, a + j)
  {
    SliceOfSlice(s, a, b, j, j + |p|);
  }

  /** Slicing the tail of `s` is slicing `s` one place further on. */
  lemma TailSlices(s: string, k: nat)
    requires |s| > 0 && k < |s|
    ensures [s[0]] + s[1..][..k] == s[..k + 1]
    ensures s[1..][k..] == s[k + 1..]
  {
  }

  /** Every character of a slice is a character of the whole. */
  lemma SliceChars(s: string, i: nat, j: nat)
    requires i <= j <= |s|
    ensures forall c :: c in s[i..j] ==> c in s
  {
    forall c | c in s[i..j]
      ensures c in s
    {
      var k :| 0 <= k < j - i && s[i..j][k] == c;
      assert s[i + k] == c;
    }
  }

  // ---------------------------------------------------------------- split / join

  /** `s.split(sep)[0]`: what precedes the first `sep`, or all of `s`. */
  function Before(s: string, sep: string): (r: string)
    requires |sep| > 0
    ensures |r| <= |s| && r == s[..|r|]
    ensures forall j :: 0 <= j < |r| ==> !OccursAt(s, sep, j)
    ensures |r| < |s| ==> OccursAt(s, sep, |r|)
    ensures |r| == |s| ==> !Contains(s, sep)
  {
    match IndexOf(s, sep)
    case None => s
    case Some(i) => s[..i]
  }

  /** Cutting at `sep` leaves no `sep` behind. */
  lemma BeforeAvoids(s: string, sep: string)
    requires |sep| > 0
    ensures !Contains(Before(s, sep), sep)
  {
    var r := Before(s, sep);
    if Contains(r, sep) {
      var j := IndexOf(r, sep).value;
      assert r == s[0..|r|];
      OccursInSlice(s, 0, |r|, sep, j);
      assert false;
    }
  }

  lemma BeforeAvoidsChar(s: string, c: char)
    ensures c !in Before(s, [c])
  {
    BeforeAvoids(s, [c]);
    ContainsChar(Before(s, [c]), c);
  }

  /** Cutting at `sep` one character at a time, when `sep` does not start `s`. */
  lemma BeforeCons(s: string, sep: string)
    requires |sep| > 0 && |s| > 0 && !StartsWith(s, sep)
    ensures Contains(s, sep) == Contains(s[1..], sep)
    ensures Before(s, sep) == [s[0]] + Before(s[1..], sep)
  {
    match IndexOf(s[1..], sep)
    case None =>
    case Some(i) =>
      assert s[..i + 1] == [s[0]] + s[1..][..i];
  }

  /** `s.split(sep)` for a non-empty separator. */
  function Split(s: string, sep: string): (parts: seq<string>)
    requires |sep| > 0
    ensures |parts| >= 1
    decreases |s|
  {
    match IndexOf(s, sep)
    case None => [s]
    case Some(i) => [s[..i]] + Split(s[i + |sep|..], sep)
  }

  lemma ConcatAssoc(a: string, b: string, c: string)
    ensures a + b + c == a + (b + c)
  {
  }

  lemma OccursCharAt(s: string, c: char, i: nat)
    ensures OccursAt(s, [c], i) <==> i < |s| && s[i] == c
  {
    if i < |s| {
      assert s[i..i + 1] == [s[i]];
    }
  }

  /** A character that does not occur is not found. */
  lemma IndexOfAbsentChar(a: string, c: char)
    requires c !in a
    ensures IndexOf(a, [c]).None?
  {
    forall i: nat ensures !OccursAt(a, [c], i) {
      OccursCharAt(a, c, i);
    }
  }

  /** The first occurrence of `c` in `a + [c] + rest`, when `a` has none, is right after `a`. */
  lemma IndexOfCharAt(a: string, c: char, rest: string)
    requires c !in a
    ensures IndexOf(a + [c] + rest, [c]) == Some(|a|)
  {
    var s := a + [c] + rest;
    OccursCharAt(s, c, |a|);
    forall j: nat | j < |a| ensures !OccursAt(s, [c], j) {
      OccursCharAt(s, c, j);
      assert s[j] == a[j];
    }
  }

  /** Splitting on a character `a` does not contain peels off `a`. */
  lemma SplitCharCons(a: string, c: char, rest: string)
    requires c !in a
    ensures Split(a + [c] + rest, [c]) == [a] + Split(rest, [c])
  {
    var s := a + [c] + rest;
    IndexOfCharAt(a, c, rest);
    assert s[..|a|] == a && s[|a| + 1..] == rest;
  }

  /** A string that does not contain the separator character splits into itself. */
  lemma SplitAbsentChar(a: string, c: char)
    requires c !in a
    ensures Split(a, [c]) == [a]
  {
    IndexOfAbsentChar(a, c);
  }

  /** `sep.join(parts)`. */
  function Join(sep: string, parts: seq<string>): string
    decreases |parts|
  {
    if |parts| == 0 then ""
    else if |parts| == 1 then parts[0]
    else parts[0] + sep + Join(sep, parts[1..])
  }

  /** Joining the pieces with the separator gives the string back. */
  lemma {:induction false} JoinSplit(s: string, sep: string)
    requires |sep| > 0
    ensures Join(sep, Split(s, sep)) == s
    decreases |s|
  {
    match IndexOf(s, sep)
    case None =>
    case Some(i) =>
      var rest := s[i + |sep|..];
      JoinSplit(rest, sep);
      JoinCons(sep, s[..i], Split(rest, sep));
      Pieces(s, i, i + |sep|);
  }

  lemma JoinCons(sep: string, x: string, ps: seq<string>)
    requires |ps| >= 1
    ensures Join(sep, [x] + ps) == x + sep + Join(sep, ps)
  {
    assert ([x] + ps)[1..] == ps;
  }

  lemma Pieces(s: string, i: nat, j: nat)
    requires i <= j <= |s|
    ensures s == s[..i] + s[i..j] + s[j..]
  {
  }

  /** One step of `s.split(sep)` at the first occurrence `i`. */
  lemma SplitStep(s: string, sep: string, i: nat)
    requires |sep| > 0 && IndexOf(s, sep) == Some(i)
    ensures Split(s, sep) == [s[..i]] + Split(s[i + |sep|..], sep)
  {
  }

  /** The last `n` characters of a suffix are the last `n` of the string. */
  lemma SuffixOfSuffix(s: string, k: nat, n: nat)
    requires k <= |s| && n <= |s| - k
    ensures s[k..][|s| - k - n..] == s[|s| - n..]
  {
  }

  lemma HeadTail(s: string)
    requires s != []
    ensures [s[0]] + s[1..] == s
  {
  }

  lemma SuffixPieces(s: string, i: nat, j: nat)
    requires i <= j <= |s|
    ensures s[i..] == s[i..j] + s[j..]
  {
  }

  /** No piece of `s.split(sep)` contains `sep`. */
  lemma {:induction false} SplitPiecesAvoid(s: string, sep: string)
    requires |sep| > 0
    ensures forall k :: 0 <= k < |Split(s, sep)| ==> !Contains(Split(s, sep)[k], sep)
    decreases |s|
  {
    BeforeAvoids(s, sep);
    match IndexOf(s, sep)
    case None =>
    case Some(i) =>
      SplitPiecesAvoid(s[i + |sep|..], sep);
  }

  // ---------------------------------------------------------------- replace

  /**
   * `s.replace(pat, rep)` for a non-empty `pat`: the leftmost occurrence is
   * replaced and the search resumes after it, so occurrences never overlap.
   */
  function ReplaceNonEmpty(s: string, pat: string, rep: string): string
    requires |pat| > 0
    decreases |s|
  {
    match IndexOf(s, pat)
    case None => s
    case Some(i) => s[..i] + rep + ReplaceNonEmpty(s[i + |pat|..], pat, rep)
  }

  /** `s.replace("", rep)`: `rep` before every character and at the end. */
  function InsertEverywhere(s: string, rep: string): string
    decreases |s|
  {
    if |s| == 0 then rep else rep + [s[0]] + InsertEverywhere(s[1..], rep)
  }

  /** Python's `s.replace(pat, rep)`. */
  function Replace(s: string, pat: string, rep: string): string {
    if |pat| == 0 then InsertEverywhere(s, rep) else ReplaceNonEmpty(s, pat, rep)
  }

  /** Every character of `s.replace(pat, rep)` comes from `s` or from `rep`. */
  lemma {:induction false} ReplaceChars(s: string, pat: string, rep: string)
    ensures Within(Replace(s, pat, rep), s + rep)
    decreases |s|
  {
    if |pat| == 0 {
      if |s| > 0 {
        ReplaceChars(s[1..], pat, rep);
        assert forall c :: c in s[1..] ==> c in s;
      }
    } else {
      match IndexOf(s, pat)
      case None =>
      case Some(i) =>
        ReplaceChars(s[i + |pat|..], pat, rep);
        assert forall c :: c in s[i + |pat|..] ==> c in s;
        assert forall c :: c in s[..i] ==> c in s;
    }
  }

  /** Replacing a single character by something without it removes that character. */
  lemma {:induction false} ReplaceRemovesChar(s: string, c: char, rep: string)
    requires c !in rep
    ensures c !in Replace(s, [c], rep)
    decreases |s|
  {
    match IndexOf(s, [c])
    case None =>
      ContainsChar(s, c);
    case Some(i) =>
      ReplaceRemovesChar(s[i + 1..], c, rep);
      forall j | 0 <= j < i
        ensures s[j] != c
      {
        assert !OccursAt(s, [c], j);
        assert s[j..j + 1] == [s[j]];
      }
  }

  /** `s.replace(pat, rep) == rep.join(s.split(pat))`: every occurrence is replaced. */
  lemma {:induction false} ReplaceIsJoinSplit(s: string, pat: string, rep: string)
    requires |pat| > 0
    ensures Replace(s, pat, rep) == Join(rep, Split(s, pat))
    decreases |s|
  {
    match IndexOf(s, pat)
    case None =>
    case Some(i) =>
      var head, rest := s[..i], s[i + |pat|..];
      var pieces := Split(rest, pat);
      ReplaceIsJoinSplit(rest, pat, rep);
      assert Replace(s, pat, rep) == head + rep + Replace(rest, pat, rep);
      assert Split(s, pat) == [head] + pieces;
      JoinCons(rep, head, pieces);
  }

  /** Without an occurrence of `pat`, `replace` changes nothing. */
  lemma ReplaceAbsent(s: string, pat: string, rep: string)
    requires |pat| > 0 && !Contains(s, pat)
    ensures Replace(s, pat, rep) == s
  {
  }

  /** A pattern holding a character that `s` lacks does not occur in `s`. */
  lemma AbsentByChar(s: string, p: string, i: nat)
    requires i < |p| && p[i] !in s
    ensures !Contains(s, p)
  {
    forall j: nat | j + |p| <= |s|
      ensures !OccursAt(s, p, j)
    {
      assert s[j..j + |p|][i] == s[j + i];
    }
  }

  /** Cutting at a character that does not occur keeps everything. */
  lemma BeforeAbsentChar(s: string, c: char)
    requires c !in s
    ensures Before(s, [c]) == s
  {
    IndexOfAbsentChar(s, c);
  }

  /** Replacing a pattern whose only occurrence ends the string. */
  lemma ReplaceTail(a: string, p: string, rep: string)
    requires |p| > 0 && p[0] !in a
    ensures Replace(a + p, p, rep) == a + rep
  {
    var s := a + p;
    assert s[|a|..|a| + |p|] == p;
    forall j | 0 <= j < |a|
      ensures !OccursAt(s, p, j)
    {
      assert s[j] == a[j] && a[j] != p[0];
      assert j + |p| <= |s| ==> s[j..j + |p|][0] == s[j];
    }
    assert OccursAt(s, p, |a|);
    assert IndexOf(s, p) == Some(|a|);
    assert s[..|a|] == a && s[|a| + |p|..] == [];
    assert IndexOf([], p).None?;
    assert a + rep + ReplaceNonEmpty([], p, rep) == a + rep;
  }

  // ---------------------------------------------------------------- strip

  predicate AllSpace(s: string) {
    forall i :: 0 <= i < |s| ==> IsSpace(s[i])
  }

  predicate IsStripped(s: string) {
    s == [] || (!IsSpace(s[0]) && !IsSpace(s[|s| - 1]))
  }

  /** `s.lstrip()`. */
  function LStrip(s: string): (r: string)
    ensures |r| <= |s| && r == s[|s| - |r|..]
    ensures AllSpace(s[..|s| - |r|])
    ensures r == [] || !IsSpace(r[0])
    decreases |s|
  {
    if |s| > 0 && IsSpace(s[0]) then
      var r := LStrip(s[1..]);
      assert s[..|s| - |r|] == [s[0]] + s[1..][..|s[1..]| - |r|];
      r
    else s
  }

  /** `s.rstrip()`. */
  function RStrip(s: string): (r: string)
    ensures |r| <= |s| && r == s[..|r|]
    ensures AllSpace(s[|r|..])
    ensures r == [] || !IsSpace(r[|r| - 1])
    decreases |s|
  {
    if |s| > 0 && IsSpace(s[|s| - 1]) then
      var r := RStrip(s[..|s| - 1]);
      assert s[|r|..] == s[..|s| - 1][|r|..] + [s[|s| - 1]];
      r
    else s
  }

  /** `r` is the slice of `s` at `i`, with only whitespace before and after it. */
  predicate TrimmedAt(s: string, r: string, i: nat) {
    i + |r| <= |s| && r == s[i..i + |r|] && AllSpace(s[..i]) && AllSpace(s[i + |r|..])
  }

  /**
   * `s.strip()`: `s` without its leading and trailing whitespace, that is
   * a slice of `s` between two all-whitespace ends that starts and ends
   * with non-whitespace.
   */
  function Strip(s: string): (r: string)
    ensures IsStripped(r)
    ensures Within(r, s)
    ensures exists i: nat :: TrimmedAt(s, r, i)
  {
    var t := LStrip(s);
    var r := RStrip(t);
    assert forall c :: c in r ==> c in t;
    assert forall c :: c in t ==> c in s;
    StripPieces(s, t, r);
    r
  }

  /** Right-stripping the left-stripped text leaves a slice with whitespace ends. */
  lemma StripPieces(s: string, t: string, r: string)
    requires t == LStrip(s) && r == RStrip(t)
    ensures TrimmedAt(s, r, |s| - |t|)
  {
    TrimmedSlices(s, t, r, |s| - |t|);
  }

  /** A prefix of a suffix, both cut at whitespace, is a trimmed slice. */
  lemma TrimmedSlices(s: string, t: string, r: string, i: nat)
    requires i <= |s| && t == s[i..] && |r| <= |t| && r == t[..|r|]
    requires AllSpace(s[..i]) && AllSpace(t[|r|..])
    ensures TrimmedAt(s, r, i)
  {
    assert r == s[i..i + |r|];
    var u := s[i + |r|..];
    forall k | 0 <= k < |u|
      ensures IsSpace(u[k])
    {
      assert u[k] == t[|r|..][k];
    }
  }

  /** Stripping a string that is already stripped changes nothing. */
  lemma StripStripped(s: string)
    requires IsStripped(s)
    ensures Strip(s) == s
  {
  }

  // ---------------------------------------------------------------- split()

  /** Every character of `r` occurs in `s`. */
  predicate Within(r: string, s: string) {
    forall c :: c in r ==> c in s
  }

  /** A non-empty run of non-whitespace characters. */
  predicate IsWord(w: string) {
    |w| > 0 && forall i :: 0 <= i < |w| ==> !IsSpace(w[i])
  }

  /** The leading run of non-whitespace characters. */
  function WordPrefix(s: string): (w: string)
    ensures |w| <= |s| && w == s[..|w|]
    ensures forall i :: 0 <= i < |w| ==> !IsSpace(w[i])
    ensures |w| == |s| || IsSpace(s[|w|])
    decreases |s|
  {
    if |s| == 0 || IsSpace(s[0]) then []
    else
      var w := WordPrefix(s[1..]);
      assert [s[0]] + w == s[..|w| + 1];
      [s[0]] + w
  }

  /** `s.split()`: the maximal runs of non-whitespace, in order. */
  function Words(s: string): (ws: seq<string>)
    ensures forall k :: 0 <= k < |ws| ==> IsWord(ws[k]) && Within(ws[k], s)
    decreases |s|
  {
    var t := LStrip(s);
    if t == [] then []
    else
      var w := WordPrefix(t);
      assert |w| > 0 by { assert !IsSpace(t[0]); }
      var u := t[|w|..];
      var rest := Words(u);
      WordsSplit(s, t, w);
      WordsCons(s, w, rest, u);
      [w] + rest
  }

  /** The first word of `s` and what follows it are made of characters of `s`. */
  lemma WordsSplit(s: string, t: string, w: string)
    requires t == LStrip(s) && |w| <= |t| && w == t[..|w|]
    ensures Within(w, s) && Within(t[|w|..], s)
  {
    assert t == s[|s| - |t|..];
    SliceChars(s, |s| - |t|, |s|);
    SliceChars(t, |w|, |t|);
    SliceChars(t, 0, |w|);
  }

  lemma WordsCons(s: string, w: string, rest: seq<string>, u: string)
    requires IsWord(w) && Within(w, s) && Within(u, s)
    requires forall k :: 0 <= k < |rest| ==> IsWord(rest[k]) && Within(rest[k], u)
    ensures forall k :: 0 <= k < |[w] + rest| ==> IsWord(([w] + rest)[k]) && Within(([w] + rest)[k], s)
  {
    var ws := [w] + rest;
    forall k | 0 <= k < |ws|
      ensures IsWord(ws[k]) && Within(ws[k], s)
    {
      if k > 0 {
        assert ws[k] == rest[k - 1];
      }
    }
  }

  /**
   * The whitespace around and between the words of `s`: the run before the
   * first word, each run between two words, and the run after the last.
   */
  function Gaps(s: string): (gs: seq<string>)
    ensures |gs| == |Words(s)| + 1
    decreases |s|
  {
    var t := LStrip(s);
    var g := s[..|s| - |t|];
    if t == [] then [s]
    else
      var w := WordPrefix(t);
      assert |w| > 0 by { assert !IsSpace(t[0]); }
      [g] + Gaps(t[|w|..])
  }

  /** The gaps and the words of a split, read alternately. */
  function Interleave(gaps: seq<string>, ws: seq<string>): string
    requires |gaps| == |ws| + 1
    decreases |ws|
  {
    if ws == [] then gaps[0]
    else gaps[0] + ws[0] + Interleave(gaps[1..], ws[1..])
  }

  /** Each gap is made of whitespace only. */
  predicate AllGapsSpace(gs: seq<string>) {
    forall k :: 0 <= k < |gs| ==> AllSpace(gs[k])
  }

  /** Every gap strictly between two words holds at least one character. */
  predicate InnerGapsNonEmpty(gs: seq<string>, ws: seq<string>) {
    forall k :: 0 < k < |ws| && k < |gs| ==> |gs[k]| > 0
  }

  /**
   * `Words(s)` are the maximal runs of non-whitespace of `s`, in order:
   * `s` is exactly the words interleaved with whitespace gaps, and any two
   * consecutive words are separated by at least one whitespace character.
   */
  lemma WordsAreRuns(s: string)
    ensures AllGapsSpace(Gaps(s))
    ensures InnerGapsNonEmpty(Gaps(s), Words(s))
    ensures Interleave(Gaps(s), Words(s)) == s
  {
    GapsAreSpace(s);
    GapsSeparate(s);
    GapsAndWordsRebuild(s);
  }

  /** One step of the split: the leading gap, the first word, and the rest. */
  lemma GapsStep(s: string) returns (g: string, w: string, u: string)
    requires LStrip(s) != []
    ensures Gaps(s) == [g] + Gaps(u) && Words(s) == [w] + Words(u)
    ensures s == g + w + u && AllSpace(g) && IsWord(w)
    ensures u == [] || IsSpace(u[0])
    ensures |u| < |s|
  {
    var t := LStrip(s);
    g := s[..|s| - |t|];
    w := WordPrefix(t);
    assert |w| > 0 by { assert !IsSpace(t[0]); }
    u := t[|w|..];
    Rejoin(s, g, t, w, u);
  }

  /** Text without any word is a single gap. */
  lemma GapsOfBlank(s: string)
    requires LStrip(s) == []
    ensures Gaps(s) == [s] && Words(s) == [] && AllSpace(s)
  {
    var t := LStrip(s);
    assert |t| == 0;
    assert s[..|s| - |t|] == s;
    assert AllSpace(s);
    assert Words(s) == [];
    assert Gaps(s) == [s];
  }

  lemma {:induction false} GapsAreSpace(s: string)
    ensures AllGapsSpace(Gaps(s))
    decreases |s|
  {
    if LStrip(s) == [] {
      GapsOfBlank(s);
    } else {
      var g, w, u := GapsStep(s);
      GapsAreSpace(u);
      var gs := Gaps(s);
      forall k | 0 <= k < |gs|
        ensures AllSpace(gs[k])
      {
        if k > 0 {
          assert gs[k] == Gaps(u)[k - 1];
        }
      }
    }
  }

  lemma {:induction false} GapsSeparate(s: string)
    ensures InnerGapsNonEmpty(Gaps(s), Words(s))
    decreases |s|
  {
    if LStrip(s) != [] {
      var g, w, u := GapsStep(s);
      GapsSeparate(u);
      if |Words(u)| > 0 {
        FirstGapOfSpaced(u);
      }
      InnerGapsCons(g, Gaps(u), w, Words(u));
    }
  }

  /** A gap and a word put in front keep the inner gaps non-empty. */
  lemma InnerGapsCons(g: string, gs: seq<string>, w: string, ws: seq<string>)
    requires |gs| == |ws| + 1 && InnerGapsNonEmpty(gs, ws)
    requires |ws| > 0 ==> |gs[0]| > 0
    ensures InnerGapsNonEmpty([g] + gs, [w] + ws)
  {
    var gs', ws' := [g] + gs, [w] + ws;
    forall k | 0 < k < |ws'| && k < |gs'|
      ensures |gs'[k]| > 0
    {
      assert gs'[k] == gs[k - 1];
    }
  }

  lemma {:induction false} GapsAndWordsRebuild(s: string)
    ensures Interleave(Gaps(s), Words(s)) == s
    decreases |s|
  {
    if LStrip(s) == [] {
      GapsOfBlank(s);
    } else {
      var g, w, u := GapsStep(s);
      GapsAndWordsRebuild(u);
      var gs, ws := Gaps(s), Words(s);
      assert gs[1..] == Gaps(u) && ws[1..] == Words(u);
      assert Interleave(gs, ws) == g + w + u;
    }
  }

  /** Lead, first word and remainder put back together give the text. */
  lemma Rejoin(s: string, g: string, t: string, w: string, u: string)
    requires |t| <= |s| && g == s[..|s| - |t|] && t == s[|s| - |t|..]
    requires |w| <= |t| && w == t[..|w|] && u == t[|w|..]
    ensures g + w + u == s
  {
    assert w + u == t;
    assert g + t == s;
  }

  /** Text that starts with whitespace and has a word has a non-empty first gap. */
  lemma FirstGapOfSpaced(u: string)
    requires u == [] || IsSpace(u[0])
    requires |Words(u)| > 0
    ensures |Gaps(u)[0]| > 0
  {
    assert LStrip(u[1..]) == LStrip(u);
  }

  /** A non-empty string none of whose characters is whitespace is a word. */
  lemma WordOfChars(w: string)
    requires |w| > 0 && forall c :: c in w ==> !IsSpace(c)
    ensures IsWord(w)
  {
    forall i | 0 <= i < |w|
      ensures !IsSpace(w[i])
    {
      assert w[i] in w;
    }
  }

  /** A word followed by whitespace, or by nothing, is its own leading run. */
  lemma WordPrefixOf(w: string, rest: string)
    requires IsWord(w) && (rest == [] || IsSpace(rest[0]))
    ensures WordPrefix(w + rest) == w
  {
    var s := w + rest;
    var p := WordPrefix(s);
    assert forall i :: 0 <= i < |w| ==> s[i] == w[i];
    assert |p| >= |w|;
    assert rest != [] ==> IsSpace(s[|w|]);
    assert |p| <= |w|;
    assert s[..|w|] == w;
  }

  /** A word splits into itself. */
  lemma WordsOfWord(b: string)
    requires IsWord(b)
    ensures Words(b) == [b]
  {
    assert LStrip(b) == b;
    WordPrefixOf(b, []);
    assert b + [] == b;
    assert b[|b|..] == [];
    assert LStrip([]) == [];
  }

  /** A single leading space makes no difference to the split. */
  lemma WordsAfterSpace(u: string, b: string)
    requires u == " " + b
    ensures Words(u) == Words(b)
  {
    assert u[1..] == b;
    assert LStrip(u) == LStrip(b);
  }

  /** A leading word followed by whitespace, or by nothing, is split off first. */
  lemma WordsOfWordThen(s: string, a: string, u: string)
    requires s == a + u && IsWord(a) && (u == [] || IsSpace(u[0]))
    ensures Words(s) == [a] + Words(u)
  {
    assert s[0] == a[0];
    assert LStrip(s) == s;
    WordPrefixOf(a, u);
    assert s[|a|..] == u;
  }

  /** Two words with one space between them split into those words. */
  lemma WordsOfTwo(a: string, b: string)
    requires IsWord(a) && IsWord(b)
    ensures Words(a + " " + b) == [a, b]
  {
    var u := " " + b;
    assert a + " " + b == a + u;
    WordsOfWordThen(a + u, a, u);
    WordsAfterSpace(u, b);
    WordsOfWord(b);
  }

  /** Single-spaced words are left as they are by the whitespace collapse. */
  lemma CollapseTwoWords(a: string, b: string)
    requires IsWord(a) && IsWord(b)
    ensures CollapseSpaces(a + " " + b) == a + " " + b
  {
    WordsOfTwo(a, b);
    assert [a, b][1..] == [b];
    assert Join(" ", [b]) == b;
    assert Join(" ", [a, b]) == a + " " + b;
  }

  /** Position `i` is whitespace only as a single space before a non-whitespace character. */
  predicate SingleSpaceAt(s: string, i: nat)
    requires i < |s|
  {
    IsSpace(s[i]) ==> s[i] == ' ' && i + 1 < |s| && !IsSpace(s[i + 1])
  }

  /** A string whose only whitespace is single spaces between non-whitespace. */
  predicate IsCollapsed(s: string) {
    IsStripped(s) && forall i :: 0 <= i < |s| ==> SingleSpaceAt(s, i)
  }

  /** `" ".join(s.split())`: the same words, single-spaced. */
  function CollapseSpaces(s: string): (r: string)
    ensures IsCollapsed(r)
    ensures Within(r, s + " ")
    ensures Words(r) == Words(s)
  {
    JoinedWordsCollapsed(Words(s), s);
    WordsOfJoin(Words(s));
    Join(" ", Words(s))
  }

  /** Words joined by single spaces split back into the same words. */
  lemma {:induction false} WordsOfJoin(ws: seq<string>)
    requires forall k :: 0 <= k < |ws| ==> IsWord(ws[k])
    ensures Words(Join(" ", ws)) == ws
    decreases |ws|
  {
    if |ws| == 0 {
      assert LStrip([]) == [];
    } else if |ws| == 1 {
      WordsOfWord(ws[0]);
    } else {
      var rest := Join(" ", ws[1..]);
      var u := " " + rest;
      assert Join(" ", ws) == ws[0] + u;
      WordsOfWordThen(ws[0] + u, ws[0], u);
      WordsAfterSpace(u, rest);
      WordsOfJoin(ws[1..]);
      assert [ws[0]] + ws[1..] == ws;
    }
  }

  lemma {:induction false} JoinedWordsCollapsed(ws: seq<string>, s: string)
    requires forall k :: 0 <= k < |ws| ==> IsWord(ws[k]) && Within(ws[k], s)
    ensures IsCollapsed(Join(" ", ws))
    ensures Within(Join(" ", ws), s + " ")
    ensures |ws| > 0 ==> |Join(" ", ws)| > 0
    decreases |ws|
  {
    if |ws| >= 2 {
      var w, rest := ws[0], Join(" ", ws[1..]);
      JoinedWordsCollapsed(ws[1..], s);
      var r := w + " " + rest;
      assert Join(" ", ws) == r;
      assert IsWord(w) && Within(w, s);
      assert forall i :: 0 <= i < |w| ==> r[i] == w[i];
      forall i | 0 <= i < |r|
        ensures SingleSpaceAt(r, i)
      {
        if i > |w| {
          assert r[i] == rest[i - |w| - 1];
          assert SingleSpaceAt(rest, i - |w| - 1);
          if i + 1 < |r| {
            assert r[i + 1] == rest[i - |w|];
          }
        }
      }
      assert r[|r| - 1] == rest[|rest| - 1];
      assert r[0] == w[0];
    } else if |ws| == 1 {
      assert Join(" ", ws) == ws[0];
      assert IsWord(ws[0]) && Within(ws[0], s);
    }
  }
}
