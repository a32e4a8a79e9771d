/**
 * The rule tables of the cleaners: ordered `(from, to)` pairs applied either
 * as substring replacements one after another, or as exact remappings where
 * each entry whose `from` equals the current value overwrites it.
 */
module Rules {
  import opened Wrappers
  import opened Text

  /**
   * A character that may appear in a rule target: none of the separators
   * the cleaners cut at or delete, by code point line feed (10), `(` (40),
   * `,` (44), `.` (46), `;` (59) and `?` (63).
   */
  predicate IsRuleChar(c: char) {
    c as int != 10 && c as int != 40 && c as int != 44 && c as int != 46 && c as int != 59 && c as int != 63
  }

  type RuleChar = c: char | IsRuleChar(c)

  /** One `(from, to)` pair of a rule table. */
  datatype Rule = Rule(from: string, to: seq<RuleChar>)

  /** Every character of `r` comes from `s` or may appear in a rule target. */
  predicate FromOrRuleChars(r: string, s: string) {
    forall c :: c in r ==> c in s || IsRuleChar(c)
  }

  lemma FromOrRuleCharsTrans(a: string, b: string, c: string)
    requires FromOrRuleChars(a, b) && FromOrRuleChars(b, c)
    ensures FromOrRuleChars(a, c)
  {
  }

  // ---------------------------------------------------------------- substring rules

  /** `for f, t in rules: s = s.replace(f, t)`. */
  function ReplaceAll(rules: seq<Rule>, s: string): string
    decreases |rules|
  {
    if rules == [] then s
    else ReplaceAll(rules[1..], Replace(s, rules[0].from, rules[0].to))
  }

  /** Substring rules only ever bring in characters that targets may contain. */
  lemma {:induction false} ReplaceAllChars(rules: seq<Rule>, s: string)
    ensures FromOrRuleChars(ReplaceAll(rules, s), s)
    decreases |rules|
  {
    if rules != [] {
      var t := Replace(s, rules[0].from, rules[0].to);
      ReplaceChars(s, rules[0].from, rules[0].to);
      ReplaceAllChars(rules[1..], t);
      FromOrRuleCharsTrans(ReplaceAll(rules, s), t, s);
    }
  }

  /** A pass whose patterns all fail to occur leaves the string alone. */
  lemma {:induction false} ReplaceAllAbsent(rules: seq<Rule>, s: string)
    requires forall k :: 0 <= k < |rules| ==> |rules[k].from| > 0 && !Contains(s, rules[k].from)
    ensures ReplaceAll(rules, s) == s
    decreases |rules|
  {
    if rules != [] {
      ReplaceAbsent(s, rules[0].from, rules[0].to);
      ReplaceAllAbsent(rules[1..], s);
    }
  }

  /** Leading rules whose patterns do not occur can be skipped. */
  lemma {:induction false} ReplaceAllSkip(rules: seq<Rule>, s: string, k: nat)
    requires k <= |rules|
    requires forall j :: 0 <= j < k ==> |rules[j].from| > 0 && !Contains(s, rules[j].from)
    ensures ReplaceAll(rules, s) == ReplaceAll(rules[k..], s)
    decreases k
  {
    if k > 0 {
      ReplaceAbsent(s, rules[0].from, rules[0].to);
      assert forall j :: 0 <= j < k - 1 ==> rules[1..][j] == rules[j + 1];
      ReplaceAllSkip(rules[1..], s, k - 1);
      assert rules[1..][k - 1..] == rules[k..];
    }
  }

  // ---------------------------------------------------------------- exact rules

  /** `for f, t in rules: if s == f: s = t`: every matching entry overwrites, in order. */
  function RemapExact(rules: seq<Rule>, s: string): string
    decreases |rules|
  {
    if rules == [] then s
    else RemapExact(rules[1..], if s == rules[0].from then rules[0].to else s)
  }

  /** The first entry whose `from` is `s`, if any. */
  function FirstMatch(rules: seq<Rule>, s: string): (r: Option<nat>)
    ensures r.Some? ==> r.value < |rules| && rules[r.value].from == s
    ensures forall j :: 0 <= j < |rules| && (r.None? || j < r.value) ==> rules[j].from != s
    decreases |rules|
  {
    if rules == [] then None
    else if rules[0].from == s then Some(0)
    else match FirstMatch(rules[1..], s)
      case None => None
      case Some(k) => Some(k + 1)
  }

  /** No entry maps onto the `from` of a later entry, so no value is rewritten twice. */
  predicate NoCascade(rules: seq<Rule>) {
    forall i, j :: 0 <= i < j < |rules| ==> rules[j].from != rules[i].to
  }

  /** A value matched by no entry passes through unchanged. */
  lemma {:induction false} RemapUnmatched(rules: seq<Rule>, s: string)
    requires FirstMatch(rules, s).None?
    ensures RemapExact(rules, s) == s
    decreases |rules|
  {
    if rules != [] {
      assert rules[0].from != s;
      assert forall j :: 0 <= j < |rules[1..]| ==> rules[1..][j] == rules[j + 1];
      RemapUnmatched(rules[1..], s);
    }
  }

  /** A target that no later entry matches is the final value. */
  lemma {:induction false} RemapSettles(rules: seq<Rule>, s: string, k: nat)
    requires k < |rules| && FirstMatch(rules, s) == Some(k)
    requires forall j :: k < j < |rules| ==> rules[j].from != rules[k].to
    ensures RemapExact(rules, s) == rules[k].to
    decreases |rules|
  {
    var tail := rules[1..];
    assert forall j :: 0 <= j < |tail| ==> tail[j] == rules[j + 1];
    if k == 0 {
      if tail != [] {
        assert FirstMatch(tail, rules[0].to).None?;
        RemapUnmatched(tail, rules[0].to);
      }
    } else {
      assert rules[0].from != s;
      assert FirstMatch(tail, s) == Some(k - 1);
      RemapSettles(tail, s, k - 1);
    }
  }

  /** Without chains, the sequential remap is a lookup of the first matching entry. */
  lemma RemapIsLookup(rules: seq<Rule>, s: string)
    requires NoCascade(rules)
    ensures RemapExact(rules, s) == match FirstMatch(rules, s)
                                    case Some(k) => rules[k].to
                                    case None => s
  {
    match FirstMatch(rules, s)
    case None => RemapUnmatched(rules, s);
    case Some(k) => RemapSettles(rules, s, k);
  }

  /** The remap yields the input or one of the targets. */
  lemma {:induction false} RemapOutcome(rules: seq<Rule>, s: string)
    ensures RemapExact(rules, s) == s
         || exists k :: 0 <= k < |rules| && RemapExact(rules, s) == rules[k].to
    decreases |rules|
  {
    if rules != [] {
      var t := if s == rules[0].from then rules[0].to else s;
      RemapOutcome(rules[1..], t);
      if RemapExact(rules, s) != s && RemapExact(rules, s) != t {
        var k :| 0 <= k < |rules[1..]| && RemapExact(rules, s) == rules[1..][k].to;
        assert rules[1..][k] == rules[k + 1];
      }
    }
  }

  /** A value that no entry names passes through unchanged. */
  lemma RemapMissing(rules: seq<Rule>, s: string)
    requires forall r :: r in rules ==> r.from != s
    ensures RemapExact(rules, s) == s
  {
    assert forall j :: 0 <= j < |rules| ==> rules[j] in rules;
    RemapUnmatched(rules, s);
  }

  /** Remapping with a concatenation of tables is remapping with each in turn. */
  lemma {:induction false} RemapAppend(a: seq<Rule>, b: seq<Rule>, s: string)
    ensures RemapExact(a + b, s) == RemapExact(b, RemapExact(a, s))
    decreases |a|
  {
    if a == [] {
      assert a + b == b;
    } else {
      assert (a + b)[0] == a[0] && (a + b)[1..] == a[1..] + b;
      RemapAppend(a[1..], b, if s == a[0].from then a[0].to else s);
    }
  }

  lemma RemapChars(rules: seq<Rule>, s: string)
    ensures FromOrRuleChars(RemapExact(rules, s), s)
  {
    RemapOutcome(rules, s);
  }
}
