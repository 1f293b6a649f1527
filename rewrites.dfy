/**
 * Word-bounded literal substitution: what `re.sub(r"\bLIT\b", REPL, s)` does for the
 * alias and noise-token tables of the cleaner. A pattern such as `\bpmts?\b` is a list of
 * literal alternatives tried in the order the regex engine backtracks through them
 * ("pmts" before "pmt").
 */
module Rewrites {
  import opened Strings

  /**
   * `\bLIT\b` matches s at i: lit occurs at i, and at each end of the occurrence the
   * word/non-word status changes (the outside of s counting as non-word).
   */
  predicate MatchesAt(s: string, i: nat, lit: string) {
    0 < |lit| && i + |lit| <= |s| && s[i..i + |lit|] == lit
    && IsWordChar(lit[0]) != (0 < i && IsWordChar(s[i - 1]))
    && IsWordChar(lit[|lit| - 1]) != (i + |lit| < |s| && IsWordChar(s[i + |lit|]))
  }

  /** One substitution: the pattern's alternatives, in the engine's order, and the replacement text. */
  datatype Rule = Rule(alternatives: seq<string>, replacement: string)

  /** Every alternative of the rule starts with a word character, as `\b` followed by a letter requires. */
  predicate WordLed(rule: Rule) {
    forall k :: 0 <= k < |rule.alternatives| ==> |rule.alternatives[k]| > 0 && IsWordChar(rule.alternatives[k][0])
  }

  /** Length of the first alternative that matches at i, or 0 when none does. */
  function MatchLength(s: string, i: nat, alts: seq<string>): (n: nat)
    ensures n == 0 <==> forall k :: 0 <= k < |alts| ==> !MatchesAt(s, i, alts[k])
    ensures n > 0 ==> i + n <= |s|
  {
    if alts == [] then 0
    else if MatchesAt(s, i, alts[0]) then |alts[0]|
    else MatchLength(s, i, alts[1..])
  }

  /**
   * The scan of `re.sub` from position i: at each position either the pattern matches and
   * the replacement is emitted and the match skipped, or one character is copied. Boundaries
   * are always judged on the original string s, as the regex engine does.
   */
  function RewriteFrom(s: string, i: nat, rule: Rule): string
    decreases |s| - i
  {
    if i >= |s| then []
    else
      var n := MatchLength(s, i, rule.alternatives);
      if n > 0 then rule.replacement + RewriteFrom(s, i + n, rule)
      else [s[i]] + RewriteFrom(s, i + 1, rule)
  }

  /** `re.sub(pattern, replacement, s)` for one rule. */
  function Rewrite(s: string, rule: Rule): string
  {
    RewriteFrom(s, 0, rule)
  }

  /** A rewrite introduces no character other than those of its replacement text. */
  lemma {:induction false} RewriteChars(s: string, i: nat, rule: Rule)
    ensures CharsFrom(RewriteFrom(s, i, rule), s, rule.replacement)
    decreases |s| - i
  {
    if i < |s| {
      var n := MatchLength(s, i, rule.alternatives);
      if n > 0 {
        RewriteChars(s, i + n, rule);
      } else {
        RewriteChars(s, i + 1, rule);
      }
    }
  }

  /** Where the pattern matches nowhere, the rewrite leaves the text exactly as it was. */
  lemma {:induction false} RewriteUnchanged(s: string, i: nat, rule: Rule)
    requires i <= |s|
    requires forall j :: i <= j < |s| ==> MatchLength(s, j, rule.alternatives) == 0
    ensures RewriteFrom(s, i, rule) == s[i..]
    decreases |s| - i
  {
    if i < |s| {
      RewriteUnchanged(s, i + 1, rule);
      assert s[i..] == [s[i]] + s[i + 1..];
    }
  }

  /** Up to the next match the text is copied as it is. */
  lemma {:induction false} RewriteCopiesUntil(s: string, i: nat, k: nat, rule: Rule)
    requires i <= k <= |s|
    requires forall j :: i <= j < k ==> MatchLength(s, j, rule.alternatives) == 0
    ensures RewriteFrom(s, i, rule) == s[i..k] + RewriteFrom(s, k, rule)
    decreases k - i
  {
    if i < k {
      assert s[i..k] == [s[i]] + s[i + 1..k];
      calc {
        RewriteFrom(s, i, rule);
        [s[i]] + RewriteFrom(s, i + 1, rule);
        { RewriteCopiesUntil(s, i + 1, k, rule); }
        [s[i]] + (s[i + 1..k] + RewriteFrom(s, k, rule));
        s[i..k] + RewriteFrom(s, k, rule);
      }
    }
  }

  /** A text without word characters contains no word-bounded occurrence, so no rule changes it. */
  lemma NoWordCharsUnchanged(s: string, rule: Rule)
    requires WordLed(rule) && Avoids(s, IsWordChar)
    ensures Rewrite(s, rule) == s
  {
    forall j | 0 <= j < |s|
      ensures MatchLength(s, j, rule.alternatives) == 0
    {
      forall k | 0 <= k < |rule.alternatives|
        ensures !MatchesAt(s, j, rule.alternatives[k])
      {
        assert s[j] in s;
      }
    }
    RewriteUnchanged(s, 0, rule);
  }

  /** Concatenation of the replacement texts of a table of rules. */
  function Replacements(rules: seq<Rule>): string
  {
    if rules == [] then [] else Replacements(rules[..|rules| - 1]) + rules[|rules| - 1].replacement
  }

  /** The rules applied one after another, each to the previous result (a `for` loop over the table). */
  function RewriteAll(rules: seq<Rule>, s: string): string
  {
    if rules == [] then s else Rewrite(RewriteAll(rules[..|rules| - 1], s), rules[|rules| - 1])
  }

  /** One more rule of the table applies that rule to the result so far. */
  lemma RewriteAllStep(rules: seq<Rule>, i: nat, s: string)
    requires i < |rules|
    ensures RewriteAll(rules[..i + 1], s) == Rewrite(RewriteAll(rules[..i], s), rules[i])
  {
    assert rules[..i + 1][..i] == rules[..i];
  }

  /** The loop `for pat, repl in table: s = re.sub(pat, repl, s)`: every rule in table order, each on the previous result. */
  method RewriteTable(rules: seq<Rule>, text: string) returns (s: string)
    ensures s == RewriteAll(rules, text)
  {
    s := text;
    for i := 0 to |rules|
      invariant s == RewriteAll(rules[..i], text)
    {
      RewriteAllStep(rules, i, text);
      s := Rewrite(s, rules[i]);
    }
    assert rules[..|rules|] == rules;
  }

  /** Rules that leave t alone do not change t: a stretch of idle rules keeps the result so far. */
  lemma {:induction false} RewriteAllIdle(rules: seq<Rule>, lo: nat, hi: nat, s: string, t: string)
    requires lo <= hi <= |rules| && RewriteAll(rules[..lo], s) == t
    requires forall k :: lo <= k < hi ==> Rewrite(t, rules[k]) == t
    ensures RewriteAll(rules[..hi], s) == t
    decreases hi - lo
  {
    if lo < hi {
      RewriteAllStep(rules, lo, s);
      RewriteAllIdle(rules, lo + 1, hi, s, t);
    }
  }

  /** Every character of a literal that matches at i occurs in s. */
  lemma MatchedCharsOccur(s: string, i: nat, lit: string)
    ensures MatchesAt(s, i, lit) ==> forall d :: 0 <= d < |lit| ==> lit[d] in s
  {
    if MatchesAt(s, i, lit) {
      forall d | 0 <= d < |lit|
        ensures lit[d] in s
      {
        assert s[i + d] == s[i..i + |lit|][d];
      }
    }
  }

  /** A rule each of whose alternatives holds the character c, which s lacks, cannot match in s. */
  lemma ForeignUnchanged(s: string, rule: Rule, c: char)
    requires c !in s
    requires forall k :: 0 <= k < |rule.alternatives| ==> c in rule.alternatives[k]
    ensures Rewrite(s, rule) == s
  {
    forall j, k | 0 <= j < |s| && 0 <= k < |rule.alternatives|
      ensures !MatchesAt(s, j, rule.alternatives[k])
    {
      MatchedCharsOccur(s, j, rule.alternatives[k]);
    }
    RewriteUnchanged(s, 0, rule);
  }

  /** A table of rules introduces no character other than those of its replacement texts. */
  lemma {:induction false} RewriteAllChars(rules: seq<Rule>, s: string)
    ensures CharsFrom(RewriteAll(rules, s), s, Replacements(rules))
  {
    if rules != [] {
      var init := rules[..|rules| - 1];
      var last := rules[|rules| - 1];
      RewriteAllChars(init, s);
      RewriteChars(RewriteAll(init, s), 0, last);
      CharsFromTrans(RewriteAll(rules, s), RewriteAll(init, s), s, last.replacement, Replacements(init));
    }
  }

  /** A text without word characters passes through a whole table of word-led rules unchanged. */
  lemma {:induction false} RewriteAllNoWordChars(rules: seq<Rule>, s: string)
    requires forall k :: 0 <= k < |rules| ==> WordLed(rules[k])
    requires Avoids(s, IsWordChar)
    ensures RewriteAll(rules, s) == s
  {
    if rules != [] {
      RewriteAllNoWordChars(rules[..|rules| - 1], s);
      NoWordCharsUnchanged(s, rules[|rules| - 1]);
    }
  }

  /** A table whose replacement texts avoid a class of characters keeps a text free of that class. */
  lemma {:induction false} RewriteAllAvoids(rules: seq<Rule>, s: string, bad: char -> bool)
    requires forall k :: 0 <= k < |rules| ==> Avoids(rules[k].replacement, bad)
    requires Avoids(s, bad)
    ensures Avoids(RewriteAll(rules, s), bad)
  {
    if rules != [] {
      var init := rules[..|rules| - 1];
      RewriteAllAvoids(init, s, bad);
      RewriteChars(RewriteAll(init, s), 0, rules[|rules| - 1]);
      AvoidsFrom(RewriteAll(rules, s), RewriteAll(init, s), rules[|rules| - 1].replacement, bad);
    }
  }

  /** A text made only of word characters. */
  predicate IsWord(w: string) { forall i :: 0 <= i < |w| ==> IsWordChar(w[i]) }

  /**
   * Word-boundedness: a word that is not itself one of the alternatives is left alone, even
   * when an alternative occurs inside it (as "co" does inside "coffee").
   */
  lemma WordUnchanged(w: string, rule: Rule)
    requires WordLed(rule) && IsWord(w)
    requires forall k :: 0 <= k < |rule.alternatives| ==> rule.alternatives[k] != w
    ensures Rewrite(w, rule) == w
  {
    forall j | 0 <= j < |w|
      ensures MatchLength(w, j, rule.alternatives) == 0
    {
      forall k | 0 <= k < |rule.alternatives|
        ensures !MatchesAt(w, j, rule.alternatives[k])
      {
        var lit := rule.alternatives[k];
        if j == 0 && 0 < |lit| < |w| && w[..|lit|] == lit {
          assert lit[|lit| - 1] == w[|lit| - 1];
        }
        if j == 0 && |lit| == |w| {
          assert w[0..|lit|] == w;
        }
      }
    }
    RewriteUnchanged(w, 0, rule);
  }

  /** The same for a whole table: a word that is no rule's alternative comes out unchanged. */
  lemma {:induction false} RewriteAllKeepsWord(rules: seq<Rule>, w: string)
    requires forall k :: 0 <= k < |rules| ==> WordLed(rules[k])
    requires IsWord(w)
    requires forall k, j :: 0 <= k < |rules| && 0 <= j < |rules[k].alternatives| ==> rules[k].alternatives[j] != w
    ensures RewriteAll(rules, w) == w
  {
    if rules != [] {
      RewriteAllKeepsWord(rules[..|rules| - 1], w);
      WordUnchanged(w, rules[|rules| - 1]);
    }
  }
}
