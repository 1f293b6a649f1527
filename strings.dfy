/**
 * The parts of Python's `str` and `re` behaviour that the classifier relies on:
 * whitespace as `str.isspace()` (and `\s`) sees it, `strip()`, `split()`,
 * substring tests (`k in txt`), runs of a character class, and ASCII `lower()`.
 */
module Strings {

  /** True of every character that `str.isspace()` accepts, hence what `\s`, `strip()` and `split()` treat as whitespace. */
  predicate IsSpace(c: char) {
    var n := c as int;
    n == 32 || 9 <= n <= 13 || 28 <= n <= 31 || n == 0x85 || n == 0xA0 || n == 0x1680
    || 0x2000 <= n <= 0x200A || n == 0x2028 || n == 0x2029 || n == 0x202F || n == 0x205F || n == 0x3000
  }

  predicate IsAscii(c: char) { c as int < 128 }

  predicate IsUpper(c: char) { 'A' <= c <= 'Z' }

  predicate IsDigit(c: char) { '0' <= c <= '9' }

  predicate NonSpace(c: char) { !IsSpace(c) }

  /** A word character of `\w`, restricted to ASCII. */
  predicate IsWordChar(c: char) { 'a' <= c <= 'z' || 'A' <= c <= 'Z' || IsDigit(c) || c == '_' }

  predicate AllAscii(s: string) { forall i :: 0 <= i < |s| ==> IsAscii(s[i]) }

  /** No character of s belongs to the class `bad`. */
  predicate Avoids(s: string, bad: char -> bool) { forall c :: c in s ==> !bad(c) }

  /** Every character of r is a character of s or of extra. */
  predicate CharsFrom(r: string, s: string, extra: string) { forall c :: c in r ==> c in s || c in extra }

  lemma CharsFromTrans(r: string, s: string, t: string, e1: string, e2: string)
    requires CharsFrom(r, s, e1) && CharsFrom(s, t, e2)
    ensures CharsFrom(r, t, e1 + e2)
  {
  }

  lemma AvoidsFrom(r: string, s: string, extra: string, bad: char -> bool)
    requires CharsFrom(r, s, extra) && Avoids(s, bad) && Avoids(extra, bad)
    ensures Avoids(r, bad)
  {
  }

  /** ASCII `c.lower()`. */
  function ToLower(c: char): (d: char)
    ensures !IsUpper(d)
    ensures IsUpper(c) ==> d as int == c as int + 32
    ensures !IsUpper(c) ==> d == c
  {
    if IsUpper(c) then (c as int + 32) as char else c
  }

  /** `s.lower()` on ASCII text: every upper-case letter replaced by its lower-case form. */
  function Lower(s: string): (r: string)
    ensures |r| == |s|
    ensures forall i :: 0 <= i < |s| ==> r[i] == ToLower(s[i])
    ensures Avoids(r, IsUpper)
  {
    seq(|s|, i requires 0 <= i < |s| => ToLower(s[i]))
  }

  /** Number of leading characters of s in the class p (the length of the run a `[...]+` would take). */
  function RunLength(s: string, p: char -> bool): (n: nat)
    ensures n <= |s|
    ensures forall i :: 0 <= i < n ==> p(s[i])
    ensures n < |s| ==> !p(s[n])
    decreases |s|
  {
    if s != [] && p(s[0]) then 1 + RunLength(s[1..], p) else 0
  }

  /** `s.lstrip()`: the suffix of s that starts at its first non-whitespace character. */
  function TrimStart(s: string): (r: string)
    ensures |r| <= |s| && r == s[|s| - |r|..]
    ensures forall i :: 0 <= i < |s| - |r| ==> IsSpace(s[i])
    ensures r == [] || !IsSpace(r[0])
  {
    s[RunLength(s, IsSpace)..]
  }

  /** `s.rstrip()`: the prefix of s that ends at its last non-whitespace character. */
  function TrimEnd(s: string): (r: string)
    ensures |r| <= |s| && r == s[..|r|]
    ensures forall i :: |r| <= i < |s| ==> IsSpace(s[i])
    ensures r == [] || !IsSpace(r[|r| - 1])
    decreases |s|
  {
    if s != [] && IsSpace(s[|s| - 1]) then TrimEnd(s[..|s| - 1]) else s
  }

  /** r is s[a..a + |r|] and everything of s outside that slice is whitespace. */
  predicate StrippedAt(s: string, a: nat, r: string) {
    a + |r| <= |s| && s[a..a + |r|] == r
    && (forall i :: 0 <= i < a ==> IsSpace(s[i]))
    && (forall i :: a + |r| <= i < |s| ==> IsSpace(s[i]))
  }

  /** `s.strip()`: s without its leading and trailing whitespace, nothing else removed. */
  function Strip(s: string): (r: string)
    ensures exists a :: StrippedAt(s, a, r)
    ensures r == [] || (!IsSpace(r[0]) && !IsSpace(r[|r| - 1]))
  {
    var t := TrimStart(s);
    var r := TrimEnd(t);
    var a := |s| - |t|;
    assert s[a..a + |r|] == r;
    assert StrippedAt(s, a, r);
    r
  }

  /** The strip of s is a contiguous piece of s. */
  lemma StripIsSlice(s: string)
    ensures exists a: nat :: OccursAt(s, Strip(s), a)
  {
    var a: nat :| StrippedAt(s, a, Strip(s));
    assert OccursAt(s, Strip(s), a);
  }

  lemma OccursAtIndex(text: string, key: string, p: nat)
    requires OccursAt(text, key, p)
    ensures forall i :: 0 <= i < |key| ==> key[i] == text[p + i]
  {
    forall i | 0 <= i < |key|
      ensures key[i] == text[p + i]
    {
      assert text[p..p + |key|][i] == text[p + i];
    }
  }

  /** A string made only of whitespace strips to the empty string, and only such strings do. */
  lemma {:induction false} StripEmpty(s: string)
    ensures Strip(s) == [] <==> forall i :: 0 <= i < |s| ==> IsSpace(s[i])
  {
    var t := TrimStart(s);
    if !forall i :: 0 <= i < |s| ==> IsSpace(s[i]) {
      var i :| 0 <= i < |s| && !IsSpace(s[i]);
      assert i >= |s| - |t|;
      assert t[i - (|s| - |t|)] == s[i];
      var r := TrimEnd(t);
      assert |r| > i - (|s| - |t|);
    }
  }

  /** A text with no whitespace at either end is its own strip. */
  lemma StripStripped(s: string)
    requires s == [] || (!IsSpace(s[0]) && !IsSpace(s[|s| - 1]))
    ensures Strip(s) == s
  {
    assert RunLength(s, IsSpace) == 0;
    assert TrimStart(s) == s;
  }

  /** When everything from index a on is whitespace, the strip of s lies inside s[..a]. */
  lemma StripWithin(s: string, a: nat)
    requires a <= |s|
    requires forall i :: a <= i < |s| ==> IsSpace(s[i])
    ensures exists p: nat :: p + |Strip(s)| <= a && OccursAt(s[..a], Strip(s), p)
  {
    var r := Strip(s);
    var p: nat :| StrippedAt(s, p, r);
    if r == [] {
      assert OccursAt(s[..a], r, 0);
    } else {
      assert s[p..p + |r|][|r| - 1] == s[p + |r| - 1];
      assert p + |r| <= a;
      assert s[..a][p..p + |r|] == s[p..p + |r|];
      assert OccursAt(s[..a], r, p);
    }
  }

  /** key occurs in text starting at index i. */
  predicate OccursAt(text: string, key: string, i: nat) {
    i + |key| <= |text| && text[i..i + |key|] == key
  }

  /** Some occurrence of key in text starts at index i or later. */
  function ContainsFrom(text: string, key: string, i: nat): (b: bool)
    requires i <= |text|
    ensures b <==> exists j :: i <= j <= |text| && OccursAt(text, key, j)
    decreases |text| - i
  {
    OccursAt(text, key, i) || (i < |text| && ContainsFrom(text, key, i + 1))
  }

  /** `key in text` for strings: key occurs as a contiguous substring of text. */
  function Contains(text: string, key: string): (b: bool)
    ensures b <==> exists j :: 0 <= j <= |text| && OccursAt(text, key, j)
  {
    ContainsFrom(text, key, 0)
  }

  /** Substring containment is transitive: text containing b contains everything b contains. */
  lemma ContainsTrans(text: string, b: string, a: string)
    requires Contains(text, b) && Contains(b, a)
    ensures Contains(text, a)
  {
    var i :| 0 <= i <= |text| && OccursAt(text, b, i);
    var j :| 0 <= j <= |b| && OccursAt(b, a, j);
    forall k | 0 <= k < |a|
      ensures text[i + j + k] == a[k]
    {
      assert a[k] == b[j + k];
      assert b[j + k] == text[i..i + |b|][j + k];
    }
    assert text[i + j..i + j + |a|] == a;
    assert OccursAt(text, a, i + j);
  }

  /** Concatenation of a sequence of strings. */
  function Concat(ts: seq<string>): string
  {
    if ts == [] then [] else ts[0] + Concat(ts[1..])
  }

  /** s with every whitespace character deleted. */
  function Unspaced(s: string): (r: string)
    ensures |r| <= |s|
  {
    if s == [] then [] else (if IsSpace(s[0]) then [] else [s[0]]) + Unspaced(s[1..])
  }

  lemma {:induction false} UnspacedAppend(a: string, b: string)
    ensures Unspaced(a + b) == Unspaced(a) + Unspaced(b)
    decreases |a|
  {
    if a == [] {
      assert a + b == b;
    } else {
      assert (a + b)[0] == a[0];
      assert (a + b)[1..] == a[1..] + b;
      UnspacedAppend(a[1..], b);
      var h: string := if IsSpace(a[0]) then [] else [a[0]];
      calc {
        Unspaced(a + b);
        h + Unspaced(a[1..] + b);
        h + (Unspaced(a[1..]) + Unspaced(b));
        (h + Unspaced(a[1..])) + Unspaced(b);
        Unspaced(a) + Unspaced(b);
      }
    }
  }

  /** `s.split()`: the maximal runs of non-whitespace characters of s, in order. */
  function Split(s: string): (tokens: seq<string>)
    decreases |s|
  {
    var t := TrimStart(s);
    if t == [] then [] else
      var n := RunLength(t, NonSpace);
      [t[..n]] + Split(t[n..])
  }

  /** A non-empty run of non-whitespace characters. */
  predicate IsToken(t: string) { t != [] && forall i :: 0 <= i < |t| ==> !IsSpace(t[i]) }

  /** Every token of a split is non-empty and free of whitespace. */
  lemma {:induction false} SplitTokens(s: string)
    ensures forall k :: 0 <= k < |Split(s)| ==> IsToken(Split(s)[k])
    decreases |s|
  {
    var t := TrimStart(s);
    if t != [] {
      var n := RunLength(t, NonSpace);
      var w, rest := t[..n], t[n..];
      SplitTokens(rest);
      assert NonSpace(t[0]);
      assert IsToken(w);
      var parts := [w] + Split(rest);
      assert Split(s) == parts;
      forall k | 0 < k < |parts|
        ensures IsToken(parts[k])
      {
        assert parts[k] == Split(rest)[k - 1];
      }
    }
  }

  /** Together the tokens of a split are exactly s without its whitespace: nothing else is lost or added. */
  lemma {:induction false} SplitConcat(s: string)
    ensures Concat(Split(s)) == Unspaced(s)
    decreases |s|
  {
    var t := TrimStart(s);
    var k := |s| - |t|;
    assert s == s[..k] + t;
    UnspacedAppend(s[..k], t);
    UnspacedOfSpaces(s[..k]);
    if t != [] {
      var n := RunLength(t, NonSpace);
      var w, rest := t[..n], t[n..];
      assert t == w + rest;
      UnspacedAppend(w, rest);
      UnspacedOfWord(w);
      SplitConcat(rest);
      var parts := [w] + Split(rest);
      assert Split(s) == parts;
      assert parts[0] == w && parts[1..] == Split(rest);
      calc {
        Concat(Split(s));
        w + Concat(Split(rest));
        Unspaced(w) + Unspaced(rest);
        Unspaced(t);
        Unspaced(s);
      }
    }
  }

  lemma {:induction false} UnspacedOfSpaces(s: string)
    requires forall i :: 0 <= i < |s| ==> IsSpace(s[i])
    ensures Unspaced(s) == []
    decreases |s|
  {
    if s != [] {
      UnspacedOfSpaces(s[1..]);
    }
  }

  lemma {:induction false} UnspacedOfWord(s: string)
    requires forall i :: 0 <= i < |s| ==> !IsSpace(s[i])
    ensures Unspaced(s) == s
    decreases |s|
  {
    if s != [] {
      UnspacedOfWord(s[1..]);
    }
  }

  /** A non-empty string without whitespace splits into itself alone: splitting never cuts inside a word. */
  lemma SplitWord(s: string)
    requires s != [] && forall i :: 0 <= i < |s| ==> !IsSpace(s[i])
    ensures Split(s) == [s]
  {
    assert RunLength(s, IsSpace) == 0;
    assert TrimStart(s) == s;
    RunLengthAll(s, NonSpace);
    assert s[|s|..] == [];
    assert s[..|s|] == s;
  }

  /** A run that stops inside x, or right at its end before a character outside p, is not lengthened by what follows. */
  lemma {:induction false} RunLengthStops(x: string, z: string, p: char -> bool)
    requires RunLength(x, p) < |x| || z == [] || !p(z[0])
    ensures RunLength(x + z, p) == RunLength(x, p)
    decreases |x|
  {
    if x == [] {
      assert x + z == z;
    } else if p(x[0]) {
      assert (x + z)[1..] == x[1..] + z;
      RunLengthStops(x[1..], z, p);
    }
  }

  /** Leading whitespace does not change a split. */
  lemma SplitLeadingSpace(c: char, rest: string)
    requires IsSpace(c)
    ensures Split([c] + rest) == Split(rest)
  {
    assert ([c] + rest)[1..] == rest;
    assert TrimStart([c] + rest) == TrimStart(rest);
  }

  /** A token followed by whitespace is split off whole: `str.split()` never cuts inside a word. */
  lemma SplitCons(w: string, c: char, rest: string)
    requires IsToken(w) && IsSpace(c)
    ensures Split(w + [c] + rest) == [w] + Split(rest)
  {
    var s := w + [c] + rest;
    assert s == w + ([c] + rest);
    assert RunLength(s, IsSpace) == 0;
    assert TrimStart(s) == s;
    RunLengthAll(w, NonSpace);
    RunLengthStops(w, [c] + rest, NonSpace);
    assert s[..|w|] == w && s[|w|..] == [c] + rest;
    SplitLeadingSpace(c, rest);
  }

  /** Whitespace on either side of the cut, or an empty side. */
  predicate SpaceBoundary(a: string, b: string) {
    a == [] || b == [] || IsSpace(a[|a| - 1]) || IsSpace(b[0])
  }

  /** Splitting distributes over a concatenation whose seam is whitespace: no token spans the seam. */
  lemma {:induction false} SplitAppend(a: string, b: string)
    requires SpaceBoundary(a, b)
    ensures Split(a + b) == Split(a) + Split(b)
    decreases |a|, 1
  {
    if a == [] {
      assert a + b == b;
    } else if IsSpace(a[0]) {
      SplitAppendAfterSpace(a, b);
    } else if RunLength(a, NonSpace) < |a| {
      SplitAppendAfterWord(a, b);
    } else {
      SplitAppendWord(a, b);
    }
  }

  lemma {:induction false} SplitAppendAfterSpace(a: string, b: string)
    requires SpaceBoundary(a, b) && a != [] && IsSpace(a[0])
    ensures Split(a + b) == Split(a) + Split(b)
    decreases |a|, 0
  {
    var tail := a[1..];
    assert a == [a[0]] + tail;
    ConcatAfterFirst(a, b);
    SplitLeadingSpace(a[0], tail + b);
    SplitLeadingSpace(a[0], tail);
    assert SpaceBoundary(tail, b);
    SplitAppend(tail, b);
  }

  lemma {:induction false} SplitAppendAfterWord(a: string, b: string)
    requires SpaceBoundary(a, b) && a != [] && !IsSpace(a[0]) && RunLength(a, NonSpace) < |a|
    ensures Split(a + b) == Split(a) + Split(b)
    decreases |a|, 0
  {
    var m := RunLength(a, NonSpace);
    FirstWordCut(a, b);
    var v, c, rest := a[..m], a[m], a[m + 1..];
    calc {
      Split(a + b);
      Split(v + [c] + (rest + b));
      { SplitCons(v, c, rest + b); }
      [v] + Split(rest + b);
      { SplitAppend(rest, b); }
      [v] + (Split(rest) + Split(b));
      { SeqAssoc([v], Split(rest), Split(b)); }
      [v] + Split(rest) + Split(b);
      { SplitCons(v, c, rest); }
      Split(v + [c] + rest) + Split(b);
      Split(a) + Split(b);
    }
  }

  /** The first word of a that ends before whitespace inside a, cut out around that whitespace. */
  lemma FirstWordCut(a: string, b: string)
    requires SpaceBoundary(a, b) && a != [] && !IsSpace(a[0]) && RunLength(a, NonSpace) < |a|
    ensures var m := RunLength(a, NonSpace);
      0 < m && IsToken(a[..m]) && IsSpace(a[m]) && SpaceBoundary(a[m + 1..], b) && |a[m + 1..]| < |a|
      && a == a[..m] + [a[m]] + a[m + 1..] && a + b == a[..m] + [a[m]] + (a[m + 1..] + b)
  {
    var m := RunLength(a, NonSpace);
    assert !NonSpace(a[m]);
    forall i | 0 <= i < m
      ensures !IsSpace(a[..m][i])
    {
      assert NonSpace(a[i]);
    }
    CutAt(a, m, b);
  }

  /** Sequence facts about cutting a at position m: no text function in sight. */
  lemma CutAt(a: string, m: nat, b: string)
    requires m < |a| && SpaceBoundary(a, b)
    ensures SpaceBoundary(a[m + 1..], b)
    ensures a == a[..m] + [a[m]] + a[m + 1..] && a + b == a[..m] + [a[m]] + (a[m + 1..] + b)
  {
    var rest := a[m + 1..];
    assert rest == [] || rest[|rest| - 1] == a[|a| - 1];
    assert a == a[..m] + [a[m]] + rest;
  }

  lemma SeqAssoc(x: seq<string>, y: seq<string>, z: seq<string>)
    ensures x + (y + z) == x + y + z
  {
  }

  lemma SplitAppendWord(a: string, b: string)
    requires SpaceBoundary(a, b) && IsToken(a)
    ensures Split(a + b) == Split(a) + Split(b)
  {
    if b == [] {
      assert a + b == a;
    } else {
      var c, rest := b[0], b[1..];
      FirstOff(a, b);
      calc {
        Split(a + b);
        Split(a + [c] + rest);
        { SplitCons(a, c, rest); }
        [a] + Split(rest);
        { SplitWord(a); SplitLeadingSpace(c, rest); }
        Split(a) + Split([c] + rest);
        Split(a) + Split(b);
      }
    }
  }

  lemma FirstOff(a: string, b: string)
    requires b != []
    ensures b == [b[0]] + b[1..] && a + b == a + [b[0]] + b[1..]
  {
  }

  /** A token with whitespace or the text's ends on both sides is one of the split's tokens. */
  lemma SplitWholeWord(pre: string, w: string, post: string)
    requires IsToken(w) && SpaceBoundary(pre, w) && SpaceBoundary(w, post)
    ensures Split(pre + w + post) == Split(pre) + [w] + Split(post)
  {
    calc {
      Split(pre + w + post);
      { ConcatAssoc(pre, w, post); }
      Split(pre + (w + post));
      { assert SpaceBoundary(pre, w + post); SplitAppend(pre, w + post); }
      Split(pre) + Split(w + post);
      { SplitAppend(w, post); SplitWord(w); }
      Split(pre) + ([w] + Split(post));
      { SeqAssoc(Split(pre), [w], Split(post)); }
      Split(pre) + [w] + Split(post);
    }
  }

  /** The whole word w is the token right after those of pre. */
  lemma SplitWholeWordAt(pre: string, w: string, post: string)
    requires IsToken(w) && SpaceBoundary(pre, w) && SpaceBoundary(w, post)
    ensures |Split(pre)| < |Split(pre + w + post)| && Split(pre + w + post)[|Split(pre)|] == w
  {
    SplitWholeWord(pre, w, post);
    MiddleToken(Split(pre), w, Split(post));
  }

  lemma MiddleToken(x: seq<string>, w: string, z: seq<string>)
    ensures |x| < |x + [w] + z| && (x + [w] + z)[|x|] == w
  {
  }

  lemma ConcatAssoc(a: string, b: string, c: string)
    ensures a + b + c == a + (b + c)
  {
  }

  lemma ConcatAfterFirst(a: string, b: string)
    requires a != []
    ensures a + b == [a[0]] + (a[1..] + b)
  {
    assert a == [a[0]] + a[1..];
  }

  lemma {:induction false} RunLengthAll(s: string, p: char -> bool)
    requires forall i :: 0 <= i < |s| ==> p(s[i])
    ensures RunLength(s, p) == |s|
    decreases |s|
  {
    if s != [] {
      RunLengthAll(s[1..], p);
    }
  }
}
