/**
 * The transaction-text normaliser: `clean_transaction`, which turns a raw bank-statement
 * string into the canonical text the classifier sees, and `normalize_for_rules`, which
 * trims one leading preposition and one trailing corporate suffix before rule matching.
 */
module Cleaner {
  import opened Wrappers
  import opened Strings
  import opened Rewrites

  /** The alias table, in dictionary order; the repeated `\bgpay\b` key is a single entry, as in a Python dict. */
  const Aliases: seq<Rule> := [
    Rule(["amzn"], "amazon"),
    Rule(["amz"], "amazon"),
    Rule(["amzn mktp", "amzn mtp"], "amazon marketplace"),
    Rule(["amzn mktp"], "amazon marketplace"),
    Rule(["mktp"], "marketplace"),
    Rule(["mkt"], "marketplace"),
    Rule(["flipkart"], "flipkart"),
    Rule(["myntra"], "myntra"),
    Rule(["ajio"], "ajio"),
    Rule(["paytm billpay"], "paytm billpay"),
    Rule(["paytm"], "paytm"),
    Rule(["phonepe"], "phonepe"),
    Rule(["gpay"], "google pay"),
    Rule(["ccd"], "coffee day"),
    Rule(["starbucks"], "starbucks"),
    Rule(["netflixcom"], "netflix"),
    Rule(["netflix"], "netflix"),
    Rule(["spotify"], "spotify"),
    Rule(["amazonpay"], "amazon pay"),
    Rule(["upi-", "upi/", "upi"], "upi "),
    Rule(["payu"], "payu")
  ]

  /** The noise-token list, each replaced by a single space; it is a list, so its repeated entries all run. */
  const NoiseTokens: seq<Rule> := [
    Rule(["txn"], " "), Rule(["trx"], " "), Rule(["ref"], " "), Rule(["reference"], " "),
    Rule(["inv"], " "), Rule(["invoice"], " "), Rule(["ord"], " "), Rule(["pmts"], " "),
    Rule(["pmts", "pmt"], " "), Rule(["cr"], " "), Rule(["dr"], " "), Rule(["autopay"], " "),
    Rule(["autopay"], " "), Rule(["transfer"], " "), Rule(["paid"], " "), Rule(["payment"], " ")
  ]

  /** An ASCII character of Unicode category C (control): U+0000 to U+001F and U+007F. */
  predicate IsControl(c: char) { c as int < 32 || c as int == 127 }

  /** The stray special characters of step 6. */
  predicate IsSpecial(c: char) { c in "*#@!$%^&()_+=[]{};:<>/\\|~`" }

  /** The separators and punctuation of step 7. */
  predicate IsSeparator(c: char) { c in "-_/,." }

  /** The whole table of rules starts every alternative with a word character. */
  lemma TablesWordLed()
    ensures forall k :: 0 <= k < |Aliases| ==> WordLed(Aliases[k])
    ensures forall k :: 0 <= k < |NoiseTokens| ==> WordLed(NoiseTokens[k])
  {
  }

  /** Step 1 on ASCII text: NFKD leaves ASCII unchanged, and the control characters are deleted. */
  function RemoveControl(s: string): (r: string)
    ensures CharsFrom(r, s, [])
    ensures Avoids(r, IsControl)
    ensures Avoids(s, IsControl) ==> r == s
    ensures forall c :: c in s && !IsControl(c) ==> c in r
  {
    if s == [] then []
    else (if IsControl(s[0]) then [] else [s[0]]) + RemoveControl(s[1..])
  }

  /** Step 1 works character by character: the text can be cut anywhere and cleaned piece by piece. */
  lemma {:induction false} RemoveControlAppend(a: string, b: string)
    ensures RemoveControl(a + b) == RemoveControl(a) + RemoveControl(b)
    decreases |a|
  {
    if a == [] {
      assert a + b == b;
    } else {
      var head: string := if IsControl(a[0]) then [] else [a[0]];
      assert (a + b)[0] == a[0] && (a + b)[1..] == a[1..] + b;
      calc {
        RemoveControl(a + b);
        head + RemoveControl(a[1..] + b);
        { RemoveControlAppend(a[1..], b); }
        head + (RemoveControl(a[1..]) + RemoveControl(b));
        { ConcatAssoc(head, RemoveControl(a[1..]), RemoveControl(b)); }
        head + RemoveControl(a[1..]) + RemoveControl(b);
        RemoveControl(a) + RemoveControl(b);
      }
    }
  }

  // ----- runs of digits -----

  /**
   * No run of six or more consecutive digits, counting the `pending` digits that
   * immediately precede s.
   */
  predicate ShortDigitRuns(s: string, pending: nat)
    decreases |s|
  {
    s == [] ||
    if IsDigit(s[0]) then pending < 5 && ShortDigitRuns(s[1..], pending + 1)
    else ShortDigitRuns(s[1..], 0)
  }

  predicate AllDigits(t: string) { forall j :: 0 <= j < |t| ==> IsDigit(t[j]) }

  lemma {:induction false} ShortDigitRunsMono(s: string, p: nat, q: nat)
    requires q <= p && ShortDigitRuns(s, p)
    ensures ShortDigitRuns(s, q)
    decreases |s|
  {
    if s != [] {
      if IsDigit(s[0]) {
        ShortDigitRunsMono(s[1..], p + 1, q + 1);
      }
    }
  }

  lemma {:induction false} ShortDigitRunsSuffix(s: string, p: nat, k: nat)
    requires k <= |s| && ShortDigitRuns(s, p)
    ensures ShortDigitRuns(s[k..], 0)
    decreases k
  {
    if k == 0 {
      ShortDigitRunsMono(s, p, 0);
    } else {
      assert s[1..][k - 1..] == s[k..];
      if IsDigit(s[0]) {
        ShortDigitRunsSuffix(s[1..], p + 1, k - 1);
      } else {
        ShortDigitRunsSuffix(s[1..], 0, k - 1);
      }
    }
  }

  lemma {:induction false} ShortDigitRunsPrefix(s: string, p: nat, k: nat)
    requires k <= |s| && ShortDigitRuns(s, p)
    ensures ShortDigitRuns(s[..k], p)
    decreases k
  {
    if k > 0 {
      assert s[..k][1..] == s[1..][..k - 1];
      if IsDigit(s[0]) {
        ShortDigitRunsPrefix(s[1..], p + 1, k - 1);
      } else {
        ShortDigitRunsPrefix(s[1..], 0, k - 1);
      }
    }
  }

  /** Any contiguous piece of a text without long digit runs has none either. */
  lemma ShortDigitRunsSlice(s: string, a: nat, b: nat)
    requires a <= b <= |s| && ShortDigitRuns(s, 0)
    ensures ShortDigitRuns(s[a..b], 0)
  {
    var t := s[a..];
    ShortDigitRunsSuffix(s, 0, a);
    ShortDigitRunsPrefix(t, 0, b - a);
    assert t[..b - a] == s[a..b];
  }

  /** A leading block of k digits can only follow fewer than 6 - k pending digits. */
  lemma {:induction false} ShortDigitRunsBound(s: string, p: nat, k: nat)
    requires 0 < k <= |s| && AllDigits(s[..k]) && ShortDigitRuns(s, p)
    ensures p + k < 6
    decreases k
  {
    assert s[..k][0] == s[0];
    if k > 1 {
      assert s[1..][..k - 1] == s[..k][1..];
      ShortDigitRunsBound(s[1..], p + 1, k - 1);
    }
  }

  /** Digits d followed by x: the run stays short when the digits carried into x stay short. */
  lemma {:induction false} ShortDigitRunsDigitsThen(d: string, x: string, p: nat)
    requires AllDigits(d) && p + |d| < 6 && ShortDigitRuns(x, p + |d|)
    ensures ShortDigitRuns(d + x, p)
    decreases |d|
  {
    if d == [] {
      assert d + x == x;
    } else {
      assert (d + x)[0] == d[0];
      assert (d + x)[1..] == d[1..] + x;
      ShortDigitRunsDigitsThen(d[1..], x, p + 1);
    }
  }

  /** Six consecutive digits start at position i. */
  predicate SixDigitsAt(s: string, i: nat) { i + 6 <= |s| && AllDigits(s[i..i + 6]) }

  /** Without long digit runs there is no window of six consecutive digits. */
  lemma NoSixDigitWindow(s: string)
    requires ShortDigitRuns(s, 0)
    ensures forall i: nat :: !SixDigitsAt(s, i)
  {
    forall i: nat
      ensures !SixDigitsAt(s, i)
    {
      if SixDigitsAt(s, i) {
        ShortDigitRunsSuffix(s, 0, i);
        assert s[i..][..6] == s[i..i + 6];
        ShortDigitRunsBound(s[i..], 0, 6);
      }
    }
  }

  /** Step 5, `re.sub(r"\d{6,}", " ", s)`: each maximal run of six or more digits becomes one space. */
  function DropLongDigitRuns(s: string): string
    decreases |s|
  {
    if s == [] then []
    else if IsDigit(s[0]) then
      var n := RunLength(s, IsDigit);
      (if n >= 6 then " " else s[..n]) + DropLongDigitRuns(s[n..])
    else [s[0]] + DropLongDigitRuns(s[1..])
  }

  lemma {:induction false} DropLongDigitRunsChars(s: string)
    ensures CharsFrom(DropLongDigitRuns(s), s, " ")
    decreases |s|
  {
    if s != [] {
      if IsDigit(s[0]) {
        DropLongDigitRunsChars(s[RunLength(s, IsDigit)..]);
      } else {
        DropLongDigitRunsChars(s[1..]);
      }
    }
  }

  /** After step 5 no run of six or more digits is left. */
  lemma {:induction false} DropLongDigitRunsShort(s: string)
    ensures ShortDigitRuns(DropLongDigitRuns(s), 0)
    decreases |s|
  {
    if s != [] {
      var r := DropLongDigitRuns(s);
      if IsDigit(s[0]) {
        var n := RunLength(s, IsDigit);
        var rest := DropLongDigitRuns(s[n..]);
        DropLongDigitRunsShort(s[n..]);
        if n >= 6 {
          assert r == " " + rest;
          assert r[1..] == rest;
        } else {
          assert ShortDigitRuns(rest, n) by {
            if s[n..] != [] {
              var t := s[n..];
              assert !IsDigit(t[0]);
              DropLongDigitRunsShort(t[1..]);
              assert rest == [t[0]] + DropLongDigitRuns(t[1..]);
              assert rest[1..] == DropLongDigitRuns(t[1..]);
            }
          }
          ShortDigitRunsDigitsThen(s[..n], rest, 0);
        }
      } else {
        DropLongDigitRunsShort(s[1..]);
        assert r[1..] == DropLongDigitRuns(s[1..]);
      }
    }
  }

  /** Runs of five or fewer digits are kept: step 5 changes nothing in a text without long runs. */
  lemma {:induction false} DropLongDigitRunsKeepsShort(s: string)
    requires ShortDigitRuns(s, 0)
    ensures DropLongDigitRuns(s) == s
    decreases |s|
  {
    if s != [] {
      if IsDigit(s[0]) {
        var n := RunLength(s, IsDigit);
        ShortDigitRunsBound(s, 0, n);
        ShortDigitRunsSuffix(s, 0, n);
        DropLongDigitRunsKeepsShort(s[n..]);
        assert s[..n] + s[n..] == s;
      } else {
        DropLongDigitRunsKeepsShort(s[1..]);
        assert [s[0]] + s[1..] == s;
      }
    }
  }

  /** A run of six or more digits, alone, becomes a single space. */
  lemma LongRunIsSpace(d: string)
    requires AllDigits(d) && |d| >= 6
    ensures DropLongDigitRuns(d) == " "
  {
    RunLengthAll(d, IsDigit);
    assert d[|d|..] == [];
  }

  /** A non-digit character is a seam of step 5: each side is rewritten on its own and the character is kept. */
  lemma {:induction false} DropLongDigitRunsSplit(x: string, c: char, y: string)
    requires !IsDigit(c)
    ensures DropLongDigitRuns(x + [c] + y) == DropLongDigitRuns(x) + [c] + DropLongDigitRuns(y)
    decreases |x|, 1
  {
    if x == [] {
      assert x + [c] + y == [c] + y && ([c] + y)[1..] == y;
    } else if IsDigit(x[0]) {
      DropLongDigitRunsSplitRun(x, c, y);
    } else {
      DropLongDigitRunsSplitChar(x, c, y);
    }
  }

  lemma {:induction false} DropLongDigitRunsSplitRun(x: string, c: char, y: string)
    requires !IsDigit(c) && x != [] && IsDigit(x[0])
    ensures DropLongDigitRuns(x + [c] + y) == DropLongDigitRuns(x) + [c] + DropLongDigitRuns(y)
    decreases |x|, 0
  {
    var n := RunLength(x, IsDigit);
    var piece := if n >= 6 then " " else x[..n];
    RunLengthStops(x, [c] + y, IsDigit);
    CutPrefix(x, [c] + y, n);
    ConcatAssoc(x, [c], y);
    ConcatAssoc(x[n..], [c], y);
    calc {
      DropLongDigitRuns(x + [c] + y);
      piece + DropLongDigitRuns(x[n..] + [c] + y);
      { DropLongDigitRunsSplit(x[n..], c, y); }
      piece + (DropLongDigitRuns(x[n..]) + [c] + DropLongDigitRuns(y));
      { ConcatAssoc4(piece, DropLongDigitRuns(x[n..]), [c], DropLongDigitRuns(y)); }
      piece + DropLongDigitRuns(x[n..]) + [c] + DropLongDigitRuns(y);
      DropLongDigitRuns(x) + [c] + DropLongDigitRuns(y);
    }
  }

  lemma {:induction false} DropLongDigitRunsSplitChar(x: string, c: char, y: string)
    requires !IsDigit(c) && x != [] && !IsDigit(x[0])
    ensures DropLongDigitRuns(x + [c] + y) == DropLongDigitRuns(x) + [c] + DropLongDigitRuns(y)
    decreases |x|, 0
  {
    CutPrefix(x, [c] + y, 1);
    ConcatAssoc(x, [c], y);
    ConcatAssoc(x[1..], [c], y);
    calc {
      DropLongDigitRuns(x + [c] + y);
      [x[0]] + DropLongDigitRuns(x[1..] + [c] + y);
      { DropLongDigitRunsSplit(x[1..], c, y); }
      [x[0]] + (DropLongDigitRuns(x[1..]) + [c] + DropLongDigitRuns(y));
      { ConcatAssoc4([x[0]], DropLongDigitRuns(x[1..]), [c], DropLongDigitRuns(y)); }
      [x[0]] + DropLongDigitRuns(x[1..]) + [c] + DropLongDigitRuns(y);
      DropLongDigitRuns(x) + [c] + DropLongDigitRuns(y);
    }
  }

  /** A long run between two non-digits becomes one space between them: "a1234567b" gives "a b". */
  lemma LongRunBetween(a: char, d: string, b: char)
    requires !IsDigit(a) && !IsDigit(b) && AllDigits(d) && |d| >= 6
    ensures DropLongDigitRuns([a] + d + [b]) == [a, ' ', b]
  {
    assert [a] + d + [b] == [] + [a] + (d + [b] + []);
    DropLongDigitRunsSplit([], a, d + [b] + []);
    DropLongDigitRunsSplit(d, b, []);
    LongRunIsSpace(d);
  }

  lemma CutPrefix(x: string, z: string, n: nat)
    requires n <= |x|
    ensures (x + z)[..n] == x[..n] && (x + z)[n..] == x[n..] + z
  {
  }

  lemma ConcatAssoc4(a: string, b: string, c: string, d: string)
    ensures a + (b + c + d) == a + b + c + d
  {
  }

  /** Removing long digit runs twice is the same as once. */
  lemma DropLongDigitRunsIdempotent(s: string)
    ensures DropLongDigitRuns(DropLongDigitRuns(s)) == DropLongDigitRuns(s)
  {
    DropLongDigitRunsShort(s);
    DropLongDigitRunsKeepsShort(DropLongDigitRuns(s));
  }

  // ----- special characters, separators, whitespace -----

  /** Step 6: every special character becomes a space. */
  function ReplaceSpecial(s: string): (r: string)
    ensures Avoids(r, IsSpecial)
    ensures |r| == |s| && forall i :: 0 <= i < |s| ==> r[i] == (if IsSpecial(s[i]) then ' ' else s[i])
  {
    if s == [] then [] else [if IsSpecial(s[0]) then ' ' else s[0]] + ReplaceSpecial(s[1..])
  }

  lemma SpecialNotDigit(c: char)
    requires IsSpecial(c)
    ensures !IsDigit(c)
  {
  }

  lemma {:induction false} ReplaceSpecialChars(s: string)
    ensures CharsFrom(ReplaceSpecial(s), s, " ")
    decreases |s|
  {
    if s != [] {
      var r := ReplaceSpecial(s);
      assert r == [r[0]] + ReplaceSpecial(s[1..]);
      ReplaceSpecialChars(s[1..]);
    }
  }

  /** No special character is a digit, so replacing them keeps digit runs as they were. */
  lemma {:induction false} ReplaceSpecialShort(s: string, p: nat)
    requires ShortDigitRuns(s, p)
    ensures ShortDigitRuns(ReplaceSpecial(s), p)
    decreases |s|
  {
    if s != [] {
      var r := ReplaceSpecial(s);
      assert r[1..] == ReplaceSpecial(s[1..]);
      assert IsDigit(r[0]) <==> IsDigit(s[0]) by {
        if IsSpecial(s[0]) {
          SpecialNotDigit(s[0]);
        }
      }
      if IsDigit(s[0]) {
        ReplaceSpecialShort(s[1..], p + 1);
      } else {
        ReplaceSpecialShort(s[1..], 0);
      }
    }
  }

  /** Steps 7 and 8: every maximal run of characters of the class p becomes a single space (`re.sub("[...]+", " ", s)`). */
  function CollapseRuns(s: string, p: char -> bool): string
    decreases |s|
  {
    if s == [] then []
    else if p(s[0]) then " " + CollapseRuns(s[RunLength(s, p)..], p)
    else [s[0]] + CollapseRuns(s[1..], p)
  }

  lemma {:induction false} CollapseRunsChars(s: string, p: char -> bool)
    ensures CharsFrom(CollapseRuns(s, p), s, " ")
    ensures forall i :: 0 <= i < |CollapseRuns(s, p)| && p(CollapseRuns(s, p)[i]) ==> CollapseRuns(s, p)[i] == ' '
    decreases |s|
  {
    if s != [] {
      if p(s[0]) {
        CollapseRunsChars(s[RunLength(s, p)..], p);
      } else {
        CollapseRunsChars(s[1..], p);
      }
    }
  }

  /** A collapsed text never has two neighbouring characters of the class, when the space itself belongs to it. */
  lemma {:induction false} CollapseRunsNoAdjacent(s: string, p: char -> bool)
    requires p(' ')
    ensures forall i :: 0 <= i < |CollapseRuns(s, p)| - 1 ==> !(p(CollapseRuns(s, p)[i]) && p(CollapseRuns(s, p)[i + 1]))
    ensures s != [] && !p(s[0]) ==> CollapseRuns(s, p) != [] && CollapseRuns(s, p)[0] == s[0]
    decreases |s|
  {
    if s != [] {
      if p(s[0]) {
        var n := RunLength(s, p);
        CollapseRunsNoAdjacent(s[n..], p);
      } else {
        CollapseRunsNoAdjacent(s[1..], p);
      }
    }
  }

  lemma {:induction false} CollapseRunsShortDigitRuns(s: string, p: char -> bool, q: nat)
    requires forall c :: p(c) ==> !IsDigit(c)
    requires ShortDigitRuns(s, q)
    ensures ShortDigitRuns(CollapseRuns(s, p), q)
    decreases |s|
  {
    if s != [] {
      var r := CollapseRuns(s, p);
      if p(s[0]) {
        var n := RunLength(s, p);
        ShortDigitRunsSuffix(s, q, n);
        CollapseRunsShortDigitRuns(s[n..], p, 0);
        assert r[1..] == CollapseRuns(s[n..], p);
      } else {
        assert r[1..] == CollapseRuns(s[1..], p);
        if IsDigit(s[0]) {
          CollapseRunsShortDigitRuns(s[1..], p, q + 1);
        } else {
          CollapseRunsShortDigitRuns(s[1..], p, 0);
        }
      }
    }
  }

  // ----- clean_transaction -----

  /** Steps 1 to 4 on ASCII text: control characters dropped, lower-cased, then the alias table and the noise table. */
  function Prepare(text: string): string
  {
    RewriteAll(NoiseTokens, RewriteAll(Aliases, Lower(RemoveControl(text))))
  }

  /** Step 8: every whitespace run becomes one space, then the ends are stripped. */
  function Squeeze(s: string): string
  {
    Strip(CollapseRuns(s, IsSpace))
  }

  /** Steps 5 to 8: long digit runs, special characters, separators, then whitespace. */
  function Finish(s: string): string
  {
    Squeeze(CollapseRuns(ReplaceSpecial(DropLongDigitRuns(s)), IsSeparator))
  }

  /** `clean_transaction` on an ASCII string: the empty string stays empty, anything else goes through the eight steps. */
  function Clean(text: string): string
    requires AllAscii(text)
  {
    if text == [] then [] else Finish(Prepare(text))
  }

  /**
   * `clean_transaction`: threads one string through the steps, with the alias and noise
   * tables applied entry by entry, in table order, each to the previous result.
   */
  method CleanTransaction(text: string) returns (s: string)
    requires AllAscii(text)
    ensures s == Clean(text)
  {
    if text == [] {
      return "";
    }
    s := text;
    s := RemoveControl(s);
    s := Lower(s);
    s := RewriteTable(Aliases, s);
    s := RewriteTable(NoiseTokens, s);
    s := DropLongDigitRuns(s);
    s := ReplaceSpecial(s);
    s := CollapseRuns(s, IsSeparator);
    s := CollapseRuns(s, IsSpace);
    s := Strip(s);
  }

  // ----- what the canonical text looks like -----

  lemma StripChars(s: string)
    ensures CharsFrom(Strip(s), s, [])
  {
    var r := Strip(s);
    var a: nat :| StrippedAt(s, a, r);
    forall c | c in r
      ensures c in s
    {
      var i :| 0 <= i < |r| && r[i] == c;
      assert s[a..a + |r|][i] == s[a + i];
    }
  }

  lemma DropLongDigitRunsAvoids(s: string, bad: char -> bool)
    requires Avoids(s, bad) && !bad(' ')
    ensures Avoids(DropLongDigitRuns(s), bad)
  {
    DropLongDigitRunsChars(s);
    AvoidsFrom(DropLongDigitRuns(s), s, " ", bad);
  }

  lemma ReplaceSpecialAvoids(s: string, bad: char -> bool)
    requires Avoids(s, bad) && !bad(' ')
    ensures Avoids(ReplaceSpecial(s), bad)
  {
    ReplaceSpecialChars(s);
    AvoidsFrom(ReplaceSpecial(s), s, " ", bad);
  }

  lemma CollapseRunsAvoids(s: string, p: char -> bool, bad: char -> bool)
    requires Avoids(s, bad) && !bad(' ')
    ensures Avoids(CollapseRuns(s, p), bad)
  {
    CollapseRunsChars(s, p);
    AvoidsFrom(CollapseRuns(s, p), s, " ", bad);
  }

  lemma SqueezeAvoids(s: string, bad: char -> bool)
    requires Avoids(s, bad) && !bad(' ')
    ensures Avoids(Squeeze(s), bad)
  {
    var c := CollapseRuns(s, IsSpace);
    CollapseRunsAvoids(s, IsSpace, bad);
    StripChars(c);
    AvoidsFrom(Strip(c), c, [], bad);
  }

  /** Steps 5 to 7 bring in no character other than the space. */
  lemma MiddleStepsAvoid(s: string, bad: char -> bool)
    requires Avoids(s, bad) && !bad(' ')
    ensures Avoids(CollapseRuns(ReplaceSpecial(DropLongDigitRuns(s)), IsSeparator), bad)
  {
    var s3 := DropLongDigitRuns(s);
    DropLongDigitRunsAvoids(s, bad);
    ReplaceSpecialAvoids(s3, bad);
    CollapseRunsAvoids(ReplaceSpecial(s3), IsSeparator, bad);
  }

  /** A class that excludes the space is gone after its runs are collapsed. */
  lemma CollapseRunsRemoves(s: string, p: char -> bool)
    requires !p(' ')
    ensures Avoids(CollapseRuns(s, p), p)
  {
    var r := CollapseRuns(s, p);
    CollapseRunsChars(s, p);
    forall c | c in r ensures !p(c) {
      var i :| 0 <= i < |r| && r[i] == c;
    }
  }

  /** Steps 5 to 8 keep out every class of character that the space does not belong to. */
  lemma FinishAvoids(s: string, bad: char -> bool)
    requires Avoids(s, bad) && !bad(' ')
    ensures Avoids(Finish(s), bad)
  {
    MiddleStepsAvoid(s, bad);
    SqueezeAvoids(CollapseRuns(ReplaceSpecial(DropLongDigitRuns(s)), IsSeparator), bad);
  }

  /** After steps 5 to 8 no special character is left. */
  lemma FinishNoSpecial(s: string)
    ensures Avoids(Finish(s), IsSpecial)
  {
    var s35 := ReplaceSpecial(DropLongDigitRuns(s));
    var c := CollapseRuns(s35, IsSeparator);
    assert !IsSpecial(' ');
    CollapseRunsAvoids(s35, IsSeparator, IsSpecial);
    SqueezeAvoids(c, IsSpecial);
  }

  /** After steps 5 to 8 no separator is left. */
  lemma FinishNoSeparator(s: string)
    ensures Avoids(Finish(s), IsSeparator)
  {
    var s35 := ReplaceSpecial(DropLongDigitRuns(s));
    var c := CollapseRuns(s35, IsSeparator);
    assert !IsSeparator(' ');
    CollapseRunsRemoves(s35, IsSeparator);
    SqueezeAvoids(c, IsSeparator);
  }

  /** Step 8 leaves no whitespace at either end, no two whitespace characters in a row, and only plain spaces. */
  lemma SqueezeSpacing(s: string)
    ensures Squeeze(s) == [] || (!IsSpace(Squeeze(s)[0]) && !IsSpace(Squeeze(s)[|Squeeze(s)| - 1]))
    ensures forall i :: 0 <= i < |Squeeze(s)| - 1 ==> !(IsSpace(Squeeze(s)[i]) && IsSpace(Squeeze(s)[i + 1]))
    ensures forall i :: 0 <= i < |Squeeze(s)| && IsSpace(Squeeze(s)[i]) ==> Squeeze(s)[i] == ' '
  {
    SqueezeNoDoubleSpace(s);
    SqueezeOnlySpaces(s);
  }

  lemma SqueezeNoDoubleSpace(s: string)
    ensures forall i :: 0 <= i < |Squeeze(s)| - 1 ==> !(IsSpace(Squeeze(s)[i]) && IsSpace(Squeeze(s)[i + 1]))
  {
    var c := CollapseRuns(s, IsSpace);
    CollapseRunsNoAdjacent(s, IsSpace);
    var r := Strip(c);
    StripIsSlice(c);
    var a: nat :| OccursAt(c, r, a);
    OccursAtIndex(c, r, a);
    forall i | 0 <= i < |r| - 1
      ensures !(IsSpace(r[i]) && IsSpace(r[i + 1]))
    {
      assert r[i] == c[a + i] && r[i + 1] == c[a + i + 1];
    }
  }

  lemma SqueezeOnlySpaces(s: string)
    ensures forall i :: 0 <= i < |Squeeze(s)| && IsSpace(Squeeze(s)[i]) ==> Squeeze(s)[i] == ' '
  {
    var c := CollapseRuns(s, IsSpace);
    CollapseRunsChars(s, IsSpace);
    var r := Strip(c);
    StripIsSlice(c);
    var a: nat :| OccursAt(c, r, a);
    OccursAtIndex(c, r, a);
    forall i | 0 <= i < |r| && IsSpace(r[i])
      ensures r[i] == ' '
    {
      assert r[i] == c[a + i];
    }
  }

  lemma DigitStepsShort(s: string)
    ensures ShortDigitRuns(CollapseRuns(ReplaceSpecial(DropLongDigitRuns(s)), IsSeparator), 0)
  {
    var s3 := DropLongDigitRuns(s);
    DropLongDigitRunsShort(s);
    ReplaceSpecialShort(s3, 0);
    CollapseRunsShortDigitRuns(ReplaceSpecial(s3), IsSeparator, 0);
  }

  lemma SqueezeShort(s: string)
    requires ShortDigitRuns(s, 0)
    ensures ShortDigitRuns(Squeeze(s), 0)
  {
    var c := CollapseRuns(s, IsSpace);
    CollapseRunsShortDigitRuns(s, IsSpace, 0);
    StripIsSlice(c);
    var a: nat :| OccursAt(c, Strip(c), a);
    ShortDigitRunsOccurs(c, Strip(c), a);
  }

  /** A piece of a text without long digit runs has none either. */
  lemma ShortDigitRunsOccurs(s: string, r: string, a: nat)
    requires OccursAt(s, r, a) && ShortDigitRuns(s, 0)
    ensures ShortDigitRuns(r, 0)
  {
    ShortDigitRunsSlice(s, a, a + |r|);
  }

  /** Steps 5 to 8 leave no run of six or more digits. */
  lemma FinishDigits(s: string)
    ensures ShortDigitRuns(Finish(s), 0)
  {
    DigitStepsShort(s);
    SqueezeShort(CollapseRuns(ReplaceSpecial(DropLongDigitRuns(s)), IsSeparator));
  }

  /** Lower-casing creates no control character and keeps whitespace whitespace. */
  lemma LowerKeepsClasses(s: string)
    ensures Avoids(s, IsControl) ==> Avoids(Lower(s), IsControl)
    ensures Avoids(s, NonSpace) ==> Avoids(Lower(s), NonSpace)
  {
    var r := Lower(s);
    forall c | c in r
      ensures Avoids(s, IsControl) ==> !IsControl(c)
      ensures Avoids(s, NonSpace) ==> !NonSpace(c)
    {
      var i :| 0 <= i < |r| && r[i] == c;
      assert s[i] in s;
    }
  }

  predicate LowerPlain(s: string) { forall i :: 0 <= i < |s| ==> 'a' <= s[i] <= 'z' || s[i] == ' ' }

  /** The replacement texts of both tables are made of lower-case letters and spaces. */
  lemma TablesLowerPlain()
    ensures forall k :: 0 <= k < |Aliases| ==> LowerPlain(Aliases[k].replacement)
    ensures forall k :: 0 <= k < |NoiseTokens| ==> NoiseTokens[k].replacement == " "
  {
    AliasTextsLowerPlainA();
    AliasTextsLowerPlainB();
    AliasTextsLowerPlainC();
    AliasTextsLowerPlainD();
  }

  // The alias table's replacement texts, checked a slice of the table at a time.

  lemma AliasTextsLowerPlainA()
    ensures forall k :: 0 <= k < 6 ==> LowerPlain(Aliases[k].replacement)
  {
  }

  lemma AliasTextsLowerPlainB()
    ensures forall k :: 6 <= k < 11 ==> LowerPlain(Aliases[k].replacement)
  {
  }

  lemma AliasTextsLowerPlainC()
    ensures forall k :: 11 <= k < 16 ==> LowerPlain(Aliases[k].replacement)
  {
  }

  lemma AliasTextsLowerPlainD()
    ensures forall k :: 16 <= k < |Aliases| ==> LowerPlain(Aliases[k].replacement)
  {
  }

  /** Steps 1 to 4 on ASCII text leave no upper-case letter and no control character. */
  lemma PrepareCharacters(text: string)
    requires AllAscii(text)
    ensures Avoids(Prepare(text), IsUpper)
    ensures Avoids(Prepare(text), IsControl)
  {
    var s0 := RemoveControl(text);
    var s1 := Lower(s0);
    LowerKeepsClasses(s0);
    TablesLowerPlain();
    forall k | 0 <= k < |Aliases|
      ensures Avoids(Aliases[k].replacement, IsUpper) && Avoids(Aliases[k].replacement, IsControl)
    {
      var w := Aliases[k].replacement;
      forall c | c in w ensures !IsUpper(c) && !IsControl(c) {
        var i :| 0 <= i < |w| && w[i] == c;
      }
    }
    var a := RewriteAll(Aliases, s1);
    RewriteAllAvoids(Aliases, s1, IsUpper);
    RewriteAllAvoids(Aliases, s1, IsControl);
    RewriteAllAvoids(NoiseTokens, a, IsUpper);
    RewriteAllAvoids(NoiseTokens, a, IsControl);
  }

  /** The canonical text of ASCII input has no upper-case letter, control character, special character or separator. */
  lemma CleanCharacters(text: string)
    requires AllAscii(text)
    ensures Avoids(Clean(text), IsUpper)
    ensures Avoids(Clean(text), IsControl)
    ensures Avoids(Clean(text), IsSpecial)
    ensures Avoids(Clean(text), IsSeparator)
  {
    if text != [] {
      PrepareCharacters(text);
      FinishNoSpecial(Prepare(text));
      FinishNoSeparator(Prepare(text));
      FinishAvoids(Prepare(text), IsUpper);
      FinishAvoids(Prepare(text), IsControl);
    }
  }

  /**
   * The canonical text has no leading or trailing whitespace, never two whitespace
   * characters in a row, and its only whitespace is the plain space.
   */
  lemma CleanSpacing(text: string)
    requires AllAscii(text)
    ensures Clean(text) == [] || (!IsSpace(Clean(text)[0]) && !IsSpace(Clean(text)[|Clean(text)| - 1]))
    ensures forall i :: 0 <= i < |Clean(text)| - 1 ==> !(IsSpace(Clean(text)[i]) && IsSpace(Clean(text)[i + 1]))
    ensures forall i :: 0 <= i < |Clean(text)| && IsSpace(Clean(text)[i]) ==> Clean(text)[i] == ' '
  {
    if text != [] {
      SqueezeSpacing(CollapseRuns(ReplaceSpecial(DropLongDigitRuns(Prepare(text))), IsSeparator));
    }
  }

  /** The canonical text has no run of six or more digits: no six consecutive characters are all digits. */
  lemma CleanDigits(text: string)
    requires AllAscii(text)
    ensures ShortDigitRuns(Clean(text), 0)
    ensures forall i: nat :: !SixDigitsAt(Clean(text), i)
  {
    if text != [] {
      FinishDigits(Prepare(text));
    }
    NoSixDigitWindow(Clean(text));
  }

  /** Whitespace has no word character, so neither table changes it. */
  lemma PrepareBlank(text: string)
    requires Avoids(text, NonSpace)
    ensures Avoids(Prepare(text), NonSpace)
  {
    var s0 := RemoveControl(text);
    AvoidsFrom(s0, text, [], NonSpace);
    var s1 := Lower(s0);
    LowerKeepsClasses(s0);
    assert Avoids(s1, IsWordChar) by {
      forall c | c in s1 ensures !IsWordChar(c) {
        assert IsSpace(c);
      }
    }
    TablesWordLed();
    RewriteAllNoWordChars(Aliases, s1);
    RewriteAllNoWordChars(NoiseTokens, s1);
  }

  /** Step 8 turns text made only of whitespace into the empty string. */
  lemma SqueezeBlank(s: string)
    requires Avoids(s, NonSpace)
    ensures Squeeze(s) == []
  {
    var c := CollapseRuns(s, IsSpace);
    CollapseRunsAvoids(s, IsSpace, NonSpace);
    forall i | 0 <= i < |c|
      ensures IsSpace(c[i])
    {
      assert c[i] in c;
    }
    StripEmpty(c);
  }

  /** Empty input, and input made only of whitespace, cleans to the empty string. */
  lemma CleanBlank(text: string)
    requires AllAscii(text)
    requires Avoids(text, NonSpace)
    ensures Clean(text) == []
  {
    if text != [] {
      var s2 := Prepare(text);
      PrepareBlank(text);
      MiddleStepsAvoid(s2, NonSpace);
      SqueezeBlank(CollapseRuns(ReplaceSpecial(DropLongDigitRuns(s2)), IsSeparator));
    }
  }

  /** Word-boundedness: "coffee" holds no alias as a whole word and passes the alias table unchanged. */
  lemma AliasesKeepCoffee()
    ensures RewriteAll(Aliases, "coffee") == "coffee"
  {
    TablesWordLed();
    RewriteAllKeepsWord(Aliases, "coffee");
  }

  /**
   * Table order matters: on "amzn mktp" the `amzn` rule fires first and gives "amazon mktp",
   * which the `amzn mk?tp` rule no longer matches and the `mktp` rule turns into "amazon marketplace".
   */
  lemma AliasesInOrder()
    ensures Rewrite("amzn mktp", Aliases[0]) == "amazon mktp"
    ensures Rewrite("amazon mktp", Aliases[2]) == "amazon mktp"
    ensures Rewrite("amazon mktp", Aliases[4]) == "amazon marketplace"
  {
    AmznRuleFires();
    MarketplaceRuleIdle();
    MktpRuleFires();
  }

  lemma AmznRuleFires()
    ensures Rewrite("amzn mktp", Aliases[0]) == "amazon mktp"
  {
    var s, rule := "amzn mktp", Aliases[0];
    assert rule == Rule(["amzn"], "amazon");
    assert MatchLength(s, 0, rule.alternatives) == 4;
    forall j | 4 <= j < |s|
      ensures MatchLength(s, j, rule.alternatives) == 0
    {
      assert !MatchesAt(s, j, "amzn");
    }
    RewriteUnchanged(s, 4, rule);
    assert s[4..] == " mktp";
  }

  lemma MarketplaceRuleIdle()
    ensures Rewrite("amazon mktp", Aliases[2]) == "amazon mktp"
  {
    var s, rule := "amazon mktp", Aliases[2];
    assert rule == Rule(["amzn mktp", "amzn mtp"], "amazon marketplace");
    forall j | 0 <= j < |s|
      ensures MatchLength(s, j, rule.alternatives) == 0
    {
      assert !MatchesAt(s, j, "amzn mktp");
      assert !MatchesAt(s, j, "amzn mtp");
    }
    RewriteUnchanged(s, 0, rule);
  }

  lemma MktpRuleFires()
    ensures Rewrite("amazon mktp", Aliases[4]) == "amazon marketplace"
  {
    var s, rule := "amazon mktp", Aliases[4];
    MktpAbsentBefore();
    calc {
      Rewrite(s, rule);
      RewriteFrom(s, 0, rule);
      { RewriteCopiesUntil(s, 0, 7, rule); }
      s[0..7] + RewriteFrom(s, 7, rule);
      { MktpReplaced(); }
      s[0..7] + "marketplace";
      "amazon marketplace";
    }
  }

  lemma MktpAbsentBefore()
    ensures forall j :: 0 <= j < 7 ==> MatchLength("amazon mktp", j, Aliases[4].alternatives) == 0
  {
    var s, rule := "amazon mktp", Aliases[4];
    assert rule.alternatives == ["mktp"];
    forall j | 0 <= j < 7
      ensures MatchLength(s, j, rule.alternatives) == 0
    {
      assert !MatchesAt(s, j, "mktp");
    }
  }

  lemma MktpReplaced()
    ensures RewriteFrom("amazon mktp", 7, Aliases[4]) == "marketplace"
  {
    var s, rule := "amazon mktp", Aliases[4];
    assert rule == Rule(["mktp"], "marketplace");
    assert s[7..11] == "mktp";
    assert MatchesAt(s, 7, "mktp");
    assert MatchLength(s, 7, rule.alternatives) == 4;
    assert RewriteFrom(s, 11, rule) == [];
  }

  /**
   * The whole alias table on "amzn mktp": the `amzn` rule and then the `mktp` rule fire, every
   * other rule finds nothing to replace, and the text ends as "amazon marketplace".
   */
  lemma AliasTableOnAmznMktp()
    ensures RewriteAll(Aliases, "amzn mktp") == "amazon marketplace"
  {
    AmznRuleFires();
    AliasesIdleOnAmazonMktp();
    MktpRuleFires();
    MktRuleIdle();
    AmazonMarketplaceLetters();
    AliasesIdleAfterMkt("amazon marketplace");
    AliasTableTwoHits("amzn mktp", "amazon mktp", "amazon marketplace");
  }

  lemma AliasesIdleOnAmazonMktp()
    ensures forall k :: 1 <= k < 4 ==> Rewrite("amazon mktp", Aliases[k]) == "amazon mktp"
  {
    forall k | 1 <= k < 4
      ensures Rewrite("amazon mktp", Aliases[k]) == "amazon mktp"
    {
      if k == 1 {
        AmzRuleIdle();
      } else if k == 2 {
        MarketplaceRuleIdle();
      } else {
        MarketplaceLongRuleIdle();
      }
    }
  }

  lemma AmazonMarketplaceLetters()
    ensures forall c :: c in "amazon marketplace" ==> c in {' ', 'a', 'c', 'e', 'k', 'l', 'm', 'n', 'o', 'p', 'r', 't', 'z'}
  {
  }

  lemma AmazonMarketplaceLettersExclude(t: string)
    requires forall c :: c in t ==> c in {' ', 'a', 'c', 'e', 'k', 'l', 'm', 'n', 'o', 'p', 'r', 't', 'z'}
    ensures 'd' !in t && 'f' !in t && 'g' !in t && 'h' !in t && 'j' !in t && 's' !in t && 'u' !in t && 'y' !in t
  {
  }

  /** Past the `mkt` rule, every alias rule names a character that t lacks. */
  lemma AliasesIdleAfterMkt(t: string)
    requires Rewrite(t, Aliases[5]) == t
    requires forall c :: c in t ==> c in {' ', 'a', 'c', 'e', 'k', 'l', 'm', 'n', 'o', 'p', 'r', 't', 'z'}
    ensures forall k :: 5 <= k < |Aliases| ==> Rewrite(t, Aliases[k]) == t
  {
    AmazonMarketplaceLettersExclude(t);
    ForeignAliasesA(t);
    ForeignAliasesB(t);
    ForeignAliasesC(t);
    ForeignAliasesD(t);
    ForeignAliasesE(t);
  }

  /** The alias table on a text where only the first rule and then the fifth change anything. */
  lemma AliasTableTwoHits(s: string, mid: string, t: string)
    requires Rewrite(s, Aliases[0]) == mid
    requires forall k :: 1 <= k < 4 ==> Rewrite(mid, Aliases[k]) == mid
    requires Rewrite(mid, Aliases[4]) == t
    requires forall k :: 5 <= k < |Aliases| ==> Rewrite(t, Aliases[k]) == t
    ensures RewriteAll(Aliases, s) == t
  {
    assert Aliases[..0] == [];
    RewriteAllStep(Aliases, 0, s);
    RewriteAllIdle(Aliases, 1, 4, s, mid);
    RewriteAllStep(Aliases, 4, s);
    RewriteAllIdle(Aliases, 5, |Aliases|, s, t);
    assert Aliases[..|Aliases|] == Aliases;
  }

  lemma AmzRuleIdle()
    ensures Rewrite("amazon mktp", Aliases[1]) == "amazon mktp"
  {
    var s, rule := "amazon mktp", Aliases[1];
    assert rule == Rule(["amz"], "amazon");
    forall j | 0 <= j < |s|
      ensures MatchLength(s, j, rule.alternatives) == 0
    {
      assert !MatchesAt(s, j, "amz");
    }
    RewriteUnchanged(s, 0, rule);
  }

  lemma MarketplaceLongRuleIdle()
    ensures Rewrite("amazon mktp", Aliases[3]) == "amazon mktp"
  {
    var s, rule := "amazon mktp", Aliases[3];
    assert rule == Rule(["amzn mktp"], "amazon marketplace");
    forall j | 0 <= j < |s|
      ensures MatchLength(s, j, rule.alternatives) == 0
    {
      assert !MatchesAt(s, j, "amzn mktp");
    }
    RewriteUnchanged(s, 0, rule);
  }

  lemma MktRuleIdle()
    ensures Rewrite("amazon marketplace", Aliases[5]) == "amazon marketplace"
  {
    var s, rule := "amazon marketplace", Aliases[5];
    assert rule == Rule(["mkt"], "marketplace");
    forall j | 0 <= j < |s|
      ensures MatchLength(s, j, rule.alternatives) == 0
    {
      assert !MatchesAt(s, j, "mkt");
    }
    RewriteUnchanged(s, 0, rule);
  }

  lemma ForeignAliasesA(t: string)
    requires 'f' !in t && 'j' !in t && 'y' !in t
    ensures forall k :: 6 <= k < 9 ==> Rewrite(t, Aliases[k]) == t
  {
    assert Aliases[6].alternatives == ["flipkart"];
    assert "flipkart"[0] == 'f';
    ForeignUnchanged(t, Aliases[6], 'f');
    assert Aliases[7].alternatives == ["myntra"];
    assert "myntra"[1] == 'y';
    ForeignUnchanged(t, Aliases[7], 'y');
    assert Aliases[8].alternatives == ["ajio"];
    assert "ajio"[1] == 'j';
    ForeignUnchanged(t, Aliases[8], 'j');
  }

  lemma ForeignAliasesB(t: string)
    requires 'h' !in t && 'y' !in t
    ensures forall k :: 9 <= k < 12 ==> Rewrite(t, Aliases[k]) == t
  {
    assert Aliases[9].alternatives == ["paytm billpay"];
    assert "paytm billpay"[2] == 'y';
    ForeignUnchanged(t, Aliases[9], 'y');
    assert Aliases[10].alternatives == ["paytm"];
    assert "paytm"[2] == 'y';
    ForeignUnchanged(t, Aliases[10], 'y');
    assert Aliases[11].alternatives == ["phonepe"];
    assert "phonepe"[1] == 'h';
    ForeignUnchanged(t, Aliases[11], 'h');
  }

  lemma ForeignAliasesC(t: string)
    requires 'd' !in t && 'g' !in t && 's' !in t
    ensures forall k :: 12 <= k < 15 ==> Rewrite(t, Aliases[k]) == t
  {
    assert Aliases[12].alternatives == ["gpay"];
    assert "gpay"[0] == 'g';
    ForeignUnchanged(t, Aliases[12], 'g');
    assert Aliases[13].alternatives == ["ccd"];
    assert "ccd"[2] == 'd';
    ForeignUnchanged(t, Aliases[13], 'd');
    assert Aliases[14].alternatives == ["starbucks"];
    assert "starbucks"[0] == 's';
    ForeignUnchanged(t, Aliases[14], 's');
  }

  lemma ForeignAliasesD(t: string)
    requires 'f' !in t && 's' !in t
    ensures forall k :: 15 <= k < 18 ==> Rewrite(t, Aliases[k]) == t
  {
    assert Aliases[15].alternatives == ["netflixcom"];
    assert "netflixcom"[3] == 'f';
    ForeignUnchanged(t, Aliases[15], 'f');
    assert Aliases[16].alternatives == ["netflix"];
    assert "netflix"[3] == 'f';
    ForeignUnchanged(t, Aliases[16], 'f');
    assert Aliases[17].alternatives == ["spotify"];
    assert "spotify"[0] == 's';
    ForeignUnchanged(t, Aliases[17], 's');
  }

  lemma ForeignAliasesE(t: string)
    requires 'u' !in t && 'y' !in t
    ensures forall k :: 18 <= k < 21 ==> Rewrite(t, Aliases[k]) == t
  {
    assert Aliases[18].alternatives == ["amazonpay"];
    assert "amazonpay"[8] == 'y';
    ForeignUnchanged(t, Aliases[18], 'y');
    assert Aliases[19].alternatives == ["upi-", "upi/", "upi"];
    assert "upi-"[0] == 'u';
    assert "upi/"[0] == 'u';
    assert "upi"[0] == 'u';
    ForeignUnchanged(t, Aliases[19], 'u');
    assert Aliases[20].alternatives == ["payu"];
    assert "payu"[2] == 'y';
    ForeignUnchanged(t, Aliases[20], 'y');
  }

  /** A noise token becomes a space instead of vanishing: "a txn b" keeps "a" and "b" apart. */
  lemma NoiseKeepsNeighboursApart()
    ensures Rewrite("a txn b", NoiseTokens[0]) == "a   b"
  {
    assert MatchLength("a txn b", 2, NoiseTokens[0].alternatives) == 3;
  }

  /** The whole noise list on "a txn b": only `txn` occurs, and it becomes a space. */
  lemma NoiseTableOnTxn()
    ensures RewriteAll(NoiseTokens, "a txn b") == "a   b"
  {
    NoiseKeepsNeighboursApart();
    ABLetters();
    NoiseTableOneHit("a txn b", "a   b");
  }

  lemma ABLetters()
    ensures forall c :: c in "a   b" ==> c in {' ', 'a', 'b'}
  {
  }

  /** The noise list on a text where only the first token occurs. */
  lemma NoiseTableOneHit(s: string, t: string)
    requires Rewrite(s, NoiseTokens[0]) == t
    requires forall c :: c in t ==> c in {' ', 'a', 'b'}
    ensures RewriteAll(NoiseTokens, s) == t
  {
    assert NoiseTokens[..0] == [];
    RewriteAllStep(NoiseTokens, 0, s);
    ABLettersExclude(t);
    ForeignNoiseA(t);
    ForeignNoiseB(t);
    ForeignNoiseC(t);
    ForeignNoiseD(t);
    ForeignNoiseE(t);
    RewriteAllIdle(NoiseTokens, 1, |NoiseTokens|, s, t);
    assert NoiseTokens[..|NoiseTokens|] == NoiseTokens;
  }

  lemma ABLettersExclude(t: string)
    requires forall c :: c in t ==> c in {' ', 'a', 'b'}
    ensures 'c' !in t && 'd' !in t && 'i' !in t && 'o' !in t && 'p' !in t && 'r' !in t && 't' !in t && 'u' !in t
  {
  }

  lemma ForeignNoiseA(t: string)
    requires 'r' !in t && 't' !in t
    ensures forall k :: 1 <= k < 4 ==> Rewrite(t, NoiseTokens[k]) == t
  {
    assert NoiseTokens[1].alternatives == ["trx"];
    assert "trx"[0] == 't';
    ForeignUnchanged(t, NoiseTokens[1], 't');
    assert NoiseTokens[2].alternatives == ["ref"];
    assert "ref"[0] == 'r';
    ForeignUnchanged(t, NoiseTokens[2], 'r');
    assert NoiseTokens[3].alternatives == ["reference"];
    assert "reference"[0] == 'r';
    ForeignUnchanged(t, NoiseTokens[3], 'r');
  }

  lemma ForeignNoiseB(t: string)
    requires 'i' !in t && 'o' !in t
    ensures forall k :: 4 <= k < 7 ==> Rewrite(t, NoiseTokens[k]) == t
  {
    assert NoiseTokens[4].alternatives == ["inv"];
    assert "inv"[0] == 'i';
    ForeignUnchanged(t, NoiseTokens[4], 'i');
    assert NoiseTokens[5].alternatives == ["invoice"];
    assert "invoice"[0] == 'i';
    ForeignUnchanged(t, NoiseTokens[5], 'i');
    assert NoiseTokens[6].alternatives == ["ord"];
    assert "ord"[0] == 'o';
    ForeignUnchanged(t, NoiseTokens[6], 'o');
  }

  lemma ForeignNoiseC(t: string)
    requires 'c' !in t && 'p' !in t
    ensures forall k :: 7 <= k < 10 ==> Rewrite(t, NoiseTokens[k]) == t
  {
    assert NoiseTokens[7].alternatives == ["pmts"];
    assert "pmts"[0] == 'p';
    ForeignUnchanged(t, NoiseTokens[7], 'p');
    assert NoiseTokens[8].alternatives == ["pmts", "pmt"];
    assert "pmts"[0] == 'p';
    assert "pmt"[0] == 'p';
    ForeignUnchanged(t, NoiseTokens[8], 'p');
    assert NoiseTokens[9].alternatives == ["cr"];
    assert "cr"[0] == 'c';
    ForeignUnchanged(t, NoiseTokens[9], 'c');
  }

  lemma ForeignNoiseD(t: string)
    requires 'd' !in t && 'u' !in t
    ensures forall k :: 10 <= k < 13 ==> Rewrite(t, NoiseTokens[k]) == t
  {
    assert NoiseTokens[10].alternatives == ["dr"];
    assert "dr"[0] == 'd';
    ForeignUnchanged(t, NoiseTokens[10], 'd');
    assert NoiseTokens[11].alternatives == ["autopay"];
    assert "autopay"[1] == 'u';
    ForeignUnchanged(t, NoiseTokens[11], 'u');
    assert NoiseTokens[12].alternatives == ["autopay"];
    assert "autopay"[1] == 'u';
    ForeignUnchanged(t, NoiseTokens[12], 'u');
  }

  lemma ForeignNoiseE(t: string)
    requires 'p' !in t && 't' !in t
    ensures forall k :: 13 <= k < 16 ==> Rewrite(t, NoiseTokens[k]) == t
  {
    assert NoiseTokens[13].alternatives == ["transfer"];
    assert "transfer"[0] == 't';
    ForeignUnchanged(t, NoiseTokens[13], 't');
    assert NoiseTokens[14].alternatives == ["paid"];
    assert "paid"[0] == 'p';
    ForeignUnchanged(t, NoiseTokens[14], 'p');
    assert NoiseTokens[15].alternatives == ["payment"];
    assert "payment"[0] == 'p';
    ForeignUnchanged(t, NoiseTokens[15], 'p');
  }

  // ----- normalize_for_rules -----

  /** s starts with the preposition w ("to" or "for") followed by whitespace: `^(to|for)\s+` matches. */
  predicate LeadingPreposition(s: string, w: string) {
    (w == "to" || w == "for") && |w| < |s| && s[..|w|] == w && IsSpace(s[|w|])
  }

  /** Length of the prefix that `re.sub(r"^(to|for)\s+", "", s)` deletes: the word and its whole whitespace run. */
  function PrepositionCut(s: string): (k: nat)
    ensures k <= |s|
    ensures k == 0 <==> !LeadingPreposition(s, "to") && !LeadingPreposition(s, "for")
    ensures forall w :: LeadingPreposition(s, w) ==> |w| < k && forall i :: |w| <= i < k ==> IsSpace(s[i])
    ensures 0 < k < |s| ==> !IsSpace(s[k])
  {
    var w := if LeadingPreposition(s, "to") then "to" else if LeadingPreposition(s, "for") then "for" else "";
    if w == "" then 0
    else
      assert forall v :: LeadingPreposition(s, v) ==> v == w;
      |w| + RunLength(s[|w|..], IsSpace)
  }

  /** Where `$` matches: the end of s, or just before a final newline. */
  function LineEnd(s: string): (e: nat)
    ensures e <= |s| && (e == |s| || (e == |s| - 1 && s[e] == '\n'))
  {
    if s != [] && s[|s| - 1] == '\n' then |s| - 1 else |s|
  }

  const CorporateSuffixes: seq<string> := ["inc", "ltd", "pvt", "india", "co", "company"]

  /** w ends s (up to `$`) and is preceded by whitespace: `\s+w$` matches. */
  predicate EndsWithSuffix(s: string, w: string) {
    var e := LineEnd(s);
    |w| < e && s[e - |w|..e] == w && IsSpace(s[e - |w| - 1])
  }

  /** The first corporate suffix, in table order, that ends s, if any. */
  function FindSuffix(s: string, words: seq<string>): (r: Option<string>)
    ensures r.None? <==> forall k :: 0 <= k < |words| ==> !EndsWithSuffix(s, words[k])
    ensures r.Some? ==> r.value in words && EndsWithSuffix(s, r.value)
  {
    if words == [] then None
    else if EndsWithSuffix(s, words[0]) then Some(words[0])
    else FindSuffix(s, words[1..])
  }

  /**
   * Where the match of `\s+(w1|w2|...)$` starts, for the alternatives in words: the whole
   * whitespace run before the suffix, or LineEnd(s) when nothing matches.
   */
  function SuffixCut(s: string, words: seq<string>): (a: nat)
    ensures a <= LineEnd(s)
    ensures a == LineEnd(s) <==> FindSuffix(s, words).None?
  {
    match FindSuffix(s, words)
    case None => LineEnd(s)
    case Some(w) => |TrimEnd(s[..LineEnd(s) - |w|])|
  }

  /**
   * The cut deletes nothing when no suffix ends s; otherwise it deletes exactly one
   * suffix word and the whole whitespace run before it.
   */
  lemma SuffixCutMatches(s: string, words: seq<string>)
    ensures SuffixCut(s, words) == LineEnd(s) <==> forall k :: 0 <= k < |words| ==> !EndsWithSuffix(s, words[k])
    ensures SuffixCut(s, words) < LineEnd(s) ==> SuffixCut(s, words) == 0 || !IsSpace(s[SuffixCut(s, words) - 1])
    ensures SuffixCut(s, words) < LineEnd(s) ==> exists w :: (w in words && EndsWithSuffix(s, w)
      && SuffixCut(s, words) < LineEnd(s) - |w|
      && forall i :: SuffixCut(s, words) <= i < LineEnd(s) - |w| ==> IsSpace(s[i]))
  {
    var f := FindSuffix(s, words);
    if f.Some? {
      SuffixCutRemoves(s, words, f.value);
    }
  }

  /** When w is the suffix found, the cut is the start of the whitespace run before w, and that run is not empty. */
  lemma SuffixCutRemoves(s: string, words: seq<string>, w: string)
    requires FindSuffix(s, words) == Some(w)
    ensures SuffixCut(s, words) == 0 || !IsSpace(s[SuffixCut(s, words) - 1])
    ensures SuffixCut(s, words) < LineEnd(s) - |w|
    ensures forall i :: SuffixCut(s, words) <= i < LineEnd(s) - |w| ==> IsSpace(s[i])
  {
    var b := LineEnd(s) - |w|;
    var t := s[..b];
    var a := |TrimEnd(t)|;
    assert SuffixCut(s, words) == a;
    assert t[b - 1] == s[b - 1];
    forall i | a <= i < b
      ensures IsSpace(s[i])
    {
      assert t[i] == s[i];
    }
    if a > 0 {
      assert TrimEnd(t)[a - 1] == t[a - 1] == s[a - 1];
    }
  }

  /** The second rewrite of `normalize_for_rules`: the matched suffix and the whitespace before it are deleted. */
  function DropTrailingSuffix(s: string): string
  {
    s[..SuffixCut(s, CorporateSuffixes)] + s[LineEnd(s)..]
  }

  /** `normalize_for_rules`: empty stays empty; otherwise one leading preposition and one trailing suffix go, then the ends are stripped. */
  function NormalizeForRules(cleaned: string): (r: string)
    ensures cleaned == [] ==> r == []
  {
    if cleaned == [] then []
    else Strip(DropTrailingSuffix(cleaned[PrepositionCut(cleaned)..]))
  }

  /** The text the rules see has no whitespace at either end. */
  lemma NormalizeStripped(cleaned: string)
    ensures NormalizeForRules(cleaned) == [] || (!IsSpace(NormalizeForRules(cleaned)[0])
      && !IsSpace(NormalizeForRules(cleaned)[|NormalizeForRules(cleaned)| - 1]))
  {
    if cleaned != [] {
      var t := DropTrailingSuffix(cleaned[PrepositionCut(cleaned)..]);
      assert NormalizeForRules(cleaned) == Strip(t);
    }
  }

  lemma SpliceTailSpaces(t: string, a: nat, e: nat)
    requires a <= e <= |t|
    requires forall i :: e <= i < |t| ==> IsSpace(t[i])
    ensures forall i :: a <= i < |t[..a] + t[e..]| ==> IsSpace((t[..a] + t[e..])[i])
  {
    var u := t[..a] + t[e..];
    forall i | a <= i < |u|
      ensures IsSpace(u[i])
    {
      assert u[i] == t[e + (i - a)];
    }
  }

  /** If u agrees with t up to a and is whitespace after it, the strip of u is a piece of t. */
  lemma StripAgreeing(u: string, t: string, a: nat)
    requires a <= |u| && a <= |t| && u[..a] == t[..a]
    requires forall i :: a <= i < |u| ==> IsSpace(u[i])
    ensures exists p: nat :: OccursAt(t, Strip(u), p)
  {
    var r := Strip(u);
    StripWithin(u, a);
    var p: nat :| p + |r| <= a && OccursAt(u[..a], r, p);
    assert t[..a][p..p + |r|] == t[p..p + |r|];
    assert OccursAt(t, r, p);
  }

  /** Deleting t[a..e] from t, when t is whitespace after e, and stripping yields a piece of t. */
  lemma StripSplice(t: string, a: nat, e: nat)
    requires a <= e <= |t|
    requires forall i :: e <= i < |t| ==> IsSpace(t[i])
    ensures exists p: nat :: OccursAt(t, Strip(t[..a] + t[e..]), p)
  {
    SpliceTailSpaces(t, a, e);
    assert (t[..a] + t[e..])[..a] == t[..a];
    StripAgreeing(t[..a] + t[e..], t, a);
  }

  /** Stripping after the suffix rewrite yields a contiguous piece of the text before it. */
  lemma StripDropSuffixWithin(t: string)
    ensures exists p: nat :: OccursAt(t, Strip(DropTrailingSuffix(t)), p)
  {
    var u := t[..SuffixCut(t, CorporateSuffixes)] + t[LineEnd(t)..];
    assert DropTrailingSuffix(t) == u;
    StripSplice(t, SuffixCut(t, CorporateSuffixes), LineEnd(t));
    var p: nat :| OccursAt(t, Strip(u), p);
    assert OccursAt(t, Strip(DropTrailingSuffix(t)), p);
  }

  lemma OccursInSuffix(s: string, k: nat, r: string, p: nat)
    requires k <= |s| && OccursAt(s[k..], r, p)
    ensures OccursAt(s, r, k + p)
  {
    assert s[k + p..k + p + |r|] == s[k..][p..p + |r|];
  }

  /** The rule text is a contiguous piece of the canonical text. */
  lemma NormalizeIsSubstring(cleaned: string)
    ensures exists p: nat :: OccursAt(cleaned, NormalizeForRules(cleaned), p)
  {
    if cleaned == [] {
      assert OccursAt(cleaned, NormalizeForRules(cleaned), 0);
    } else {
      var k := PrepositionCut(cleaned);
      var r := Strip(DropTrailingSuffix(cleaned[k..]));
      assert NormalizeForRules(cleaned) == r;
      StripDropSuffixWithin(cleaned[k..]);
      var p: nat :| OccursAt(cleaned[k..], r, p);
      OccursInSuffix(cleaned, k, r, p);
    }
  }

  /** A stripped text with no leading preposition and no trailing corporate suffix is left as it is. */
  lemma NormalizeKeeps(cleaned: string)
    requires cleaned == [] || (!IsSpace(cleaned[0]) && !IsSpace(cleaned[|cleaned| - 1]))
    requires !LeadingPreposition(cleaned, "to") && !LeadingPreposition(cleaned, "for")
    requires forall k :: 0 <= k < |CorporateSuffixes| ==> !EndsWithSuffix(cleaned, CorporateSuffixes[k])
    ensures NormalizeForRules(cleaned) == cleaned
  {
    if cleaned != [] {
      assert cleaned[0..] == cleaned;
      assert cleaned[..LineEnd(cleaned)] + cleaned[LineEnd(cleaned)..] == cleaned;
      StripStripped(cleaned);
    }
  }
}
