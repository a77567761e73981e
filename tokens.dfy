/**
 * Left-to-right scanners standing in for the three `re.findall` calls of
 * the matching engine:
 *   `\b\d{8,10}\b`          -> BareTokens
 *   `\b(\d{3})-(\d{5})\b`   -> DashTokens(s, 3, 5)
 *   `\b(\d{2})-(\d{6})\b`   -> DashTokens(s, 2, 6)
 * Each scanner tries a match at position i; on success it emits the match
 * and resumes right after it, otherwise it moves on to i + 1, as findall does.
 */
module Tokens {
  import opened Text

  /** `\b` before a digit at i: i is the start of the text or follows a non-word character. */
  predicate StartsToken(s: string, i: int)
    requires 0 <= i <= |s|
  {
    i == 0 || !IsWordChar(s[i - 1])
  }

  /** `\b` after a digit that ends at j: j is the end of the text or a non-word character follows. */
  predicate EndsToken(s: string, j: int)
    requires 0 <= j <= |s|
  {
    j == |s| || !IsWordChar(s[j])
  }

  /** `\b(\d{a})-(\d{b})\b` matches at position i. */
  predicate DashAt(s: string, i: nat, a: nat, b: nat) {
    && i + a + 1 + b <= |s|
    && StartsToken(s, i)
    && AllDigits(s[i..i + a])
    && s[i + a] == '-'
    && AllDigits(s[i + a + 1..i + a + 1 + b])
    && EndsToken(s, i + a + 1 + b)
  }

  /** The group pairs `re.findall` returns for `\b(\d{a})-(\d{b})\b`, scanning from i. */
  function DashFrom(s: string, i: nat, a: nat, b: nat): (pairs: seq<(string, string)>)
    requires i <= |s|
    decreases |s| - i
    ensures forall p :: p in pairs ==> |p.0| == a && |p.1| == b && AllDigits(p.0) && AllDigits(p.1)
  {
    if i == |s| then []
    else if DashAt(s, i, a, b) then
      [(s[i..i + a], s[i + a + 1..i + a + 1 + b])] + DashFrom(s, i + a + 1 + b, a, b)
    else DashFrom(s, i + 1, a, b)
  }

  function DashTokens(s: string, a: nat, b: nat): (pairs: seq<(string, string)>)
    ensures forall p :: p in pairs ==> |p.0| == a && |p.1| == b && AllDigits(p.0) && AllDigits(p.1)
  {
    DashFrom(s, 0, a, b)
  }

  /** `\b\d{k}\b` matches at position i. */
  predicate DigitsAt(s: string, i: nat, k: nat) {
    i + k <= |s| && StartsToken(s, i) && AllDigits(s[i..i + k]) && EndsToken(s, i + k)
  }

  /** The length `\d{8,10}` takes at i: greedy, backing off from 10 to 8; 0 when nothing matches. */
  function BareLengthAt(s: string, i: nat): (k: nat)
    ensures k == 0 || (8 <= k <= 10 && DigitsAt(s, i, k))
  {
    if DigitsAt(s, i, 10) then 10
    else if DigitsAt(s, i, 9) then 9
    else if DigitsAt(s, i, 8) then 8
    else 0
  }

  /** The strings `re.findall(r'\b\d{8,10}\b', s)` returns, scanning from i. */
  function BareFrom(s: string, i: nat): (numbers: seq<string>)
    requires i <= |s|
    decreases |s| - i
  {
    if i == |s| then []
    else
      var k := BareLengthAt(s, i);
      if k > 0 then [s[i..i + k]] + BareFrom(s, i + k) else BareFrom(s, i + 1)
  }

  /** Where the scan at i resumes: after the match at i, or at i + 1 when none starts there. */
  function NextScan(s: string, i: nat): (j: nat)
    requires i < |s|
    ensures i < j <= |s|
  {
    var k := BareLengthAt(s, i);
    if k > 0 then i + k else i + 1
  }

  /** Every number the scan extracts from i on has 8 to 10 characters, all digits. */
  lemma {:induction false} BareFromShape(s: string, i: nat)
    requires i <= |s|
    ensures forall t :: t in BareFrom(s, i) ==> 8 <= |t| <= 10 && AllDigits(t)
    decreases |s| - i
  {
    if i < |s| {
      BareFromShape(s, NextScan(s, i));
      forall t | t in BareFrom(s, i)
        ensures 8 <= |t| <= 10 && AllDigits(t)
      {
        BareFromMember(s, i, t);
      }
    }
  }

  /** What the scan extracts from i is the match at i, if any, or something it extracts from where it resumes. */
  lemma BareFromMember(s: string, i: nat, t: string)
    requires i < |s| && t in BareFrom(s, i)
    ensures t in BareFrom(s, NextScan(s, i)) || (8 <= |t| <= 10 && AllDigits(t))
  {
    var k := BareLengthAt(s, i);
    if k > 0 && t == s[i..i + k] {
      assert DigitsAt(s, i, k);
    }
  }

  function BareTokens(s: string): (numbers: seq<string>)
    ensures forall t :: t in numbers ==> 8 <= |t| <= 10 && AllDigits(t)
  {
    BareFromShape(s, 0);
    BareFrom(s, 0)
  }

  /** `t` stands in `s` as a whole run of digits delimited by `\b` on both sides. */
  ghost predicate StandsAlone(s: string, t: string) {
    exists p :: 0 <= p && p + |t| <= |s| && s[p..p + |t|] == t && StartsToken(s, p) && EndsToken(s, p + |t|)
  }

  /** Every extracted number occurs in the text as a digit run with word boundaries on both sides. */
  lemma {:induction false} BareTokenStandsAlone(s: string, i: nat, t: string)
    requires i <= |s| && t in BareFrom(s, i)
    ensures StandsAlone(s, t)
    decreases |s| - i
  {
    var k := BareLengthAt(s, i);
    if k > 0 && t == s[i..i + k] {
      assert s[i..i + |t|] == t;
    } else if k > 0 {
      BareTokenStandsAlone(s, i + k, t);
    } else {
      BareTokenStandsAlone(s, i + 1, t);
    }
  }

  /** A `\b`-bounded run of k digits admits no other length: `\d{8,10}` takes exactly k at p. */
  lemma BareLengthOfRun(s: string, p: nat, k: nat)
    requires 8 <= k <= 10 && DigitsAt(s, p, k)
    ensures BareLengthAt(s, p) == k
  {
    forall k' | 8 <= k' <= 10 && k' != k
      ensures !DigitsAt(s, p, k')
    {
      if k' < k {
        assert s[p..p + k][k'] == s[p + k'];
      } else if p + k' <= |s| {
        assert s[p..p + k'][k] == s[p + k];
      }
    }
  }

  /** A match that starts before a `\b`-bounded digit run ends at or before it: it cannot swallow the run's start. */
  lemma BareMatchEndsBefore(s: string, i: nat, p: nat, k: nat)
    requires i < p && 8 <= k <= 10 && DigitsAt(s, p, k)
    requires BareLengthAt(s, i) > 0
    ensures i + BareLengthAt(s, i) <= p
  {
    var k' := BareLengthAt(s, i);
    assert !IsWordChar(s[p - 1]);
    forall j | i <= j < i + k'
      ensures IsDigit(s[j])
    {
      assert s[i..i + k'][j - i] == s[j];
    }
  }

  /**
   * Every 8-10 digit run with a word boundary on both sides, starting at or
   * after i, is extracted: no earlier match can overlap it, so the scan
   * reaches its first digit and takes exactly its length.
   */
  lemma {:induction false} BareFromComplete(s: string, i: nat, p: nat, k: nat)
    requires i <= p && 8 <= k <= 10 && DigitsAt(s, p, k)
    ensures s[p..p + k] in BareFrom(s, i)
    decreases p - i
  {
    if i == p {
      BareFromAtRun(s, p, k);
    } else {
      NextScanBefore(s, i, p, k);
      BareFromComplete(s, NextScan(s, i), p, k);
      BareFromKeepsNext(s, i, s[p..p + k]);
    }
  }

  /** The scan from i extracts whatever it extracts from where it resumes. */
  lemma BareFromKeepsNext(s: string, i: nat, t: string)
    requires i < |s| && t in BareFrom(s, NextScan(s, i))
    ensures t in BareFrom(s, i)
  {
  }

  /** The scan at i, before a `\b`-bounded run at p, never resumes past p. */
  lemma NextScanBefore(s: string, i: nat, p: nat, k: nat)
    requires i < p && 8 <= k <= 10 && DigitsAt(s, p, k)
    ensures NextScan(s, i) <= p
  {
    if BareLengthAt(s, i) > 0 {
      BareMatchEndsBefore(s, i, p, k);
    }
  }

  /** `re.findall(r'\b\d{8,10}\b', s)` returns every `\b`-bounded run of 8 to 10 digits of s. */
  lemma BareTokensComplete(s: string, p: nat, k: nat)
    requires 8 <= k <= 10 && DigitsAt(s, p, k)
    ensures s[p..p + k] in BareTokens(s)
  {
    BareFromComplete(s, 0, p, k);
  }

  /** `re.findall(r'\b\d{8,10}\b', s)` returns exactly the `\b`-bounded runs of 8 to 10 digits of s. */
  lemma BareTokensExact(s: string, t: string)
    ensures t in BareTokens(s) <==> 8 <= |t| <= 10 && exists p: nat :: DigitsAt(s, p, |t|) && s[p..p + |t|] == t
  {
    if t in BareTokens(s) {
      BareTokenStandsAlone(s, 0, t);
      var p: nat :| p + |t| <= |s| && s[p..p + |t|] == t && StartsToken(s, p) && EndsToken(s, p + |t|);
      assert DigitsAt(s, p, |t|);
    }
    if 8 <= |t| <= 10 && exists p: nat :: DigitsAt(s, p, |t|) && s[p..p + |t|] == t {
      var p: nat :| DigitsAt(s, p, |t|) && s[p..p + |t|] == t;
      BareTokensComplete(s, p, |t|);
    }
  }

  /** Where no match starts in [i, p), the scan from i reaches p with nothing extracted. */
  lemma {:induction false} BareFromSkipTo(s: string, i: nat, p: nat)
    requires i <= p <= |s|
    requires forall q :: i <= q < p ==> BareLengthAt(s, q) == 0
    ensures BareFrom(s, i) == BareFrom(s, p)
    decreases p - i
  {
    if i < p {
      BareFromSkipTo(s, i + 1, p);
    }
  }

  /**
   * `findall` returns its matches in text order: when no match starts in
   * [i, p) and a k-digit run with word boundaries starts at p, the list
   * starts with that run and goes on with the matches after it.
   */
  lemma BareFromLeftmost(s: string, i: nat, p: nat, k: nat)
    requires i <= p && 8 <= k <= 10 && DigitsAt(s, p, k)
    requires forall q, k' :: i <= q < p && 8 <= k' <= 10 ==> !DigitsAt(s, q, k')
    ensures BareFrom(s, i) == [s[p..p + k]] + BareFrom(s, p + k)
  {
    forall q | i <= q < p
      ensures BareLengthAt(s, q) == 0
    {
      assert !DigitsAt(s, q, 10) && !DigitsAt(s, q, 9) && !DigitsAt(s, q, 8);
    }
    BareFromSkipTo(s, i, p);
    BareFromAtRun(s, p, k);
  }

  /** At the start of a `\b`-bounded run of 8 to 10 digits the scan extracts the whole run and resumes after it. */
  lemma BareFromAtRun(s: string, p: nat, k: nat)
    requires 8 <= k <= 10 && DigitsAt(s, p, k)
    ensures BareFrom(s, p) == [s[p..p + k]] + BareFrom(s, p + k)
  {
    BareLengthOfRun(s, p, k);
  }

  /** Every extracted pair is the two groups of a match of the dash pattern at some position at or after i. */
  lemma {:induction false} DashFromSound(s: string, i: nat, a: nat, b: nat, pair: (string, string))
    requires i <= |s| && pair in DashFrom(s, i, a, b)
    ensures exists q: nat :: i <= q && DashAt(s, q, a, b) && pair == (s[q..q + a], s[q + a + 1..q + a + 1 + b])
    decreases |s| - i
  {
    if DashAt(s, i, a, b) && pair == (s[i..i + a], s[i + a + 1..i + a + 1 + b]) {
    } else if DashAt(s, i, a, b) {
      DashFromSound(s, i + a + 1 + b, a, b, pair);
    } else {
      DashFromSound(s, i + 1, a, b, pair);
    }
  }

  /**
   * When the second group is longer than the first (3+5 and 2+6 both are),
   * two matches of the dash pattern never overlap: a match cannot start
   * inside an earlier one, not even right after its '-'.
   */
  lemma DashMatchEndsBefore(s: string, i: nat, q: nat, a: nat, b: nat)
    requires i < q && a < b && DashAt(s, i, a, b) && DashAt(s, q, a, b)
    ensures i + a + 1 + b <= q
  {
    var e := i + a + 1 + b;
    assert !IsWordChar(s[q - 1]) && s[q + a] == '-';
    forall j | i <= j < i + a
      ensures IsDigit(s[j])
    {
      assert s[i..i + a][j - i] == s[j];
    }
    forall j | i + a + 1 <= j < e
      ensures IsDigit(s[j])
    {
      assert s[i + a + 1..e][j - (i + a + 1)] == s[j];
    }
  }

  /** Every match of the dash pattern at or after i is extracted, when the second group is the longer. */
  lemma {:induction false} DashFromComplete(s: string, i: nat, q: nat, a: nat, b: nat)
    requires i <= q && a < b && DashAt(s, q, a, b)
    ensures (s[q..q + a], s[q + a + 1..q + a + 1 + b]) in DashFrom(s, i, a, b)
    decreases q - i
  {
    if i < q {
      if DashAt(s, i, a, b) {
        DashMatchEndsBefore(s, i, q, a, b);
        DashFromComplete(s, i + a + 1 + b, q, a, b);
      } else {
        DashFromComplete(s, i + 1, q, a, b);
      }
    }
  }

  /**
   * For both layouts the engine uses, `re.findall` returns exactly the group
   * pairs of the positions where the dash pattern matches.
   */
  lemma DashTokensExact(s: string, a: nat, b: nat, pair: (string, string))
    requires (a == 3 && b == 5) || (a == 2 && b == 6)
    ensures pair in DashTokens(s, a, b) <==>
      exists q: nat :: DashAt(s, q, a, b) && pair == (s[q..q + a], s[q + a + 1..q + a + 1 + b])
  {
    if pair in DashTokens(s, a, b) {
      DashFromSound(s, 0, a, b, pair);
    }
    if exists q: nat :: DashAt(s, q, a, b) && pair == (s[q..q + a], s[q + a + 1..q + a + 1 + b]) {
      var q: nat :| DashAt(s, q, a, b) && pair == (s[q..q + a], s[q + a + 1..q + a + 1 + b]);
      DashFromComplete(s, 0, q, a, b);
    }
  }

  /**
   * The dash matches come in text order: when the leftmost match at or after
   * i is at q, the list starts with its pair and goes on with the matches
   * after it.
   */
  lemma {:induction false} DashFromLeftmost(s: string, i: nat, q: nat, a: nat, b: nat)
    requires i <= q && DashAt(s, q, a, b)
    requires forall p :: i <= p < q ==> !DashAt(s, p, a, b)
    ensures DashFrom(s, i, a, b) == [(s[q..q + a], s[q + a + 1..q + a + 1 + b])] + DashFrom(s, q + a + 1 + b, a, b)
    decreases q - i
  {
    if i < q {
      DashFromLeftmost(s, i + 1, q, a, b);
    }
  }

  /** Where no dash pattern matches from i on, nothing is extracted. */
  lemma {:induction false} NoDashAtNoPairs(s: string, i: nat, a: nat, b: nat)
    requires i <= |s|
    requires forall p :: i <= p < |s| ==> !DashAt(s, p, a, b)
    ensures DashFrom(s, i, a, b) == []
    decreases |s| - i
  {
    if i < |s| {
      NoDashAtNoPairs(s, i + 1, a, b);
    }
  }

  /** Where no bare pattern matches from i on, nothing is extracted. */
  lemma {:induction false} NoDigitsAtNoNumbers(s: string, i: nat)
    requires i <= |s|
    requires forall p, k :: i <= p < |s| && 8 <= k <= 10 ==> !DigitsAt(s, p, k)
    ensures BareFrom(s, i) == []
    decreases |s| - i
  {
    if i < |s| {
      NoDigitsAtNoNumbers(s, i + 1);
    }
  }

  /** A text of 8 to 10 digits and nothing else is extracted as one number, itself. */
  lemma WholeTextNumber(s: string)
    requires 8 <= |s| <= 10 && AllDigits(s)
    ensures BareTokens(s) == [s]
  {
    assert s[0..|s|] == s;
    assert DigitsAt(s, 0, |s|);
    assert BareLengthAt(s, 0) == |s|;
    assert BareFrom(s, |s|) == [];
  }

  /** A text without '-' holds no dash-separated code. */
  lemma NoHyphenNoPairs(s: string, a: nat, b: nat)
    requires forall p :: 0 <= p < |s| ==> s[p] != '-'
    ensures DashTokens(s, a, b) == []
  {
    NoDashAtNoPairs(s, 0, a, b);
  }

  /** A text that is exactly `x-y`, with |x| = a and |y| = b digits, is extracted as the one pair (x, y). */
  lemma WholeTextPair(x: string, y: string, a: nat, b: nat)
    requires |x| == a && |y| == b && AllDigits(x) && AllDigits(y)
    ensures DashTokens(x + "-" + y, a, b) == [(x, y)]
  {
    var s := x + "-" + y;
    assert s[0..a] == x && s[a + 1..a + 1 + b] == y;
    assert DashAt(s, 0, a, b);
    assert DashFrom(s, a + 1 + b, a, b) == [];
  }

  /** A text that is exactly `x-y` holds no bare number: every run of digits in it is too short or contains '-'. */
  lemma PairTextNoNumbers(x: string, y: string)
    requires |x| + |y| == 8 && 1 <= |x| && 1 <= |y| && AllDigits(x) && AllDigits(y)
    ensures BareTokens(x + "-" + y) == []
  {
    var s := x + "-" + y;
    forall p, k | 0 <= p < |s| && 8 <= k <= 10
      ensures !DigitsAt(s, p, k)
    {
      if p + k <= |s| {
        assert s[p..p + k][|x| - p] == '-';
      }
    }
    NoDigitsAtNoNumbers(s, 0);
  }

  /** A text that is exactly `x-y` with |x| = a holds no pair of the other layout (c, 8 - c), c != a. */
  lemma PairTextOtherLayout(x: string, y: string, c: nat)
    requires |x| + |y| == 8 && AllDigits(x) && AllDigits(y) && c != |x| && c <= 8
    ensures DashTokens(x + "-" + y, c, 8 - c) == []
  {
    var s := x + "-" + y;
    var d := 8 - c;
    forall p | 0 <= p < |s|
      ensures !DashAt(s, p, c, d)
    {
      if p + c + 1 + d <= |s| {
        assert p == 0;
        if c < |x| {
          assert IsDigit(x[c]) && s[c] == x[c];
        } else {
          assert s[c] == y[c - |x| - 1];
        }
      }
    }
    NoDashAtNoPairs(s, 0, c, d);
  }
}
