/**
 * The money detector of the article loop: a search for the currency
 * pattern `\$\d+(?:,\d{3})*(?:\.\d+)?|\d+(?:,\d{3})*\s*(?:dollars|USD)`
 * over the title and description joined without a separator
 * (newsCase/main.py:86-87).
 */
module Money {
  import opened Text

  // The language of the pattern, piece by piece.

  predicate AllDigits(t: string) {
    forall k :: 0 <= k < |t| ==> IsDigit(t[k])
  }

  predicate AllSpace(t: string) {
    forall k :: 0 <= k < |t| ==> IsSpace(t[k])
  }

  /** `\d+(?:,\d{3})*`: a run of digits followed by any number of comma-separated groups of three. */
  predicate GroupedNumber(t: string)
    decreases |t|
  {
    (|t| > 0 && AllDigits(t))
    || (|t| >= 5 && t[|t| - 4] == ',' && AllDigits(t[|t| - 3..]) && GroupedNumber(t[..|t| - 4]))
  }

  /** `(?:\.\d+)?`: nothing, or a point and at least one digit. */
  predicate Fraction(t: string) {
    t == [] || (t[0] == '.' && |t| >= 2 && AllDigits(t[1..]))
  }

  /** `t` is `$`, a grouped number ending before index `k`, and a fraction from `k` on. */
  predicate DollarSplit(t: string, k: nat) {
    2 <= k <= |t| && t[0] == '$' && GroupedNumber(t[1..k]) && Fraction(t[k..])
  }

  /** `\$\d+(?:,\d{3})*(?:\.\d+)?` matches all of `t`. */
  ghost predicate DollarAmount(t: string) {
    exists k: nat :: DollarSplit(t, k)
  }

  /** `t` is a grouped number before `k`, whitespace from `k` to `m`, and a unit word from `m` on. */
  predicate WordsSplit(t: string, k: nat, m: nat) {
    1 <= k <= m <= |t| && GroupedNumber(t[..k]) && AllSpace(t[k..m])
    && (t[m..] == "dollars" || t[m..] == "USD")
  }

  /** `\d+(?:,\d{3})*\s*(?:dollars|USD)` matches all of `t`. */
  ghost predicate AmountInWords(t: string) {
    exists k: nat, m: nat :: WordsSplit(t, k, m)
  }

  /** The whole currency pattern matches all of `t`. */
  ghost predicate MoneyMatch(t: string) {
    DollarAmount(t) || AmountInWords(t)
  }

  /** A search for the pattern in `s` succeeds: some substring of `s` matches it. */
  ghost predicate PatternFound(s: string) {
    exists i, j :: 0 <= i <= j <= |s| && MoneyMatch(s[i..j])
  }

  // The detector: since only whether a match exists matters, a match can
  // be found from its shortest witness at each starting position.

  /** `s` begins with one of the unit words, in exactly this letter case. */
  predicate StartsWithUnit(s: string) {
    StartsWith(s, "dollars") || StartsWith(s, "USD")
  }

  /** `s` begins with whitespace (possibly none) and then a unit word. */
  predicate UnitAfterSpaces(s: string)
    decreases |s|
  {
    StartsWithUnit(s) || (|s| > 0 && IsSpace(s[0]) && UnitAfterSpaces(s[1..]))
  }

  /** A match starts at the front of `s`: `$` then a digit, or a digit then spaces and a unit word. */
  predicate MoneyAtStart(s: string) {
    |s| >= 2
    && ((s[0] == '$' && IsDigit(s[1])) || (IsDigit(s[0]) && UnitAfterSpaces(s[1..])))
  }

  /** `bool(re.search(money_pattern, s))`. */
  function ContainsMoney(s: string): bool
    decreases |s|
  {
    |s| > 0 && (MoneyAtStart(s) || ContainsMoney(s[1..]))
  }

  // ContainsMoney is exactly the pattern search.

  /** A front match starts at index `i` of `s`. */
  predicate MoneyAt(s: string, i: nat) {
    i < |s| && MoneyAtStart(s[i..])
  }

  lemma ContainsMoneyAt(s: string)
    ensures ContainsMoney(s) <==> exists i: nat :: MoneyAt(s, i)
  {
    if ContainsMoney(s) {
      MoneyFoundAt(s);
    }
    if i: nat :| MoneyAt(s, i) {
      MoneyAtStartFound(s, i);
    }
  }

  /** When the detector answers true, a front match starts at some index. */
  lemma {:induction false} MoneyFoundAt(s: string)
    requires ContainsMoney(s)
    ensures exists i: nat :: MoneyAt(s, i)
    decreases |s|
  {
    if MoneyAtStart(s) {
      assert s[0..] == s;
      assert MoneyAt(s, 0);
    } else {
      MoneyFoundAt(s[1..]);
      var i: nat :| MoneyAt(s[1..], i);
      assert s[1..][i..] == s[i + 1..];
      assert MoneyAt(s, i + 1);
    }
  }

  /** A grouped number begins and ends with a digit. */
  lemma {:induction false} GroupedNumberEnds(t: string)
    requires GroupedNumber(t)
    ensures |t| > 0 && IsDigit(t[0]) && IsDigit(t[|t| - 1])
    decreases |t|
  {
    if !(|t| > 0 && AllDigits(t)) {
      GroupedNumberEnds(t[..|t| - 4]);
      assert t[|t| - 1] == t[|t| - 3..][2];
    }
  }

  /** Spaces from index `a` up to `b`, then a unit word at `b`: a front match of unit after spaces at `a`. */
  lemma {:induction false} SpacesThenUnit(s: string, a: nat, b: nat)
    requires a <= b <= |s| && (forall q :: a <= q < b ==> IsSpace(s[q])) && StartsWithUnit(s[b..])
    ensures UnitAfterSpaces(s[a..])
    decreases b - a
  {
    if a < b {
      SpacesThenUnit(s, a + 1, b);
      assert s[a..][1..] == s[a + 1..];
      assert s[a..][0] == s[a];
    }
  }

  /** `s` has whitespace before index `m` and a unit word from `m` on. */
  predicate SpacedUnit(s: string, m: nat) {
    m <= |s| && (forall q :: 0 <= q < m ==> IsSpace(s[q])) && StartsWithUnit(s[m..])
  }

  /** Unit after spaces at the front of `s`: where the spaces end. */
  lemma {:induction false} UnitAfterSpacesWitness(s: string)
    requires UnitAfterSpaces(s)
    ensures exists m: nat :: SpacedUnit(s, m)
    decreases |s|
  {
    if StartsWithUnit(s) {
      assert s[0..] == s;
      assert SpacedUnit(s, 0);
    } else {
      UnitAfterSpacesWitness(s[1..]);
      var m: nat :| SpacedUnit(s[1..], m);
      assert s[1..][m..] == s[m + 1..];
      assert forall q :: 0 < q < m + 1 ==> s[q] == s[1..][q - 1];
      assert SpacedUnit(s, m + 1);
    }
  }

  /** A match found by the detector is a match of the pattern. */
  lemma MoneyAtStartMatches(s: string)
    requires MoneyAtStart(s)
    ensures exists j :: 0 <= j <= |s| && MoneyMatch(s[..j])
  {
    if s[0] == '$' && IsDigit(s[1]) {
      var t := s[..2];
      assert GroupedNumber(t[1..2]) && Fraction(t[2..]);
      assert DollarSplit(t, 2);
    } else {
      var u := s[1..];
      UnitAfterSpacesWitness(u);
      var m: nat :| SpacedUnit(u, m);
      var w := if StartsWith(u[m..], "dollars") then "dollars" else "USD";
      assert u[m..][..|w|] == w;
      var t := s[..m + 1 + |w|];
      WordsCut(s, m, w);
      assert WordsSplit(t, 1, m + 1);
    }
  }

  /** The pieces of `s[..m + 1 + |w|]` when a digit is followed by `m` spaces and the unit `w`. */
  lemma WordsCut(s: string, m: nat, w: string)
    requires 1 + m + |w| <= |s| && IsDigit(s[0])
    requires forall q :: 0 <= q < m ==> IsSpace(s[1..][q])
    requires s[1..][m..][..|w|] == w
    ensures var t := s[..m + 1 + |w|];
      GroupedNumber(t[..1]) && AllSpace(t[1..m + 1]) && t[m + 1..] == w
  {
    var t := s[..m + 1 + |w|];
    assert t[..1] == [s[0]];
    assert AllSpace(s[1..][..m]);
    assert t[1..m + 1] == s[1..][..m];
    assert t[m + 1..] == s[1..][m..][..|w|];
  }

  /** A digit, spaces and a unit word, by position in `s`, are a front match at the digit. */
  lemma DigitSpacesUnit(s: string, d: nat, m: nat, w: string)
    requires d < m <= |s| && IsDigit(s[d]) && (forall q :: d < q < m ==> IsSpace(s[q]))
    requires (w == "dollars" || w == "USD") && StartsWith(s[m..], w)
    ensures MoneyAt(s, d)
  {
    SpacesThenUnit(s, d + 1, m);
    assert s[d..][1..] == s[d + 1..];
  }

  /** The amount in words `s[i..j]` ends its number with a digit that starts a front match. */
  lemma AmountInWordsFound(s: string, i: nat, j: nat)
    requires i <= j <= |s| && AmountInWords(s[i..j])
    ensures exists h: nat :: MoneyAt(s, h)
  {
    var t := s[i..j];
    var k: nat, m: nat :| WordsSplit(t, k, m);
    GroupedNumberEnds(t[..k]);
    assert IsDigit(s[i + k - 1]) by {
      assert t[..k][k - 1] == s[i + k - 1];
    }
    SpacesInSlice(s, i, j, k, m);
    var w := t[m..];
    assert s[i + m..][..|w|] == w;
    DigitSpacesUnit(s, i + k - 1, i + m, w);
  }

  /** Whitespace at `k..m` of the slice `s[i..j]` is whitespace at `i + k..i + m` of `s`. */
  lemma SpacesInSlice(s: string, i: nat, j: nat, k: nat, m: nat)
    requires i <= j <= |s| && k <= m <= j - i && AllSpace(s[i..j][k..m])
    ensures forall q :: i + k <= q < i + m ==> IsSpace(s[q])
  {
    forall q | i + k <= q < i + m
      ensures IsSpace(s[q])
    {
      assert s[i..j][k..m][q - i - k] == s[q];
    }
  }

  /** A match of the pattern gives the detector a front match inside it. */
  lemma MoneyMatchFound(s: string, i: nat, j: nat)
    requires i <= j <= |s| && MoneyMatch(s[i..j])
    ensures exists h: nat :: MoneyAt(s, h)
  {
    var t := s[i..j];
    if DollarAmount(t) {
      var k: nat :| DollarSplit(t, k);
      GroupedNumberEnds(t[1..k]);
      assert s[i..][0] == '$' && s[i..][1] == t[1..k][0];
      assert MoneyAt(s, i);
    } else {
      AmountInWordsFound(s, i, j);
    }
  }

  /** The detector answers exactly whether the pattern search succeeds. */
  lemma ContainsMoneyIsPatternSearch(s: string)
    ensures ContainsMoney(s) <==> PatternFound(s)
  {
    ContainsMoneyAt(s);
    if ContainsMoney(s) {
      var h: nat :| MoneyAt(s, h);
      MoneyAtStartMatches(s[h..]);
      var j :| 0 <= j <= |s[h..]| && MoneyMatch(s[h..][..j]);
      assert s[h..][..j] == s[h..h + j];
    }
    if PatternFound(s) {
      var i, j :| 0 <= i <= j <= |s| && MoneyMatch(s[i..j]);
      MoneyMatchFound(s, i, j);
    }
  }

  /** Text without any digit never mentions money. */
  lemma {:induction false} NoDigitNoMoney(s: string)
    requires forall k :: 0 <= k < |s| ==> !IsDigit(s[k])
    ensures !ContainsMoney(s)
    decreases |s|
  {
    if |s| > 0 {
      NoDigitNoMoney(s[1..]);
      if |s| >= 2 {
        assert !IsDigit(s[1]) && !IsDigit(s[0]);
      }
    }
  }

  /** A front match at any position is found by the detector. */
  lemma {:induction false} MoneyAtStartFound(s: string, i: nat)
    requires i < |s| && MoneyAtStart(s[i..])
    ensures ContainsMoney(s)
    decreases i
  {
    if i > 0 {
      assert s[1..][i - 1..] == s[i..];
      MoneyAtStartFound(s[1..], i - 1);
    }
  }

  lemma DollarSignExample()
    ensures ContainsMoney("Tickets cost $1,250.00")
  {
    var a := "Tickets cost $1,250.00";
    assert a[13] == '$' && a[14] == '1';
    MoneyAtStartFound(a, 13);
  }

  lemma UnitWordExample()
    ensures ContainsMoney("50 dollars refunded")
  {
    var b := "50 dollars refunded";
    assert b[3..][..7] == "dollars";
    assert UnitAfterSpaces(b[3..]);
    assert b[2..][1..] == b[3..] && IsSpace(b[2]);
    assert UnitAfterSpaces(b[2..]);
    assert b[1..][1..] == b[2..];
    MoneyAtStartFound(b, 1);
  }

  lemma NoSpaceExample()
    ensures ContainsMoney("Fee: 5USD")
  {
    var c := "Fee: 5USD";
    assert c[6..][..3] == "USD";
    assert c[5..][1..] == c[6..];
    MoneyAtStartFound(c, 5);
  }

  lemma NoPricingExample()
    ensures !ContainsMoney("no pricing info")
  {
    NoDigitNoMoney("no pricing info");
  }

  /** Text that starts with neither whitespace nor the first letter of a unit word has no unit after spaces. */
  lemma NoUnitAfterSpaces(s: string)
    requires |s| > 0 && !IsSpace(s[0]) && s[0] != 'd' && s[0] != 'U'
    ensures !UnitAfterSpaces(s)
  {
    assert !StartsWith(s, "dollars") by {
      if 7 <= |s| { assert s[..7][0] == s[0]; }
    }
    assert !StartsWith(s, "USD") by {
      if 3 <= |s| { assert s[..3][0] == s[0]; }
    }
  }

  /** The unit words are matched in their exact letter case. */
  lemma CaseSensitiveExample()
    ensures !ContainsMoney("50 Dollars")
  {
    var d := "50 Dollars";
    NoDigitNoMoney(d[2..]);
    NoUnitAfterSpaces(d[3..]);
    assert d[2..][1..] == d[3..];
    assert !UnitAfterSpaces(d[2..]);
    NoUnitAfterSpaces(d[1..]);
    assert !MoneyAtStart(d[1..]) && !MoneyAtStart(d);
  }

  /** Joining title and description can create a match that neither has alone. */
  lemma MatchAcrossBoundary()
    ensures ContainsMoney("Prize of $" + "5 million")
    ensures !ContainsMoney("Prize of $") && !ContainsMoney("5 million")
  {
    var s := "Prize of $" + "5 million";
    assert s[9] == '$' && s[10] == '5';
    MoneyAtStartFound(s, 9);
    NoDigitNoMoney("Prize of $");
    NoMoneyInMillion();
  }

  lemma NoMoneyInMillion()
    ensures !ContainsMoney("5 million")
  {
    var d := "5 million";
    NoDigitNoMoney(d[1..]);
    NoUnitAfterSpaces(d[2..]);
    assert d[1..][1..] == d[2..];
    assert !UnitAfterSpaces(d[1..]);
    assert !MoneyAtStart(d);
  }
}
