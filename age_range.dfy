/** The age-range pattern of the recommendation filter: the first match of
    the regular expression `(\d+)-(\d+)` in an age-limit text such as
    "15-18 лет", as `String.prototype.match` returns it (both capture groups). */
module AgeRange {
  import opened JsValues

  /** `(\d+)-(\d+)` matches `s` at index `i` with capture groups `g1` and
      `g2`. Both groups are greedy: `g1` runs up to the hyphen and `g2` up to
      a non-digit or the end of `s`. */
  predicate Matches(s: string, i: int, g1: string, g2: string) {
    var j := i + |g1|;
    var k := j + 1 + |g2|;
    && 0 <= i && k <= |s| && |g1| > 0 && |g2| > 0
    && AllDecimal(g1) && AllDecimal(g2)
    && s[i..j] == g1 && s[j] == '-' && s[j + 1..k] == g2
    && (k == |s| || !IsDecimalDigit(s[k]))
  }

  /** The match starting at `i` is the leftmost one. */
  ghost predicate IsFirstMatch(s: string, i: int, g1: string, g2: string) {
    Matches(s, i, g1, g2) && forall i', a, b :: 0 <= i' < i ==> !Matches(s, i', a, b)
  }

  /** The attempt of the regular expression at index `i`: the longest digit
      run from `i`, a hyphen, and the longest non-empty digit run after it. */
  function MatchAt(s: string, i: nat): Option<(string, string)>
    requires i <= |s|
  {
    var j := i + DigitRun(s[i..], 10);
    if j == i || j == |s| || s[j] != '-' then None
    else
      var k := j + 1 + DigitRun(s[j + 1..], 10);
      if k == j + 1 then None else Some((s[i..j], s[j + 1..k]))
  }

  /** The first successful attempt at index `i` or later. */
  function FirstFrom(s: string, i: nat): Option<(string, string)>
    requires i <= |s|
    decreases |s| - i
  {
    if i == |s| then None
    else match MatchAt(s, i)
      case Some(groups) => Some(groups)
      case None => FirstFrom(s, i + 1)
  }

  /** `s.match(/(\d+)-(\d+)/)`: the two capture groups of the first match. */
  function FirstRangeMatch(s: string): Option<(string, string)> {
    FirstFrom(s, 0)
  }

  /** A successful attempt at `i` is a match at `i`. */
  lemma MatchAtSound(s: string, i: nat)
    requires i <= |s| && MatchAt(s, i).Some?
    ensures Matches(s, i, MatchAt(s, i).value.0, MatchAt(s, i).value.1)
  {
    var j := i + DigitRun(s[i..], 10);
    var k := j + 1 + DigitRun(s[j + 1..], 10);
    var g1, g2 := s[i..j], s[j + 1..k];
    assert MatchAt(s, i).value == (g1, g2);
    assert forall t :: 0 <= t < |g1| ==> g1[t] == s[i..][t];
    assert forall t :: 0 <= t < |g2| ==> g2[t] == s[j + 1..][t];
    assert k < |s| ==> s[k] == s[j + 1..][k - j - 1];
  }

  /** A run of decimal digits at `i`, followed by a non-digit or the end,
      is the digit run the attempt reads there. */
  lemma DigitRunAt(s: string, i: nat, g: string)
    requires i + |g| <= |s| && s[i..i + |g|] == g && AllDecimal(g)
    requires i + |g| == |s| || !IsDecimalDigit(s[i + |g|])
    ensures DigitRun(s[i..], 10) == |g|
  {
    var rest := s[i + |g|..];
    assert s[i..] == g + rest;
    assert rest != [] ==> rest[0] == s[i + |g|];
    DigitRunOfDecimal(g, rest);
  }

  /** The attempt at `i` when the digit runs there are `g1` and, after a
      hyphen, `g2`, both non-empty. */
  lemma MatchAtRuns(s: string, i: nat, g1: string, g2: string)
    requires |g1| > 0 && |g2| > 0 && i + |g1| + 1 + |g2| <= |s|
    requires s[i..i + |g1|] == g1 && s[i + |g1|] == '-'
    requires s[i + |g1| + 1..i + |g1| + 1 + |g2|] == g2
    requires DigitRun(s[i..], 10) == |g1| && DigitRun(s[i + |g1| + 1..], 10) == |g2|
    ensures MatchAt(s, i) == Some((g1, g2))
  {
  }

  /** A match at `i` is what the attempt at `i` returns. */
  lemma MatchAtComplete(s: string, i: nat, g1: string, g2: string)
    requires i <= |s| && Matches(s, i, g1, g2)
    ensures MatchAt(s, i) == Some((g1, g2))
  {
    DigitRunAt(s, i, g1);
    DigitRunAt(s, i + |g1| + 1, g2);
    MatchAtRuns(s, i, g1, g2);
  }

  /** The attempt at `i` succeeds exactly with the groups of a match at `i`. */
  lemma MatchAtSpec(s: string, i: nat)
    requires i <= |s|
    ensures MatchAt(s, i).Some? ==> Matches(s, i, MatchAt(s, i).value.0, MatchAt(s, i).value.1)
    ensures forall g1, g2 :: Matches(s, i, g1, g2) ==> MatchAt(s, i) == Some((g1, g2))
  {
    if MatchAt(s, i).Some? {
      MatchAtSound(s, i);
    }
    forall g1, g2 | Matches(s, i, g1, g2) ensures MatchAt(s, i) == Some((g1, g2)) {
      MatchAtComplete(s, i, g1, g2);
    }
  }

  lemma {:induction false} FirstFromSpec(s: string, i: nat)
    requires i <= |s|
    ensures FirstFrom(s, i).None? ==> forall i', a, b :: i <= i' ==> !Matches(s, i', a, b)
    ensures FirstFrom(s, i).Some? ==>
      exists m :: i <= m && Matches(s, m, FirstFrom(s, i).value.0, FirstFrom(s, i).value.1)
        && forall i', a, b :: i <= i' < m ==> !Matches(s, i', a, b)
    decreases |s| - i
  {
    if i == |s| {
      forall i', a, b | i <= i' ensures !Matches(s, i', a, b) { }
    } else {
      MatchAtSpec(s, i);
      if MatchAt(s, i).None? {
        FirstFromSpec(s, i + 1);
        if FirstFrom(s, i).Some? {
          var m :| i + 1 <= m && Matches(s, m, FirstFrom(s, i).value.0, FirstFrom(s, i).value.1)
            && forall i', a, b :: i + 1 <= i' < m ==> !Matches(s, i', a, b);
          assert i <= m;
        }
      } else {
        assert Matches(s, i, FirstFrom(s, i).value.0, FirstFrom(s, i).value.1);
      }
    }
  }

  /** The model of `match` against the regular expression's definition: no
      result exactly when nothing matches; otherwise the groups of the
      leftmost match, and the leftmost match always gives the result. */
  lemma FirstRangeMatchSpec(s: string)
    ensures FirstRangeMatch(s).None? <==> forall i, a, b :: !Matches(s, i, a, b)
    ensures FirstRangeMatch(s).Some? ==>
      exists i :: IsFirstMatch(s, i, FirstRangeMatch(s).value.0, FirstRangeMatch(s).value.1)
    ensures forall i, a, b :: IsFirstMatch(s, i, a, b) ==> FirstRangeMatch(s) == Some((a, b))
  {
    FirstFromSpec(s, 0);
    if FirstRangeMatch(s).Some? {
      var r := FirstRangeMatch(s);
      var m :| 0 <= m && Matches(s, m, r.value.0, r.value.1)
        && forall i', a', b' :: 0 <= i' < m ==> !Matches(s, i', a', b');
      assert IsFirstMatch(s, m, r.value.0, r.value.1);
    }
    forall i, a, b | IsFirstMatch(s, i, a, b) ensures FirstRangeMatch(s) == Some((a, b)) {
      var r := FirstRangeMatch(s);
      assert r.Some?;
      var m :| 0 <= m && Matches(s, m, r.value.0, r.value.1)
        && forall i', a', b' :: 0 <= i' < m ==> !Matches(s, i', a', b');
      assert m == i;
      MatchAtSpec(s, i);
    }
  }

  /** Both capture groups of a match are non-empty runs of decimal digits. */
  lemma {:induction false} FirstFromGroups(s: string, i: nat)
    requires i <= |s| && FirstFrom(s, i).Some?
    ensures |FirstFrom(s, i).value.0| > 0 && AllDecimal(FirstFrom(s, i).value.0)
    ensures |FirstFrom(s, i).value.1| > 0 && AllDecimal(FirstFrom(s, i).value.1)
    decreases |s| - i
  {
    if MatchAt(s, i).Some? {
      MatchAtSound(s, i);
    } else {
      FirstFromGroups(s, i + 1);
    }
  }

  /** A group of `(\d+)` parses to its decimal value, never NaN. */
  lemma ParseIntOfGroup(g: string)
    requires |g| > 0 && AllDecimal(g)
    ensures ParseInt(g) == Int(DigitsValue(g, 10))
  {
    ParseIntOfDecimal(g, []);
    assert g + [] == g;
  }
}
