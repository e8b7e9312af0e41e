/** The score pattern of the FFCV row parser, (\d+)\s*-\s*(\d+).

    Each regular expression of the row parser is modelled by a scanner that tries start
    positions left to right and, at each start, the alternatives in the order Python's
    backtracking engine tries them (greedy quantifiers longest first, lazy ones shortest
    first), together with a declarative description of the text the pattern matches and
    lemmas tying the two together. */
module ScoreRegex {
  import opened Text
  import opened Wrappers

  /** The score pattern anchored at `i`: the two integers, or None. The first \d+ can only
      end where the digit run ends (a hyphen or whitespace must follow), and the second
      takes the whole digit run after the hyphen. */
  function ScoreAt(s: string, i: nat): Option<(nat, nat)>
    requires i <= |s|
  {
    if i < |s| && IsDigit(s[i]) then
      var p := DigitRunEnd(s, i);
      var q := SpaceRunEnd(s, p);
      if q < |s| && s[q] == '-' then
        var r := SpaceRunEnd(s, q + 1);
        if r < |s| && IsDigit(s[r]) then Some((RunValue(s, i, p), RunValue(s, r, DigitRunEnd(s, r))))
        else None
      else None
    else None
  }

  /** `s[i..p]` digits, `s[p..q]` whitespace, `s[q]` the hyphen, `s[q+1..r]` whitespace, `s[r..e]` digits. */
  predicate ScorePattern(s: string, i: nat, p: nat, q: nat, r: nat, e: nat) {
    i < p && Digits(s, i, p) && Spaces(s, p, q) && q < |s| && s[q] == '-' &&
    Spaces(s, q + 1, r) && r < e && Digits(s, r, e)
  }

  /** When the score scanner succeeds at `i`, the pattern matches text starting at `i`. */
  lemma ScoreAtSound(s: string, i: nat)
    requires i <= |s| && ScoreAt(s, i).Some?
    ensures exists p: nat, q: nat, r: nat, e: nat :: ScorePattern(s, i, p, q, r, e)
  {
    var p := DigitRunEnd(s, i);
    var q := SpaceRunEnd(s, p);
    var r := SpaceRunEnd(s, q + 1);
    assert ScorePattern(s, i, p, q, r, DigitRunEnd(s, r));
  }

  /** Wherever the pattern matches, the scanner succeeds, reading the whole digit run at `i`
      and the whole digit run after the hyphen. */
  lemma ScoreAtComplete(s: string, i: nat, p: nat, q: nat, r: nat, e: nat)
    requires ScorePattern(s, i, p, q, r, e)
    ensures ScoreAt(s, i) == Some((RunValue(s, i, p), RunValue(s, r, DigitRunEnd(s, r))))
  {
    DigitRunEndUnique(s, i, p);
    SpaceRunEndUnique(s, p, q);
    SpaceRunEndUnique(s, q + 1, r);
  }

  /** The score pattern matches at `k`. */
  predicate ScoreMatchAt(s: string, k: nat) {
    k <= |s| && ScoreAt(s, k).Some?
  }

  /** The score of a row: home and away goals from the first match, or None. */
  function ExtractScore(text: string): Option<(nat, nat)> {
    match Leftmost(|text|, 0, (k: nat) => ScoreMatchAt(text, k))
    case Some(i) => ScoreAt(text, i)
    case None => None
  }

  /** No score is found exactly when digits-hyphen-digits occurs nowhere in the text. */
  lemma ExtractScoreNone(text: string)
    ensures ExtractScore(text).None? <==>
              forall i: nat, p: nat, q: nat, r: nat, e: nat :: !ScorePattern(text, i, p, q, r, e)
  {
    var f := (k: nat) => ScoreMatchAt(text, k);
    var m := Leftmost(|text|, 0, f);
    assert ExtractScore(text).Some? <==> m.Some?;
    forall i: nat, p: nat, q: nat, r: nat, e: nat | ScorePattern(text, i, p, q, r, e)
      ensures m.Some?
    {
      ScoreAtComplete(text, i, p, q, r, e);
      assert f(i);
    }
    if m.Some? {
      ScoreAtSound(text, m.value);
    }
  }

  /** A score found is read at the leftmost occurrence of the pattern. */
  lemma ExtractScoreLeftmost(text: string)
    requires ExtractScore(text).Some?
    ensures exists i: nat :: i <= |text| && ExtractScore(text) == ScoreAt(text, i) &&
              forall k: nat, p: nat, q: nat, r: nat, e: nat :: k < i ==> !ScorePattern(text, k, p, q, r, e)
  {
    var f := (k: nat) => ScoreMatchAt(text, k);
    var i := Leftmost(|text|, 0, f).value;
    assert ExtractScore(text) == ScoreAt(text, i);
    forall k: nat, p: nat, q: nat, r: nat, e: nat | k < i
      ensures !ScorePattern(text, k, p, q, r, e)
    {
      assert !f(k);
      if ScorePattern(text, k, p, q, r, e) {
        ScoreAtComplete(text, k, p, q, r, e);
      }
    }
  }

  /** A text that opens with digits, a hyphen and digits, such as a hyphenated date
      "14-12-2025", is read as a score: the first number and the one after the hyphen. */
  lemma ExtractScoreAtStart(text: string, p: nat, q: nat, r: nat, e: nat)
    requires ScorePattern(text, 0, p, q, r, e)
    ensures ExtractScore(text) == Some((RunValue(text, 0, p), RunValue(text, r, DigitRunEnd(text, r))))
  {
    ScoreAtComplete(text, 0, p, q, r, e);
    var f := (k: nat) => ScoreMatchAt(text, k);
    assert f(0);
  }
}
