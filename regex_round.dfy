/** The round pattern of the FFCV row parser, Jornada\s*(\d+), matched case-insensitively. */
module RoundRegex {
  import opened Text
  import opened Wrappers

  /** The round pattern anchored at `i`. */
  function RoundAt(s: string, i: nat): Option<nat>
    requires i <= |s|
  {
    if i + 7 <= |s| && Lower(s[i..i + 7]) == "jornada" then
      var p := SpaceRunEnd(s, i + 7);
      if p < |s| && IsDigit(s[p]) then Some(RunValue(s, p, DigitRunEnd(s, p))) else None
    else None
  }

  /** "jornada" in any case at `i`, whitespace up to `p`, digits from `p` to `e`. */
  predicate RoundPattern(s: string, i: nat, p: nat, e: nat) {
    i + 7 <= |s| && Lower(s[i..i + 7]) == "jornada" &&
    Spaces(s, i + 7, p) && p < e && Digits(s, p, e)
  }

  lemma RoundAtSound(s: string, i: nat)
    requires i <= |s| && RoundAt(s, i).Some?
    ensures exists p: nat, e: nat :: RoundPattern(s, i, p, e)
  {
    var p := SpaceRunEnd(s, i + 7);
    assert RoundPattern(s, i, p, DigitRunEnd(s, p));
  }

  lemma RoundAtComplete(s: string, i: nat, p: nat, e: nat)
    requires RoundPattern(s, i, p, e)
    ensures RoundAt(s, i) == Some(RunValue(s, p, DigitRunEnd(s, p)))
  {
    SpaceRunEndUnique(s, i + 7, p);
  }

  /** The round pattern matches at `k`. */
  predicate RoundMatchAt(s: string, k: nat) {
    k <= |s| && RoundAt(s, k).Some?
  }

  /** The number after the first "Jornada" (any case) that whitespace and digits follow, or None. */
  function ExtractRound(text: string): Option<nat> {
    match Leftmost(|text|, 0, (k: nat) => RoundMatchAt(text, k))
    case Some(i) => RoundAt(text, i)
    case None => None
  }

  /** No round is found exactly when the pattern occurs nowhere in the text. */
  lemma ExtractRoundNone(text: string)
    ensures ExtractRound(text).None? <==> forall i: nat, p: nat, e: nat :: !RoundPattern(text, i, p, e)
  {
    var f := (k: nat) => RoundMatchAt(text, k);
    var m := Leftmost(|text|, 0, f);
    assert ExtractRound(text).Some? <==> m.Some?;
    forall i: nat, p: nat, e: nat | RoundPattern(text, i, p, e)
      ensures m.Some?
    {
      RoundAtComplete(text, i, p, e);
      assert f(i);
    }
    if m.Some? {
      RoundAtSound(text, m.value);
    }
  }

  /** A round found is read at the leftmost occurrence of the pattern. */
  lemma ExtractRoundLeftmost(text: string)
    requires ExtractRound(text).Some?
    ensures exists i: nat :: i <= |text| && ExtractRound(text) == RoundAt(text, i) &&
              forall k: nat, p: nat, e: nat :: k < i ==> !RoundPattern(text, k, p, e)
  {
    var f := (k: nat) => RoundMatchAt(text, k);
    var i := Leftmost(|text|, 0, f).value;
    assert ExtractRound(text) == RoundAt(text, i);
    forall k: nat, p: nat, e: nat | k < i
      ensures !RoundPattern(text, k, p, e)
    {
      assert !f(k);
      if RoundPattern(text, k, p, e) {
        RoundAtComplete(text, k, p, e);
      }
    }
  }
}
