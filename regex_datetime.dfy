/** The date-time pattern of the FFCV row parser,
    (\d{1,2})[/-](\d{1,2})[/-](\d{4}).*?(\d{1,2}):(\d{2}). */
module DateTimeRegex {
  import opened Text
  import opened Wrappers

  /** The five captured integers: day, month, year, hour, minute. */
  datatype RawDateTime = RawDateTime(day: nat, month: nat, year: nat, hour: nat, minute: nat)

  predicate IsDateSep(c: char) {
    c == '/' || c == '-'
  }

  /** (\d{1,2}):(\d{2}) at `t` with an hour of `hl` digits. */
  predicate TimeWith(s: string, t: nat, hl: nat) {
    Digits(s, t, t + hl) && t + hl < |s| && s[t + hl] == ':' && Digits(s, t + hl + 1, t + hl + 3)
  }

  /** (\d{1,2}):(\d{2}) at `t`, the hour's two-digit form tried first. */
  function TimeAt(s: string, t: nat): (r: Option<(nat, nat)>)
    ensures r.Some? <==> TimeWith(s, t, 2) || TimeWith(s, t, 1)
  {
    if TimeWith(s, t, 2) then Some((RunValue(s, t, t + 2), RunValue(s, t + 3, t + 5)))
    else if TimeWith(s, t, 1) then Some((RunValue(s, t, t + 1), RunValue(s, t + 2, t + 4)))
    else None
  }

  /** .*?(\d{1,2}):(\d{2}) from `t`: the lazy gap grows one character at a time and never
      crosses a newline. */
  function FindTime(s: string, t: nat): (r: Option<nat>)
    requires t <= |s|
    ensures r.Some? ==> t <= r.value <= |s| && TimeAt(s, r.value).Some? && NoNewline(s, t, r.value)
    ensures r.None? ==> forall u :: t <= u <= |s| && NoNewline(s, t, u) ==> TimeAt(s, u).None?
    decreases |s| - t
  {
    if TimeAt(s, t).Some? then Some(t)
    else if t < |s| && s[t] != '\n' then FindTime(s, t + 1)
    else None
  }

  /** Day of `dl` digits, separator, month of `ml` digits, separator, four-digit year from `y`. */
  predicate DatePrefix(s: string, i: nat, dl: nat, ml: nat) {
    var j := i + dl + 1;
    var y := j + ml + 1;
    Digits(s, i, i + dl) && i + dl < |s| && IsDateSep(s[i + dl]) &&
    Digits(s, j, j + ml) && j + ml < |s| && IsDateSep(s[j + ml]) && Digits(s, y, y + 4)
  }

  /** The date with a day of `dl` digits and a month of `ml` digits at `i`. */
  function DateWith(s: string, i: nat, dl: nat, ml: nat): (r: Option<RawDateTime>)
    ensures r.Some? ==> DatePrefix(s, i, dl, ml)
  {
    var j := i + dl + 1;
    var y := j + ml + 1;
    if DatePrefix(s, i, dl, ml) then
      match FindTime(s, y + 4)
      case Some(t) =>
        var hm := TimeAt(s, t).value;
        Some(RawDateTime(RunValue(s, i, i + dl), RunValue(s, j, j + ml), RunValue(s, y, y + 4), hm.0, hm.1))
      case None => None
    else None
  }

  /** The date pattern anchored at `i`: each greedy \d{1,2} tries two digits before one, for
      the day and then the month. */
  function DateAt(s: string, i: nat): Option<RawDateTime> {
    var a := DateWith(s, i, 2, 2);
    if a.Some? then a else
    var b := DateWith(s, i, 2, 1);
    if b.Some? then b else
    var c := DateWith(s, i, 1, 2);
    if c.Some? then c else
    DateWith(s, i, 1, 1)
  }

  /** The whole date pattern at `i`: the date prefix, a newline-free gap up to `t`, and a time
      with an hour of `hl` digits at `t`. */
  predicate DatePattern(s: string, i: nat, dl: nat, ml: nat, t: nat, hl: nat) {
    1 <= dl <= 2 && 1 <= ml <= 2 && 1 <= hl <= 2 &&
    DatePrefix(s, i, dl, ml) && NoNewline(s, i + dl + ml + 6, t) && TimeWith(s, t, hl)
  }

  lemma DateWithSound(s: string, i: nat, dl: nat, ml: nat)
    requires 1 <= dl <= 2 && 1 <= ml <= 2 && DateWith(s, i, dl, ml).Some?
    ensures exists t: nat, hl: nat :: DatePattern(s, i, dl, ml, t, hl)
  {
    var t := FindTime(s, i + dl + ml + 6).value;
    if TimeWith(s, t, 2) {
      assert DatePattern(s, i, dl, ml, t, 2);
    } else {
      assert DatePattern(s, i, dl, ml, t, 1);
    }
  }

  lemma DateWithComplete(s: string, i: nat, dl: nat, ml: nat, t: nat, hl: nat)
    requires DatePattern(s, i, dl, ml, t, hl)
    ensures DateWith(s, i, dl, ml).Some?
  {
    assert TimeAt(s, t).Some?;
    assert FindTime(s, i + dl + ml + 6).Some?;
  }

  lemma DateAtSound(s: string, i: nat)
    requires DateAt(s, i).Some?
    ensures exists dl: nat, ml: nat, t: nat, hl: nat :: DatePattern(s, i, dl, ml, t, hl)
  {
    if DateWith(s, i, 2, 2).Some? {
      DateWithSound(s, i, 2, 2);
    } else if DateWith(s, i, 2, 1).Some? {
      DateWithSound(s, i, 2, 1);
    } else if DateWith(s, i, 1, 2).Some? {
      DateWithSound(s, i, 1, 2);
    } else {
      DateWithSound(s, i, 1, 1);
    }
  }

  lemma DateAtComplete(s: string, i: nat, dl: nat, ml: nat, t: nat, hl: nat)
    requires DatePattern(s, i, dl, ml, t, hl)
    ensures DateAt(s, i).Some?
  {
    DateWithComplete(s, i, dl, ml, t, hl);
  }

  /** The date-time pattern matches at `k`. */
  predicate DateMatchAt(s: string, k: nat) {
    k <= |s| && DateAt(s, k).Some?
  }

  /** The five captured groups of the first date-time in the text, or None. */
  function FindDateTime(text: string): Option<RawDateTime> {
    match Leftmost(|text|, 0, (k: nat) => DateMatchAt(text, k))
    case Some(i) => DateAt(text, i)
    case None => None
  }

  /** No date-time is found exactly when the pattern matches nowhere in the text. */
  lemma FindDateTimeNone(text: string)
    ensures FindDateTime(text).None? <==>
              forall i: nat, dl: nat, ml: nat, t: nat, hl: nat :: !DatePattern(text, i, dl, ml, t, hl)
  {
    var f := (k: nat) => DateMatchAt(text, k);
    var m := Leftmost(|text|, 0, f);
    assert FindDateTime(text).Some? <==> m.Some?;
    forall i: nat, dl: nat, ml: nat, t: nat, hl: nat | DatePattern(text, i, dl, ml, t, hl)
      ensures m.Some?
    {
      DateAtComplete(text, i, dl, ml, t, hl);
      assert f(i);
    }
    if m.Some? {
      DateAtSound(text, m.value);
    }
  }

  /** A date-time found is read at the leftmost start of the pattern. */
  lemma FindDateTimeLeftmost(text: string)
    requires FindDateTime(text).Some?
    ensures exists i: nat :: i <= |text| && FindDateTime(text) == DateAt(text, i) &&
              forall k: nat, dl: nat, ml: nat, t: nat, hl: nat :: k < i ==> !DatePattern(text, k, dl, ml, t, hl)
  {
    var f := (k: nat) => DateMatchAt(text, k);
    var i := Leftmost(|text|, 0, f).value;
    assert FindDateTime(text) == DateAt(text, i);
    forall k: nat, dl: nat, ml: nat, t: nat, hl: nat | k < i
      ensures !DatePattern(text, k, dl, ml, t, hl)
    {
      assert !f(k);
      if DatePattern(text, k, dl, ml, t, hl) {
        DateAtComplete(text, k, dl, ml, t, hl);
      }
    }
  }
}
