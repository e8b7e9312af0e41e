/** The venue pattern of the FFCV row parser,
    (?:Campo|Pabell[oó]n|Instalaci[oó]n)\s*:\s*([^|]+)$, matched case-insensitively. */
module VenueRegex {
  import opened Text
  import opened Wrappers

  /** The end of a venue label at `i`, compared case-insensitively. */
  function LabelEnd(s: string, i: nat): (r: Option<nat>)
    requires i <= |s|
    ensures r.Some? ==> i < r.value <= |s|
  {
    if i + 5 <= |s| && Lower(s[i..i + 5]) == "campo" then Some(i + 5)
    else if i + 8 <= |s| && (Lower(s[i..i + 8]) == "pabellon" || Lower(s[i..i + 8]) == "pabellón") then Some(i + 8)
    else if i + 11 <= |s| && (Lower(s[i..i + 11]) == "instalacion" || Lower(s[i..i + 11]) == "instalación") then Some(i + 11)
    else None
  }

  /** `s[i..j]` holds no '|'. */
  predicate NoBar(s: string, i: nat, j: nat) {
    i <= j <= |s| && forall k :: i <= k < j ==> s[k] != '|'
  }

  /** End of the run of characters other than '|' starting at `g`. */
  function BarFreeRunEnd(s: string, g: nat): (j: nat)
    requires g <= |s|
    ensures NoBar(s, g, j) && (j == |s| || s[j] == '|')
    decreases |s| - g
  {
    if g < |s| && s[g] != '|' then BarFreeRunEnd(s, g + 1) else g
  }

  /** ([^|]+)$ with the group starting at `g` and running at most to `e`: the greedy group
      gives back characters from `e` down until `$` holds, which can only be at the end of the
      text or just before a final newline. */
  function BarFreeGroupEnd(s: string, g: nat, e: nat): (r: Option<nat>)
    requires g < e <= |s|
    ensures r.Some? ==> g < r.value <= e && DollarAt(s, r.value) &&
                        forall k :: r.value < k <= e ==> !DollarAt(s, k)
    ensures r.None? ==> forall k :: g < k <= e ==> !DollarAt(s, k)
  {
    // Giving back characters never helps: `$` before the end needs a final newline, which
    // would make `e` itself the end of the text.
    if DollarAt(s, e) then Some(e) else None
  }

  /** \s*([^|]+)$ after the colon: the greedy \s* gives back whitespace one character at a
      time, so group starts are tried from `g` down to `lo`. The result is (start, end). */
  function VenueGroup(s: string, lo: nat, g: nat): (r: Option<(nat, nat)>)
    requires lo <= g <= |s|
    ensures r.Some? ==> lo <= r.value.0 <= g && r.value.0 < r.value.1 <= |s|
    decreases g
  {
    var here :=
      if g < |s| && s[g] != '|' then BarFreeGroupEnd(s, g, BarFreeRunEnd(s, g)) else None;
    if here.Some? then Some((g, here.value))
    else if g > lo then VenueGroup(s, lo, g - 1)
    else None
  }

  /** The end of the label-whitespace-colon prefix of the venue pattern at `i`. */
  function ColonAt(s: string, i: nat): (r: Option<nat>)
    requires i <= |s|
    ensures r.Some? ==> i < r.value < |s| && s[r.value] == ':'
  {
    match LabelEnd(s, i)
    case None => None
    case Some(j) =>
      var k := SpaceRunEnd(s, j);
      if k < |s| && s[k] == ':' then Some(k) else None
  }

  /** \s*([^|]+)$ after the colon at `k`: the stripped group, or None. */
  function VenueAfterColon(s: string, k: nat): Option<string>
    requires k < |s|
  {
    match VenueGroup(s, k + 1, SpaceRunEnd(s, k + 1))
    case Some((g, e)) => Some(Strip(s[g..e]))
    case None => None
  }

  /** The venue pattern anchored at `i`: the stripped group, or None. */
  function VenueAt(s: string, i: nat): Option<string>
    requires i <= |s|
  {
    match ColonAt(s, i)
    case None => None
    case Some(k) => VenueAfterColon(s, k)
  }

  /** What the venue pattern amounts to: after a label, optional whitespace and a colon, the
      rest of the text must be non-empty and free of '|', and the venue is that rest, stripped. */
  lemma {:induction false} VenueAtIsRest(s: string, i: nat, k: nat)
    requires i <= |s| && ColonAt(s, i) == Some(k)
    ensures VenueAt(s, i) == if k + 1 < |s| && NoBar(s, k + 1, |s|) then Some(Strip(s[k + 1..])) else None
  {
    VenueAfterColonIsRest(s, k);
  }

  lemma {:induction false} VenueAfterColonIsRest(s: string, k: nat)
    requires k < |s|
    ensures VenueAfterColon(s, k) == if k + 1 < |s| && NoBar(s, k + 1, |s|) then Some(Strip(s[k + 1..])) else None
  {
    if k + 1 < |s| && NoBar(s, k + 1, |s|) {
      VenueAfterColonNoBar(s, k);
    } else if k + 1 < |s| {
      var b :| k + 1 <= b < |s| && s[b] == '|';
      VenueGroupBar(s, k + 1, SpaceRunEnd(s, k + 1), b);
    }
  }

  lemma {:induction false} VenueAfterColonNoBar(s: string, k: nat)
    requires k + 1 < |s| && NoBar(s, k + 1, |s|)
    ensures VenueAfterColon(s, k) == Some(Strip(s[k + 1..]))
  {
    var g := VenueGroupNoBar(s, k + 1, SpaceRunEnd(s, k + 1));
    VenueAfterColonGroup(s, k, g, |s|);
    StripRestAfterSpaces(s, k + 1, g);
  }

  lemma {:induction false} VenueAfterColonGroup(s: string, k: nat, g: nat, e: nat)
    requires k < |s| && g <= e <= |s| && VenueGroup(s, k + 1, SpaceRunEnd(s, k + 1)) == Some((g, e))
    ensures VenueAfterColon(s, k) == Some(Strip(s[g..e]))
  {
  }

  /** When the rest of the text has no '|', the group found ends at the end of the text and
      starts after some of the leading whitespace. */
  lemma VenueGroupNoBar(s: string, lo: nat, m: nat) returns (g: nat)
    requires lo < |s| && NoBar(s, lo, |s|)
    requires m == SpaceRunEnd(s, lo)
    ensures VenueGroup(s, lo, m) == Some((g, |s|))
    ensures lo <= g && Spaces(s, lo, g)
  {
    if m < |s| {
      BarFreeRunEndNoBar(s, m);
      assert DollarAt(s, |s|);
      g := m;
    } else {
      BarFreeRunEndNoBar(s, m - 1);
      assert DollarAt(s, |s|);
      g := m - 1;
    }
  }

  lemma {:induction false} BarFreeRunEndNoBar(s: string, g: nat)
    requires g <= |s| && NoBar(s, g, |s|)
    ensures BarFreeRunEnd(s, g) == |s|
    decreases |s| - g
  {
    if g < |s| {
      BarFreeRunEndNoBar(s, g + 1);
    }
  }

  /** A '|' after the colon defeats every group start. */
  lemma {:induction false} VenueGroupBar(s: string, lo: nat, g: nat, b: nat)
    requires lo <= g <= |s| && g <= b < |s| && s[b] == '|'
    ensures VenueGroup(s, lo, g).None?
    decreases g
  {
    if g < |s| && s[g] != '|' {
      var e := BarFreeRunEnd(s, g);
      assert e <= b;
      assert BarFreeGroupEnd(s, g, e).None?;
    }
    if g > lo {
      VenueGroupBar(s, lo, g - 1, b);
    }
  }

  /** A label ending at `j`, whitespace up to the colon at `k`, and a non-empty, '|'-free rest
      of the text after the colon. */
  predicate VenuePattern(s: string, i: nat, j: nat, k: nat) {
    i <= |s| && LabelEnd(s, i) == Some(j) && Spaces(s, j, k) && k + 1 < |s| && s[k] == ':' &&
    NoBar(s, k + 1, |s|)
  }

  lemma VenueAtComplete(s: string, i: nat, j: nat, k: nat)
    requires VenuePattern(s, i, j, k)
    ensures VenueAt(s, i) == Some(Strip(s[k + 1..]))
  {
    SpaceRunEndUnique(s, j, k);
    VenueAtIsRest(s, i, k);
  }

  lemma VenueAtSound(s: string, i: nat) returns (j: nat, k: nat)
    requires i <= |s| && VenueAt(s, i).Some?
    ensures VenuePattern(s, i, j, k) && VenueAt(s, i) == Some(Strip(s[k + 1..]))
  {
    k := ColonAt(s, i).value;
    j := LabelEnd(s, i).value;
    VenueAtIsRest(s, i, k);
  }

  /** The venue pattern matches at `k`. */
  predicate VenueMatchAt(s: string, k: nat) {
    k <= |s| && VenueAt(s, k).Some?
  }

  /** The stripped rest of the text after the first label that heads a '|'-free rest, or None. */
  function ExtractVenue(text: string): Option<string> {
    match Leftmost(|text|, 0, (k: nat) => VenueMatchAt(text, k))
    case Some(i) => VenueAt(text, i)
    case None => None
  }

  /** No venue is found exactly when no label heads a colon and a '|'-free rest. */
  lemma ExtractVenueNone(text: string)
    ensures ExtractVenue(text).None? <==> forall i: nat, j: nat, k: nat :: !VenuePattern(text, i, j, k)
  {
    var f := (k: nat) => VenueMatchAt(text, k);
    var m := Leftmost(|text|, 0, f);
    assert ExtractVenue(text).Some? <==> m.Some?;
    forall i: nat, j: nat, k: nat | VenuePattern(text, i, j, k)
      ensures m.Some?
    {
      VenueAtComplete(text, i, j, k);
      assert f(i);
    }
    if m.Some? {
      var j, k := VenueAtSound(text, m.value);
    }
  }

  /** A venue found is the stripped rest after the colon of the leftmost match. */
  lemma ExtractVenueLeftmost(text: string)
    requires ExtractVenue(text).Some?
    ensures exists i: nat, j: nat, k: nat :: VenuePattern(text, i, j, k) &&
              ExtractVenue(text) == Some(Strip(text[k + 1..])) &&
              forall i': nat, j': nat, k': nat :: i' < i ==> !VenuePattern(text, i', j', k')
  {
    var f := (k: nat) => VenueMatchAt(text, k);
    var i := Leftmost(|text|, 0, f).value;
    assert ExtractVenue(text) == VenueAt(text, i);
    var j, k := VenueAtSound(text, i);
    forall i': nat, j': nat, k': nat | i' < i
      ensures !VenuePattern(text, i', j', k')
    {
      assert !f(i');
      if VenuePattern(text, i', j', k') {
        VenueAtComplete(text, i', j', k');
      }
    }
  }
}
