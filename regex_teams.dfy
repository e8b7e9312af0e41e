/** The team-pair pattern of the FFCV row parser,
    (.+?)\s*-\s*(.+?)\s+(?:\d+\s*-\s*\d+|$). */
module TeamsRegex {
  import opened Text
  import opened Wrappers
  import opened ScoreRegex

  /** \s+(?:\d+\s*-\s*\d+|$) at `e`. */
  predicate TailOk(s: string, e: nat)
    requires e <= |s|
  {
    e < |s| && IsSpace(s[e]) &&
    var m := SpaceRunEnd(s, e);
    m == |s| || ScoreAt(s, m).Some?
  }

  /** Whitespace from `e` to `f`, then a score or `$`. */
  predicate TailPattern(s: string, e: nat, f: nat) {
    e < f && Spaces(s, e, f) && (DollarAt(s, f) || (f < |s| && ScoreAt(s, f).Some?))
  }

  /** The tail scanner finds a tail match when there is one. */
  lemma TailOkSound(s: string, e: nat)
    requires e <= |s| && TailOk(s, e)
    ensures TailPattern(s, e, SpaceRunEnd(s, e))
  {
  }

  /** Any tail match is found by the scanner: whatever the greedy \s+ gives back leads to
      the same verdict. */
  lemma TailOkComplete(s: string, e: nat, f: nat)
    requires e <= |s| && TailPattern(s, e, f)
    ensures TailOk(s, e)
  {
    var m := SpaceRunEnd(s, e);
    assert IsSpace(s[e]);
    if f < m {
      assert IsSpace(s[f]);
      assert f == |s| - 1;
    } else if f > m {
      assert false;
    }
  }

  /** Group 2 ends: lazily, the first end at or after `e` (never crossing a newline) where the tail matches. */
  function AwayEnd(s: string, e: nat): (r: Option<nat>)
    requires e <= |s|
    ensures r.Some? ==> e <= r.value <= |s| && TailOk(s, r.value) && NoNewline(s, e, r.value)
    decreases |s| - e
  {
    if TailOk(s, e) then Some(e)
    else if e < |s| && s[e] != '\n' then AwayEnd(s, e + 1)
    else None
  }

  /** Group 2 starts: the greedy \s* before it gives back whitespace, so starts are tried
      from `c` down to `lo`; the result is (start, end). */
  function AwayGroup(s: string, lo: nat, c: nat): (r: Option<(nat, nat)>)
    requires lo <= c <= |s|
    ensures r.Some? ==> lo <= r.value.0 <= c && r.value.0 < r.value.1 <= |s| &&
                        NoNewline(s, r.value.0, r.value.1) && TailOk(s, r.value.1)
    decreases c - lo
  {
    var here := if c < |s| && s[c] != '\n' then AwayEnd(s, c + 1) else None;
    if here.Some? then Some((c, here.value))
    else if c > lo then AwayGroup(s, lo, c - 1)
    else None
  }

  /** Group 1 is `s[st..a]`, whitespace up to the hyphen at `b`, whitespace up to `c`,
      group 2 is `s[c..e]`, and the tail matches at `e`; neither group holds a newline. */
  predicate TeamsPattern(s: string, st: nat, a: nat, b: nat, c: nat, e: nat) {
    st < a && NoNewline(s, st, a) && Spaces(s, a, b) && b < |s| && s[b] == '-' &&
    Spaces(s, b + 1, c) && c < e && NoNewline(s, c, e) && TailOk(s, e)
  }

  /** The hyphen after group 1 ending at `a`, and the group 2 found after it. */
  function AfterHome(s: string, a: nat): (r: Option<(nat, nat)>)
    requires a <= |s|
    ensures r.Some? ==> var b := SpaceRunEnd(s, a);
                        b < |s| && s[b] == '-' && Spaces(s, b + 1, r.value.0) &&
                        r.value.0 < r.value.1 <= |s| && NoNewline(s, r.value.0, r.value.1) && TailOk(s, r.value.1)
  {
    var b := SpaceRunEnd(s, a);
    if b < |s| && s[b] == '-' then
      var r := AwayGroup(s, b + 1, SpaceRunEnd(s, b + 1));
      assert r.Some? ==> Spaces(s, b + 1, r.value.0);
      r
    else None
  }

  /** Group 1 ends: lazily from `a` on, never crossing a newline. The result is
      (end of group 1, group 2 start, group 2 end). */
  function HomeGroup(s: string, st: nat, a: nat): (r: Option<(nat, nat, nat)>)
    requires st < a <= |s| && NoNewline(s, st, a - 1)
    ensures r.Some? ==> a <= r.value.0 <= |s| &&
                        TeamsPattern(s, st, r.value.0, SpaceRunEnd(s, r.value.0), r.value.1, r.value.2)
    decreases |s| - a
  {
    if s[a - 1] == '\n' then None
    else
      var found := AfterHome(s, a);
      if found.Some? then Some((a, found.value.0, found.value.1))
      else if a < |s| then HomeGroup(s, st, a + 1)
      else None
  }

  /** re.search: the leftmost start with a match; the result is (start, end of group 1,
      group 2 start, group 2 end). */
  function TeamsFrom(s: string, st: nat): (r: Option<(nat, nat, nat, nat)>)
    requires st <= |s|
    ensures r.Some? ==> r.value.1 <= |s| &&
                        TeamsPattern(s, r.value.0, r.value.1, SpaceRunEnd(s, r.value.1), r.value.2, r.value.3)
    decreases |s| - st
  {
    var here := if st < |s| then HomeGroup(s, st, st + 1) else None;
    if here.Some? then Some((st, here.value.0, here.value.1, here.value.2))
    else if st < |s| then TeamsFrom(s, st + 1)
    else None
  }

  lemma {:induction false} AwayEndComplete(s: string, e0: nat, e: nat)
    requires e0 <= e <= |s| && TailOk(s, e) && NoNewline(s, e0, e)
    ensures AwayEnd(s, e0).Some?
    decreases e - e0
  {
    if e0 < e && !TailOk(s, e0) {
      AwayEndComplete(s, e0 + 1, e);
    }
  }

  lemma {:induction false} AwayGroupComplete(s: string, lo: nat, c0: nat, c: nat, e: nat)
    requires lo <= c <= c0 <= |s| && c < e <= |s| && TailOk(s, e) && NoNewline(s, c, e)
    ensures AwayGroup(s, lo, c0).Some?
    decreases c0 - c
  {
    if c0 == c {
      AwayEndComplete(s, c + 1, e);
    } else if AwayGroup(s, lo, c0).None? {
      AwayGroupComplete(s, lo, c0 - 1, c, e);
    }
  }

  /** With group 1 ending at `a`, a hyphen at `b` and a group 2 `s[c..e]` after it, the
      scanner after group 1 finds a group 2. */
  lemma AfterHomeComplete(s: string, a: nat, b: nat, c: nat, e: nat)
    requires Spaces(s, a, b) && b < |s| && s[b] == '-' && Spaces(s, b + 1, c)
    requires c < e && NoNewline(s, c, e) && TailOk(s, e)
    ensures AfterHome(s, a).Some?
  {
    SpaceRunEndUnique(s, a, b);
    var cmax := SpaceRunEnd(s, b + 1);
    assert c <= cmax by {
      if c > cmax {
        assert false;
      }
    }
    AwayGroupComplete(s, b + 1, cmax, c, e);
  }

  lemma {:induction false} HomeGroupComplete(s: string, st: nat, a0: nat, a: nat, b: nat, c: nat, e: nat)
    requires st < a0 <= a && NoNewline(s, st, a0 - 1) && TeamsPattern(s, st, a, b, c, e)
    ensures HomeGroup(s, st, a0).Some?
    decreases a - a0
  {
    assert s[a0 - 1] != '\n';
    if a0 == a {
      AfterHomeComplete(s, a, b, c, e);
    } else if HomeGroup(s, st, a0).None? {
      HomeGroupComplete(s, st, a0 + 1, a, b, c, e);
    }
  }

  lemma {:induction false} TeamsFromComplete(s: string, st0: nat, st: nat, a: nat, b: nat, c: nat, e: nat)
    requires st0 <= st && TeamsPattern(s, st, a, b, c, e)
    ensures TeamsFrom(s, st0).Some?
    decreases st - st0
  {
    if st0 == st {
      HomeGroupComplete(s, st, st + 1, a, b, c, e);
    } else if TeamsFrom(s, st0).None? {
      TeamsFromComplete(s, st0 + 1, st, a, b, c, e);
    }
  }

  /** The team pair of a row: group 1 and group 2, each stripped. */
  function ExtractTeams(text: string): Option<(string, string)> {
    match TeamsFrom(text, 0)
    case Some((st, a, c, e)) => Some((Strip(text[st..a]), Strip(text[c..e])))
    case None => None
  }

  /** A row yields a team pair exactly when the "home - away" pattern matches somewhere, and
      the pair comes from one such match. */
  lemma ExtractTeamsSpec(text: string)
    ensures ExtractTeams(text).None? <==>
              forall st: nat, a: nat, b: nat, c: nat, e: nat :: !TeamsPattern(text, st, a, b, c, e)
    ensures ExtractTeams(text).Some? ==>
              exists st: nat, a: nat, b: nat, c: nat, e: nat ::
                TeamsPattern(text, st, a, b, c, e) && ExtractTeams(text) == Some((Strip(text[st..a]), Strip(text[c..e])))
  {
    forall st: nat, a: nat, b: nat, c: nat, e: nat | TeamsPattern(text, st, a, b, c, e)
      ensures ExtractTeams(text).Some?
    {
      TeamsFromComplete(text, 0, st, a, b, c, e);
    }
    if ExtractTeams(text).Some? {
      var r := TeamsFrom(text, 0).value;
      assert TeamsPattern(text, r.0, r.1, SpaceRunEnd(text, r.1), r.2, r.3);
    }
  }
}
