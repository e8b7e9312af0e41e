/** Character classes and string operations that the ingestion code relies on:
    Python's whitespace (str.isspace, the regex class \s), ASCII decimal digits,
    str.lower, str.strip, int(...) / str(...) on decimal digits, str.split
    on one character, and re.sub(r"\s+", " ", ...). */
module Text {
  import opened Wrappers

  // ---------------------------------------------------------------------------
  // Character classes

  /** Python's whitespace: str.isspace(), str.strip() and \s in a str pattern. */
  predicate IsSpace(c: char) {
    var n := c as int;
    n == 32 || (9 <= n <= 13) || (28 <= n <= 31) || n == 0x85 || n == 0xA0 ||
    n == 0x1680 || (0x2000 <= n <= 0x200A) || n == 0x2028 || n == 0x2029 ||
    n == 0x202F || n == 0x205F || n == 0x3000
  }

  predicate IsDigit(c: char) {
    '0' <= c <= '9'
  }

  function DigitValue(c: char): (d: nat)
    requires IsDigit(c)
    ensures d < 10
  {
    c as int - '0' as int
  }

  function DigitChar(d: nat): (c: char)
    requires d < 10
    ensures IsDigit(c) && DigitValue(c) == d
  {
    ('0' as int + d) as char
  }

  /** Lower-casing of one character: ASCII and the Latin-1 upper-case letters. */
  function LowerChar(c: char): char {
    var n := c as int;
    if 'A' as int <= n <= 'Z' as int || (0xC0 <= n <= 0xDE && n != 0xD7) then (n + 32) as char else c
  }

  function Lower(s: string): (r: string)
    ensures |r| == |s|
    ensures forall i :: 0 <= i < |s| ==> r[i] == LowerChar(s[i])
  {
    if s == [] then [] else [LowerChar(s[0])] + Lower(s[1..])
  }

  predicate AllSpace(s: string) {
    forall i :: 0 <= i < |s| ==> IsSpace(s[i])
  }

  predicate AllDigits(s: string) {
    forall i :: 0 <= i < |s| ==> IsDigit(s[i])
  }

  predicate NoSpace(s: string) {
    forall i :: 0 <= i < |s| ==> !IsSpace(s[i])
  }

  // ---------------------------------------------------------------------------
  // Character ranges of a string

  /** `s[i..j]` is whitespace. */
  predicate Spaces(s: string, i: nat, j: nat) {
    i <= j <= |s| && forall k :: i <= k < j ==> IsSpace(s[k])
  }

  /** `s[i..j]` is ASCII digits. */
  predicate Digits(s: string, i: nat, j: nat) {
    i <= j <= |s| && forall k :: i <= k < j ==> IsDigit(s[k])
  }

  /** `s[i..j]` holds no newline (what `.` matches without DOTALL). */
  predicate NoNewline(s: string, i: nat, j: nat) {
    i <= j <= |s| && forall k :: i <= k < j ==> s[k] != '\n'
  }

  /** `$` without MULTILINE: at the end of the text or just before a final newline. */
  predicate DollarAt(s: string, k: nat) {
    k == |s| || (k == |s| - 1 && s[k] == '\n')
  }

  // ---------------------------------------------------------------------------
  // re.search

  /** The scan of re.search: the leftmost start in `i..n` at which the pattern matches. */
  function Leftmost(n: nat, i: nat, matchAt: nat -> bool): (r: Option<nat>)
    requires i <= n
    ensures r.Some? ==> i <= r.value <= n && matchAt(r.value) &&
                        forall k :: i <= k < r.value ==> !matchAt(k)
    ensures r.None? ==> forall k :: i <= k <= n ==> !matchAt(k)
    decreases n - i
  {
    if matchAt(i) then Some(i)
    else if i < n then Leftmost(n, i + 1, matchAt)
    else None
  }

  // ---------------------------------------------------------------------------
  // Substrings

  /** Python's `sub in s`: `sub` occurs at some position of `s`. */
  predicate Contains(s: string, sub: string) {
    exists i :: 0 <= i <= |s| - |sub| && sub <= s[i..]
  }

  /** Python's s.find(sub, i): the first position from `i` on where `sub` occurs, or -1. */
  function FindFrom(s: string, sub: string, i: nat): (r: int)
    requires i <= |s|
    ensures r == -1 || (i <= r <= |s| - |sub| && sub <= s[r..])
    ensures r == -1 ==> forall j :: i <= j <= |s| - |sub| ==> !(sub <= s[j..])
    ensures r != -1 ==> forall j :: i <= j < r ==> !(sub <= s[j..])
    decreases |s| - i
  {
    if i + |sub| > |s| then -1
    else if sub <= s[i..] then i
    else FindFrom(s, sub, i + 1)
  }

  /** Python's s.find(sub). */
  function Find(s: string, sub: string): int {
    FindFrom(s, sub, 0)
  }

  /** s.find(sub) >= 0 is the same test as `sub in s`. */
  lemma FindIffContains(s: string, sub: string)
    ensures Find(s, sub) >= 0 <==> Contains(s, sub)
  {
    if Find(s, sub) >= 0 {
      assert 0 <= Find(s, sub) <= |s| - |sub| && sub <= s[Find(s, sub)..];
    }
  }

  // ---------------------------------------------------------------------------
  // Runs

  /** End of the maximal run of whitespace starting at `i`. */
  function SpaceRunEnd(s: string, i: nat): (j: nat)
    requires i <= |s|
    ensures i <= j <= |s|
    ensures forall k :: i <= k < j ==> IsSpace(s[k])
    ensures j == |s| || !IsSpace(s[j])
    decreases |s| - i
  {
    if i < |s| && IsSpace(s[i]) then SpaceRunEnd(s, i + 1) else i
  }

  /** End of the maximal run of digits starting at `i`. */
  function DigitRunEnd(s: string, i: nat): (j: nat)
    requires i <= |s|
    ensures i <= j <= |s|
    ensures forall k :: i <= k < j ==> IsDigit(s[k])
    ensures j == |s| || !IsDigit(s[j])
    decreases |s| - i
  {
    if i < |s| && IsDigit(s[i]) then DigitRunEnd(s, i + 1) else i
  }

  /** A run end is determined by the run: any `j` with spaces before it and none at it is the end. */
  lemma SpaceRunEndUnique(s: string, i: nat, j: nat)
    requires i <= j <= |s|
    requires forall k :: i <= k < j ==> IsSpace(s[k])
    requires j == |s| || !IsSpace(s[j])
    ensures SpaceRunEnd(s, i) == j
    decreases j - i
  {
    if i < j {
      SpaceRunEndUnique(s, i + 1, j);
    }
  }

  lemma DigitRunEndUnique(s: string, i: nat, j: nat)
    requires i <= j <= |s|
    requires forall k :: i <= k < j ==> IsDigit(s[k])
    requires j == |s| || !IsDigit(s[j])
    ensures DigitRunEnd(s, i) == j
    decreases j - i
  {
    if i < j {
      DigitRunEndUnique(s, i + 1, j);
    }
  }

  // ---------------------------------------------------------------------------
  // Decimal numbers

  /** Python's int() of a string of ASCII digits (leading zeros allowed). */
  function DigitsValue(s: string): nat
    requires AllDigits(s)
  {
    if s == [] then 0 else DigitsValue(s[..|s| - 1]) * 10 + DigitValue(s[|s| - 1])
  }

  /** int() of the digits `s[i..j]`. */
  function RunValue(s: string, i: nat, j: nat): nat
    requires i <= j <= |s|
    requires forall k :: i <= k < j ==> IsDigit(s[k])
  {
    assert AllDigits(s[i..j]) by {
      forall k | 0 <= k < j - i ensures IsDigit(s[i..j][k]) {
        assert s[i..j][k] == s[i + k];
      }
    }
    DigitsValue(s[i..j])
  }
  /** Digits joined to digits are digits, and digits hold no whitespace. */
  lemma AllDigitsConcat(a: string, b: string)
    requires AllDigits(a) && AllDigits(b)
    ensures AllDigits(a + b) && NoSpace(a + b)
  {
    forall k | 0 <= k < |a + b| ensures IsDigit((a + b)[k]) {
      if k >= |a| {
        assert (a + b)[k] == b[k - |a|];
      }
    }
  }

  /** Strings without whitespace joined together have none. */
  lemma NoSpaceConcat(a: string, b: string)
    requires NoSpace(a) && NoSpace(b)
    ensures NoSpace(a + b)
  {
    forall k | 0 <= k < |a + b| ensures !IsSpace((a + b)[k]) {
      if k >= |a| {
        assert (a + b)[k] == b[k - |a|];
      }
    }
  }

  /** Reading a field of digits `x` at `i` when the text from `i` on is `x` followed by `rest`:
      its value is the value of `x`, and what follows is `rest`. */
  lemma FieldAt(s: string, i: nat, x: string, rest: string)
    requires i <= |s| && s[i..] == x + rest && AllDigits(x)
    ensures i + |x| <= |s| && RunValue(s, i, i + |x|) == DigitsValue(x) && s[i + |x|..] == rest
  {
    forall k | i <= k < i + |x| ensures IsDigit(s[k]) {
      assert s[k] == s[i..][k - i];
    }
    assert s[i..i + |x|] == s[i..][..|x|];
    assert s[i + |x|..] == s[i..][|x|..];
  }



  /** Python's str() of a non-negative integer; int() reads it back. */
  function NatToString(n: nat): (r: string)
    ensures |r| >= 1 && AllDigits(r)
    ensures DigitsValue(r) == n
    ensures r[0] == '0' ==> n == 0
  {
    if n < 10 then [DigitChar(n)]
    else
      var r := NatToString(n / 10) + [DigitChar(n % 10)];
      assert r[..|r| - 1] == NatToString(n / 10);
      r
  }

  /** Zero-padded decimal of at least `width` characters (strftime's %m, %d, %H, %M, %Y). */
  function Padded(n: nat, width: nat): (r: string)
    ensures AllDigits(r) && |r| >= width
    ensures DigitsValue(r) == n
  {
    var digits := NatToString(n);
    if |digits| >= width then digits
    else
      var r := seq(width - |digits|, _ => '0') + digits;
      LeadingZeros(width - |digits|, digits);
      r
  }

  lemma {:induction false} LeadingZeros(k: nat, digits: string)
    requires AllDigits(digits)
    ensures AllDigits(seq(k, _ => '0') + digits)
    ensures DigitsValue(seq(k, _ => '0') + digits) == DigitsValue(digits)
    decreases |digits|
  {
    var zs: string := seq(k, _ => '0');
    if digits == [] {
      assert zs + digits == zs;
      ZerosValue(k);
    } else {
      var s := zs + digits;
      assert s[..|s| - 1] == zs + digits[..|digits| - 1];
      LeadingZeros(k, digits[..|digits| - 1]);
    }
  }

  lemma {:induction false} ZerosValue(k: nat)
    ensures AllDigits(seq(k, _ => '0'))
    ensures DigitsValue(seq(k, _ => '0')) == 0
  {
    if k > 0 {
      var zs: string := seq(k, _ => '0');
      assert zs[..k - 1] == seq(k - 1, _ => '0');
      ZerosValue(k - 1);
    }
  }

  // ---------------------------------------------------------------------------
  // Strip

  /** Start of the maximal run of whitespace that ends at `j`. */
  function SpaceRunStart(s: string, j: nat): (i: nat)
    requires j <= |s|
    ensures i <= j && Spaces(s, i, j)
    ensures i == 0 || !IsSpace(s[i - 1])
    decreases j
  {
    if j > 0 && IsSpace(s[j - 1]) then SpaceRunStart(s, j - 1) else j
  }

  lemma {:induction false} SpaceRunStartUnique(s: string, i: nat, j: nat)
    requires i <= j <= |s| && Spaces(s, i, j)
    requires i == 0 || !IsSpace(s[i - 1])
    ensures SpaceRunStart(s, j) == i
    decreases j - i
  {
    if i < j {
      SpaceRunStartUnique(s, i, j - 1);
    }
  }

  /** Python's str.strip() with no argument: what lies between the leading and the trailing
      whitespace runs. */
  function Strip(s: string): (r: string)
    ensures r == [] || (!IsSpace(r[0]) && !IsSpace(r[|r| - 1]))
  {
    var a := SpaceRunEnd(s, 0);
    var b := SpaceRunStart(s, |s|);
    if a < b then s[a..b] else []
  }

  /** strip() is determined by where the text starts and ends: any cut with whitespace only
      outside it and none at its edges is the stripped text. */
  lemma {:induction false} StripUnique(s: string, i: nat, j: nat)
    requires i <= j <= |s| && Spaces(s, 0, i) && Spaces(s, j, |s|)
    requires i == j || (!IsSpace(s[i]) && !IsSpace(s[j - 1]))
    ensures Strip(s) == s[i..j]
  {
    if i == j {
      assert Spaces(s, 0, |s|) by {
        forall k | 0 <= k < |s| ensures IsSpace(s[k]) {
          if k >= i {
            assert j <= k;
          }
        }
      }
      SpaceRunEndUnique(s, 0, |s|);
      SpaceRunStartUnique(s, 0, |s|);
    } else {
      SpaceRunEndUnique(s, 0, i);
      SpaceRunStartUnique(s, j, |s|);
    }
  }

  /** strip() removes a whitespace prefix and a whitespace suffix and nothing else. */
  lemma {:induction false} StripIsSlice(s: string) returns (i: nat, j: nat)
    ensures i <= j <= |s| && Strip(s) == s[i..j] && Spaces(s, 0, i) && Spaces(s, j, |s|)
  {
    var a := SpaceRunEnd(s, 0);
    var b := SpaceRunStart(s, |s|);
    if a < b {
      i, j := a, b;
    } else {
      i, j := a, a;
    }
  }

  /** Whitespace in `t[1..]` is whitespace in `t`, one position on. */
  lemma SpacesShift(t: string, i: nat, j: nat)
    requires |t| > 0 && Spaces(t[1..], i, j)
    ensures Spaces(t, i + 1, j + 1)
  {
    forall k | i + 1 <= k < j + 1 ensures IsSpace(t[k]) {
      assert t[k] == t[1..][k - 1];
    }
  }

  /** A leading whitespace character does not change what strip() returns. */
  lemma {:induction false} StripDropSpace(t: string)
    requires |t| > 0 && IsSpace(t[0])
    ensures Strip(t) == Strip(t[1..])
  {
    var u := t[1..];
    var i, j := StripIsSlice(u);
    SpacesShift(t, 0, i);
    SpacesShift(t, j, |u|);
    if i < j {
      assert t[i + 1] == u[i] && t[j] == u[j - 1];
    }
    StripUnique(t, i + 1, j + 1);
    assert t[i + 1..j + 1] == u[i..j];
  }

  /** Whitespace in front of a suffix does not change what strip() returns. */
  lemma {:induction false} StripAfterSpaces(s: string, a: nat, g: nat, e: nat)
    requires a <= g <= e <= |s| && Spaces(s, a, g)
    ensures Strip(s[a..e]) == Strip(s[g..e])
    decreases g - a
  {
    if a < g {
      assert s[a..e][1..] == s[a + 1..e];
      StripDropSpace(s[a..e]);
      StripAfterSpaces(s, a + 1, g, e);
    }
  }

  /** Whitespace in front of the rest of the text does not change what strip() returns. */
  lemma StripRestAfterSpaces(s: string, a: nat, g: nat)
    requires a <= g <= |s| && Spaces(s, a, g)
    ensures Strip(s[a..]) == Strip(s[g..|s|])
  {
    assert s[a..] == s[a..|s|];
    StripAfterSpaces(s, a, g, |s|);
  }

  /** Stripping a string that neither starts nor ends with whitespace leaves it as it is. */
  lemma {:induction false} StripNoEdges(s: string)
    requires s == [] || (!IsSpace(s[0]) && !IsSpace(s[|s| - 1]))
    ensures Strip(s) == s
  {
    StripUnique(s, 0, |s|);
  }

  // ---------------------------------------------------------------------------
  // Split and join on one separator character

  /** Python's s.split(sep) for a one-character separator: the pieces between separators. */
  function Split(s: string, sep: char): (r: seq<string>)
    ensures |r| >= 1
    ensures forall k :: 0 <= k < |r| ==> sep !in r[k]
    decreases |s|
  {
    if s == [] then [""]
    else
      var rest := Split(s[1..], sep);
      if s[0] == sep then [""] + rest
      else [[s[0]] + rest[0]] + rest[1..]
  }

  /** Joins pieces with a one-character separator (Python's sep.join(pieces)). */
  function Join(pieces: seq<string>, sep: char): string
    decreases |pieces|
  {
    if pieces == [] then ""
    else if |pieces| == 1 then pieces[0]
    else pieces[0] + [sep] + Join(pieces[1..], sep)
  }

  /** Split undoes Join when no piece holds the separator. */
  lemma {:induction false} SplitJoin(pieces: seq<string>, sep: char)
    requires |pieces| >= 1
    requires forall k :: 0 <= k < |pieces| ==> sep !in pieces[k]
    ensures Split(Join(pieces, sep), sep) == pieces
    decreases |pieces|
  {
    if |pieces| == 1 {
      SplitNoSep(pieces[0], sep);
    } else {
      SplitJoin(pieces[1..], sep);
      SplitPrefix(pieces[0], Join(pieces[1..], sep), sep);
    }
  }

  /** Joining whitespace-free pieces with a non-space separator gives a whitespace-free text. */
  lemma {:induction false} JoinNoSpace(pieces: seq<string>, sep: char)
    requires !IsSpace(sep)
    requires forall k :: 0 <= k < |pieces| ==> NoSpace(pieces[k])
    ensures NoSpace(Join(pieces, sep))
    decreases |pieces|
  {
    if |pieces| > 1 {
      JoinNoSpace(pieces[1..], sep);
      NoSpaceConcat(pieces[0], [sep]);
      NoSpaceConcat(pieces[0] + [sep], Join(pieces[1..], sep));
    }
  }

  lemma {:induction false} SplitNoSep(s: string, sep: char)
    requires sep !in s
    ensures Split(s, sep) == [s]
    decreases |s|
  {
    if s != [] {
      SplitNoSep(s[1..], sep);
      assert [s[0]] + s[1..] == s;
    }
  }

  /** Splitting `a + [sep] + b`, with no separator in `a`, yields `a` then the pieces of `b`. */
  lemma {:induction false} SplitPrefix(a: string, b: string, sep: char)
    requires sep !in a
    ensures Split(a + [sep] + b, sep) == [a] + Split(b, sep)
    decreases |a|
  {
    var s := a + [sep] + b;
    if a == [] {
      assert s[1..] == b;
    } else {
      assert s[1..] == a[1..] + [sep] + b;
      SplitPrefix(a[1..], b, sep);
      assert [a[0]] + a[1..] == a;
    }
  }

  /** Splitting a non-empty string: its first character either ends the first piece or joins it. */
  lemma SplitCons(s: string, sep: char)
    requires s != []
    ensures var rest := Split(s[1..], sep);
            Split(s, sep) == if s[0] == sep then [""] + rest else [[s[0]] + rest[0]] + rest[1..]
  {
  }

  /** Splitting a concatenation around a separator splits each side. */
  lemma {:induction false} SplitConcat(a: string, b: string, sep: char)
    ensures Split(a + [sep] + b, sep) == Split(a, sep) + Split(b, sep)
    decreases |a|
  {
    var s := a + [sep] + b;
    SplitCons(s, sep);
    if a == [] {
      assert s[1..] == b;
    } else {
      SplitCons(a, sep);
      assert s[1..] == a[1..] + [sep] + b;
      SplitConcat(a[1..], b, sep);
      var ra, rb := Split(a[1..], sep), Split(b, sep);
      var rs := Split(s[1..], sep);
      assert rs == ra + rb;
      if a[0] != sep {
        assert rs[0] == ra[0];
        assert rs[1..] == ra[1..] + rb;
      }
    }
  }

  // ---------------------------------------------------------------------------
  // Whitespace collapsing

  /** re.sub(r"\s+", " ", s): every maximal whitespace run becomes one space. */
  function CollapseSpaces(s: string): (r: string)
    ensures |r| <= |s|
    decreases |s|
  {
    if s == [] then []
    else if IsSpace(s[0]) then [' '] + CollapseSpaces(s[SpaceRunEnd(s, 0)..])
    else [s[0]] + CollapseSpaces(s[1..])
  }

  /** No two adjacent whitespace characters, and the only whitespace character is ' '. */
  predicate Collapsed(s: string) {
    (forall i :: 0 <= i < |s| && IsSpace(s[i]) ==> s[i] == ' ') &&
    (forall i :: 0 <= i < |s| - 1 ==> !(IsSpace(s[i]) && IsSpace(s[i + 1])))
  }

  /** The characters of `s` other than whitespace, in order. */
  function NonSpace(s: string): string
    decreases |s|
  {
    if s == [] then [] else (if IsSpace(s[0]) then [] else [s[0]]) + NonSpace(s[1..])
  }

  lemma {:induction false} NonSpaceOfSpaces(s: string)
    requires AllSpace(s)
    ensures NonSpace(s) == []
    decreases |s|
  {
    if s != [] {
      NonSpaceOfSpaces(s[1..]);
    }
  }

  lemma {:induction false} NonSpaceConcat(a: string, b: string)
    ensures NonSpace(a + b) == NonSpace(a) + NonSpace(b)
    decreases |a|
  {
    if a != [] {
      assert (a + b)[1..] == a[1..] + b;
      NonSpaceConcat(a[1..], b);
    } else {
      assert a + b == b;
    }
  }

  /** Collapsing leaves a collapsed string that keeps every non-whitespace character in order. */
  lemma {:induction false} CollapseSpacesSpec(s: string)
    ensures Collapsed(CollapseSpaces(s))
    ensures NonSpace(CollapseSpaces(s)) == NonSpace(s)
    ensures CollapseSpaces(s) == [] || s != []
    ensures s != [] && IsSpace(s[0]) ==> CollapseSpaces(s)[0] == ' '
    ensures s != [] && !IsSpace(s[0]) ==> CollapseSpaces(s)[0] == s[0]
    decreases |s|
  {
    if s == [] {
    } else if IsSpace(s[0]) {
      var k := SpaceRunEnd(s, 0);
      var rest := CollapseSpaces(s[k..]);
      CollapseSpacesSpec(s[k..]);
      assert s == s[..k] + s[k..];
      NonSpaceConcat(s[..k], s[k..]);
      NonSpaceOfSpaces(s[..k]);
      NonSpaceConcat([' '], rest);
      assert rest != [] ==> !IsSpace(rest[0]) by {
        if rest != [] {
          assert k < |s|;
          assert !IsSpace(s[k..][0]);
        }
      }
    } else {
      var rest := CollapseSpaces(s[1..]);
      CollapseSpacesSpec(s[1..]);
      assert s == [s[0]] + s[1..];
      NonSpaceConcat([s[0]], s[1..]);
      NonSpaceConcat([s[0]], rest);
    }
  }

  /** Collapsing distributes over a non-whitespace separator character. */
  lemma {:induction false} CollapseAround(a: string, c: char, b: string)
    requires !IsSpace(c)
    ensures CollapseSpaces(a + [c] + b) == CollapseSpaces(a) + [c] + CollapseSpaces(b)
    decreases |a|
  {
    var s := a + [c] + b;
    if a == [] {
      assert s[1..] == b;
    } else if IsSpace(a[0]) {
      var k := SpaceRunEnd(a, 0);
      assert forall i :: 0 <= i < k ==> s[i] == a[i];
      if k < |a| {
        SpaceRunEndUnique(s, 0, k);
      } else {
        assert s[k] == c;
        SpaceRunEndUnique(s, 0, k);
      }
      assert s[k..] == a[k..] + [c] + b;
      CollapseAround(a[k..], c, b);
    } else {
      assert s[1..] == a[1..] + [c] + b;
      CollapseAround(a[1..], c, b);
    }
  }

  /** Any piece of a collapsed string is collapsed. */
  lemma CollapsedSlice(s: string, i: nat, j: nat)
    requires i <= j <= |s| && Collapsed(s)
    ensures Collapsed(s[i..j])
  {
    var t := s[i..j];
    forall k | 0 <= k < |t| - 1 ensures !(IsSpace(t[k]) && IsSpace(t[k + 1])) {
      assert t[k] == s[i + k] && t[k + 1] == s[i + k + 1];
    }
    forall k | 0 <= k < |t| && IsSpace(t[k]) ensures t[k] == ' ' {
      assert t[k] == s[i + k];
    }
  }

  /** Stripping a collapsed string leaves it collapsed. */
  lemma StripCollapsed(s: string)
    requires Collapsed(s)
    ensures Collapsed(Strip(s))
  {
    var i, j := StripIsSlice(s);
    CollapsedSlice(s, i, j);
  }

  /** Collapsed, with no whitespace at either end. */
  predicate Normal(r: string) {
    Collapsed(r) && (r == [] || (!IsSpace(r[0]) && !IsSpace(r[|r| - 1])))
  }

  /** Collapsing then stripping leaves a collapsed text with no whitespace at either end. */
  lemma Normalised(s: string)
    ensures Normal(Strip(CollapseSpaces(s)))
  {
    CollapseSpacesSpec(s);
    StripCollapsed(CollapseSpaces(s));
  }

  /** A text without whitespace is already normal. */
  lemma NormalisedPlain(s: string)
    requires NoSpace(s)
    ensures Strip(CollapseSpaces(s)) == s
  {
    CollapseNoSpace(s);
    StripNoEdges(s);
  }

  /** A string without whitespace is left as it is. */
  lemma {:induction false} CollapseNoSpace(s: string)
    requires NoSpace(s)
    ensures CollapseSpaces(s) == s
    decreases |s|
  {
    if s != [] {
      CollapseNoSpace(s[1..]);
      assert [s[0]] + s[1..] == s;
    }
  }
}
