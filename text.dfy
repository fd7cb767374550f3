/** String operations the scrapers and the dashboard rely on, with Python's meaning:
    `str(int)`, `sep.join(parts)`, `s.split(sep)`, `p in s` and `s.strip()`. */
module Text {
  import opened Wrappers

  // ---------------------------------------------------------------------------
  // Decimal rendering of integers, as `str(n)` and `"{}".format(n)` produce it
  // ---------------------------------------------------------------------------

  function DigitChar(d: nat): char
    requires d < 10
  {
    "0123456789"[d]
  }

  predicate IsDigit(c: char) {
    '0' <= c <= '9'
  }

  function DigitValue(c: char): nat
    requires IsDigit(c)
  {
    (c as int - '0' as int) as nat
  }

  /** Decimal digits of `n`, most significant first, no leading zeros. */
  function NatToString(n: nat): (s: string)
    ensures |s| > 0
    ensures forall i :: 0 <= i < |s| ==> IsDigit(s[i])
  {
    if n < 10 then [DigitChar(n)] else NatToString(n / 10) + [DigitChar(n % 10)]
  }

  /** `str(n)` for a Python int: a minus sign before the digits of a negative number. */
  function IntToString(n: int): (s: string)
    ensures |s| > 0
    ensures forall i :: 0 <= i < |s| ==> IsDigit(s[i]) || s[i] == '-'
  {
    if n < 0 then "-" + NatToString(-n) else NatToString(n)
  }

  /** Reads a string of decimal digits back as a number. */
  function ParseNat(s: string): nat
    requires forall i :: 0 <= i < |s| ==> IsDigit(s[i])
  {
    if s == [] then 0 else 10 * ParseNat(s[..|s| - 1]) + DigitValue(s[|s| - 1])
  }

  /** Reads the output of `IntToString` back. */
  function ParseInt(s: string): int
    requires |s| > 0
    requires forall i :: 1 <= i < |s| ==> IsDigit(s[i])
    requires IsDigit(s[0]) || s[0] == '-'
  {
    if s[0] == '-' then -(ParseNat(s[1..]) as int) else ParseNat(s)
  }

  lemma {:induction false} NatRoundTrip(n: nat)
    ensures ParseNat(NatToString(n)) == n
  {
    if n >= 10 {
      var s := NatToString(n);
      assert s[..|s| - 1] == NatToString(n / 10);
      NatRoundTrip(n / 10);
    }
  }

  /** Reading the decimal form back gives the number: the rendering loses nothing. */
  lemma IntRoundTrip(n: int)
    ensures ParseInt(IntToString(n)) == n
  {
    if n < 0 {
      assert IntToString(n)[1..] == NatToString(-n);
      NatRoundTrip(-n);
    } else {
      NatRoundTrip(n);
    }
  }

  /** Distinct integers render as distinct strings. */
  lemma IntToStringInjective(a: int, b: int)
    requires IntToString(a) == IntToString(b)
    ensures a == b
  {
    IntRoundTrip(a);
    IntRoundTrip(b);
  }

  /** If two strings agree after a character `c` that neither prefix contains, the prefixes agree. */
  lemma SplitAtMarker(a: string, b: string, c: char, x: string, y: string)
    requires c !in a && c !in b
    requires a + [c] + x == b + [c] + y
    ensures a == b && x == y
  {
    var s := a + [c] + x;
    FirstMarker(a, c, x);
    FirstMarker(b, c, y);
    assert a == s[..|a|] == b;
    assert x == s[|a| + 1..] == y;
  }

  /** The first `c` in `a + [c] + x` is the one after `a`, when `a` holds no `c`. */
  lemma FirstMarker(a: string, c: char, x: string)
    requires c !in a
    ensures FirstIndex(a + [c] + x, [c]) == Some(|a|)
  {
    var s := a + [c] + x;
    assert OccursAt(s, [c], |a|);
    forall i | 0 <= i < |a|
      ensures !OccursAt(s, [c], i)
    {
      assert s[i..i + 1] == [a[i]];
    }
    ContainsIff(s, [c]);
  }

  // ---------------------------------------------------------------------------
  // Searching for a substring: `p in s` and `s.find(p)`
  // ---------------------------------------------------------------------------

  /** `p` occurs in `s` starting at position `i`. */
  predicate OccursAt(s: string, p: string, i: int) {
    0 <= i && i + |p| <= |s| && s[i..i + |p|] == p
  }

  /** The first position at which `p` occurs in `s`, or `None` (Python's `s.find(p) == -1`). */
  function FirstIndex(s: string, p: string): (r: Option<nat>)
    ensures r.Some? ==> OccursAt(s, p, r.value)
    ensures r.Some? ==> forall i :: 0 <= i < r.value ==> !OccursAt(s, p, i)
    decreases |s|
  {
    if |s| < |p| then None
    else if s[..|p|] == p then Some(0)
    else match FirstIndex(s[1..], p)
      case None => None
      case Some(i) =>
        assert forall j :: 1 <= j <= i ==> (OccursAt(s, p, j) <==> OccursAt(s[1..], p, j - 1));
        Some(i + 1)
  }

  /** `p in s` for Python strings. */
  predicate Contains(s: string, p: string) {
    FirstIndex(s, p).Some?
  }

  /** `Contains` holds exactly when `p` occurs at some position of `s`. */
  lemma {:induction false} ContainsIff(s: string, p: string)
    ensures Contains(s, p) <==> exists i :: OccursAt(s, p, i)
    decreases |s|
  {
    if |s| < |p| {
      assert forall i :: !OccursAt(s, p, i);
    } else if s[..|p|] == p {
      assert OccursAt(s, p, 0);
    } else {
      ContainsIff(s[1..], p);
      assert Contains(s, p) <==> Contains(s[1..], p);
      if exists i :: OccursAt(s, p, i) {
        var i :| OccursAt(s, p, i);
        assert i != 0 by {
          assert s[0..|p|] == s[..|p|];
        }
        assert s[1..][i - 1..i - 1 + |p|] == s[i..i + |p|];
        assert OccursAt(s[1..], p, i - 1);
      }
      if Contains(s[1..], p) {
        var i :| OccursAt(s[1..], p, i);
        assert s[i + 1..i + 1 + |p|] == s[1..][i..i + |p|];
        assert OccursAt(s, p, i + 1);
      }
    }
  }

  // ---------------------------------------------------------------------------
  // `sep.join(parts)` and `s.split(sep)`
  // ---------------------------------------------------------------------------

  /** The separator the scrapers put between tag names. */
  const TagSeparator: string := ", "

  /** `sep.join(parts)`: the parts in order with `sep` between neighbours; `""` for no parts. */
  function Join(parts: seq<string>, sep: string): string {
    if parts == [] then ""
    else if |parts| == 1 then parts[0]
    else parts[0] + sep + Join(parts[1..], sep)
  }

  /** `s.split(sep)` for a non-empty `sep`: the pieces between non-overlapping occurrences, left to right. */
  function Split(s: string, sep: string): seq<string>
    requires sep != []
    decreases |s|
  {
    match FirstIndex(s, sep)
    case None => [s]
    case Some(i) => [s[..i]] + Split(s[i + |sep|..], sep)
  }

  /** In `t + ", " + r` the first separator is the one after `t`, when `t` holds none itself. */
  lemma {:induction false} FirstTagSeparator(t: string, r: string)
    requires !Contains(t, TagSeparator)
    ensures FirstIndex(t + TagSeparator + r, TagSeparator) == Some(|t|)
    decreases |t|
  {
    var s := t + TagSeparator + r;
    if |t| > 0 {
      if |t| >= 2 {
        assert s[..2] == t[..2];
        assert t[..2] != TagSeparator;
      } else {
        assert s[..2] == [t[0], ','];
      }
      assert !Contains(t[1..], TagSeparator) by {
        if |t| >= 2 { assert FirstIndex(t, TagSeparator) == None; }
      }
      FirstTagSeparator(t[1..], r);
      assert s[1..] == t[1..] + TagSeparator + r;
    } else {
      assert s[..2] == TagSeparator;
    }
  }

  /** Splitting joined tag names on `", "` gives the names back, when none of them contains `", "`
      and there is at least one (both `[]` and `[""]` join to `""`). */
  lemma {:induction false} JoinSplitRoundTrip(parts: seq<string>)
    requires parts != []
    requires forall i :: 0 <= i < |parts| ==> !Contains(parts[i], TagSeparator)
    ensures Split(Join(parts, TagSeparator), TagSeparator) == parts
  {
    if |parts| == 1 {
      assert FirstIndex(parts[0], TagSeparator) == None;
    } else {
      var rest := Join(parts[1..], TagSeparator);
      FirstTagSeparator(parts[0], rest);
      var s := parts[0] + TagSeparator + rest;
      assert s[..|parts[0]|] == parts[0];
      assert s[|parts[0]| + 2..] == rest;
      JoinSplitRoundTrip(parts[1..]);
    }
  }

  /** A tag name that contains the separator cannot be told apart from two tags. */
  lemma JoinIsLossyForSeparatorInName()
    ensures Join(["a, b"], TagSeparator) == Join(["a", "b"], TagSeparator)
  {
  }

  // ---------------------------------------------------------------------------
  // `s.strip()`
  // ---------------------------------------------------------------------------

  /** The characters Python's `str.isspace()` accepts, which `str.strip()` removes. */
  predicate IsPythonSpace(c: char) {
    || ('\t' <= c <= '\r')
    || ('\U{1C}' <= c <= ' ')
    || c == '\U{85}' || c == '\U{A0}' || c == '\U{1680}'
    || ('\U{2000}' <= c <= '\U{200A}')
    || c == '\U{2028}' || c == '\U{2029}' || c == '\U{202F}' || c == '\U{205F}' || c == '\U{3000}'
  }

  function StripLeft(s: string): string {
    if s != [] && IsPythonSpace(s[0]) then StripLeft(s[1..]) else s
  }

  function StripRight(s: string): string {
    if s != [] && IsPythonSpace(s[|s| - 1]) then StripRight(s[..|s| - 1]) else s
  }

  /** `s.strip()`. */
  function Strip(s: string): string {
    StripRight(StripLeft(s))
  }

  /** `s.strip() == ""` exactly when every character of `s` is white space. */
  lemma StripEmptyIffBlank(s: string)
    ensures Strip(s) == "" <==> forall i :: 0 <= i < |s| ==> IsPythonSpace(s[i])
  {
    StripLeftEmpty(s);
    StripRightKeepsNonEmpty(StripLeft(s));
  }

  lemma {:induction false} StripLeftEmpty(s: string)
    ensures StripLeft(s) == "" <==> forall i :: 0 <= i < |s| ==> IsPythonSpace(s[i])
    ensures StripLeft(s) != "" ==> !IsPythonSpace(StripLeft(s)[0])
  {
    if s != [] && IsPythonSpace(s[0]) {
      StripLeftEmpty(s[1..]);
      assert forall i :: 1 <= i < |s| ==> s[i] == s[1..][i - 1];
    }
  }

  lemma {:induction false} StripRightKeepsNonEmpty(s: string)
    requires s != [] ==> !IsPythonSpace(s[0])
    ensures StripRight(s) == "" <==> s == ""
  {
    if s != [] && IsPythonSpace(s[|s| - 1]) {
      assert |s| > 1;
      StripRightKeepsNonEmpty(s[..|s| - 1]);
    }
  }
}
