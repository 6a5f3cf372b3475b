/** Character classes and the parts of Python's `str` that the scraper relies
    on: `strip()`, `lower()`, `startswith`, the `in` substring test and
    `split(sep)[0]`.  Digits are the ASCII digits and whitespace is a fixed
    small set (see README). */
module Strings {

  /** The whitespace characters matched by `\s` and removed by `str.strip()`. */
  predicate IsWs(c: char) {
    c == ' ' || c == '\t' || c == '\n' || c == '\r' || c == '\U{000B}' || c == '\U{000C}' || c == '\U{00A0}'
  }

  predicate IsDigit(c: char) {
    '0' <= c <= '9'
  }

  predicate AllDigits(s: string) {
    forall i | 0 <= i < |s| :: IsDigit(s[i])
  }

  predicate NoDigit(s: string) {
    forall i | 0 <= i < |s| :: !IsDigit(s[i])
  }

  predicate AllWs(s: string) {
    forall i | 0 <= i < |s| :: IsWs(s[i])
  }

  predicate NoWs(s: string) {
    forall i | 0 <= i < |s| :: !IsWs(s[i])
  }

  function DigitValue(c: char): nat
    requires IsDigit(c)
  {
    c as int - '0' as int
  }

  function DigitChar(d: nat): (c: char)
    requires d < 10
    ensures IsDigit(c) && DigitValue(c) == d
  {
    ('0' as int + d) as char
  }

  /** The number a string of decimal digits denotes, most significant first. */
  function DigitsValue(s: string): nat
    requires AllDigits(s)
  {
    if s == [] then 0 else 10 * DigitsValue(s[..|s| - 1]) + DigitValue(s[|s| - 1])
  }

  function Pow10(n: nat): (r: nat)
    ensures r >= 1
  {
    if n == 0 then 1 else 10 * Pow10(n - 1)
  }

  /** `str(n)` for a natural number. */
  function NatToDigits(n: nat): (s: string)
    ensures |s| >= 1 && AllDigits(s)
  {
    if n < 10 then [DigitChar(n)] else NatToDigits(n / 10) + [DigitChar(n % 10)]
  }

  /** Reading back the rendering of a number gives the number. */
  lemma {:induction false} NatToDigitsRoundTrip(n: nat)
    ensures DigitsValue(NatToDigits(n)) == n
  {
    if n >= 10 {
      var s := NatToDigits(n);
      assert s[..|s| - 1] == NatToDigits(n / 10);
      NatToDigitsRoundTrip(n / 10);
    }
  }

  /** A k-digit string denotes a number below 10^k. */
  lemma {:induction false} DigitsValueBound(s: string)
    requires AllDigits(s)
    ensures DigitsValue(s) < Pow10(|s|)
  {
    if s != [] {
      DigitsValueBound(s[..|s| - 1]);
    }
  }

  /** Length of the longest run of digits at the start of `s`. */
  function DigitPrefixLen(s: string): (k: nat)
    ensures k <= |s| && AllDigits(s[..k]) && (k < |s| ==> !IsDigit(s[k]))
  {
    if s == [] || !IsDigit(s[0]) then 0
    else
      var k' := DigitPrefixLen(s[1..]);
      assert s[..1 + k'] == [s[0]] + s[1..][..k'];
      1 + k'
  }

  /** Length of the longest run of whitespace at the start of `s`. */
  function WsPrefixLen(s: string): (k: nat)
    ensures k <= |s| && AllWs(s[..k]) && (k < |s| ==> !IsWs(s[k]))
  {
    if s == [] || !IsWs(s[0]) then 0
    else
      var k' := WsPrefixLen(s[1..]);
      assert s[..1 + k'] == [s[0]] + s[1..][..k'];
      1 + k'
  }

  /** Length of the longest run of whitespace at the end of `s`. */
  function WsSuffixLen(s: string): (k: nat)
    ensures k <= |s| && AllWs(s[|s| - k..]) && (k < |s| ==> !IsWs(s[|s| - k - 1]))
  {
    if s == [] || !IsWs(s[|s| - 1]) then 0
    else
      var k' := WsSuffixLen(s[..|s| - 1]);
      WsSuffixStep(s, k');
      k' + 1
  }

  /** One more whitespace character at the end lengthens the run by one. */
  lemma WsSuffixStep(s: string, k': nat)
    requires s != [] && IsWs(s[|s| - 1])
    requires var init := s[..|s| - 1];
      k' <= |init| && AllWs(init[|init| - k'..]) && (k' < |init| ==> !IsWs(init[|init| - k' - 1]))
    ensures var k := k' + 1;
      k <= |s| && AllWs(s[|s| - k..]) && (k < |s| ==> !IsWs(s[|s| - k - 1]))
  {
    var init := s[..|s| - 1];
    var k := k' + 1;
    var tail := s[|s| - k..];
    forall i | 0 <= i < k ensures IsWs(tail[i]) {
      if i < k' {
        assert tail[i] == init[|init| - k'..][i];
      } else {
        assert tail[i] == s[|s| - 1];
      }
    }
    if k < |s| {
      assert s[|s| - k - 1] == init[|init| - k' - 1];
    }
  }

  lemma {:induction false} DigitPrefixLenOf(d: string, r: string)
    requires AllDigits(d)
    requires r == [] || !IsDigit(r[0])
    ensures DigitPrefixLen(d + r) == |d|
  {
    if d != [] {
      assert (d + r)[1..] == d[1..] + r;
      DigitPrefixLenOf(d[1..], r);
    }
  }

  lemma {:induction false} WsPrefixLenOf(w: string, r: string)
    requires AllWs(w)
    requires r == [] || !IsWs(r[0])
    ensures WsPrefixLen(w + r) == |w|
  {
    if w != [] {
      assert (w + r)[1..] == w[1..] + r;
      WsPrefixLenOf(w[1..], r);
    }
  }

  /** `s.strip()`: leading and trailing whitespace removed. */
  function Strip(s: string): (r: string)
  {
    var a := WsPrefixLen(s);
    s[a..][..|s| - a - WsSuffixLen(s[a..])]
  }

  /** The stripped string is the slice of `s` between its outer whitespace runs. */
  lemma StripSlice(s: string) returns (a: nat, b: nat)
    ensures a <= b <= |s| && Strip(s) == s[a..b]
    ensures AllWs(s[..a]) && AllWs(s[b..])
    ensures a < b ==> !IsWs(s[a]) && !IsWs(s[b - 1])
  {
    a := WsPrefixLen(s);
    var t := s[a..];
    var n := |t| - WsSuffixLen(t);
    b := a + n;
    SliceOfSlice(s, a, n);
    if a < b {
      DropIndex(s, a, 0);
      DropIndex(s, a, n - 1);
    }
  }

  /** Characters outside the whitespace set, in order. */
  function NonWs(s: string): (r: string)
    ensures NoWs(r) && |r| <= |s|
  {
    if s == [] then [] else (if IsWs(s[0]) then [] else [s[0]]) + NonWs(s[1..])
  }

  /** A string that starts with a visible character keeps it. */
  lemma NonWsOfVisibleStart(s: string)
    requires s != [] && !IsWs(s[0])
    ensures NonWs(s) != []
  {
    assert NonWs(s) == [s[0]] + NonWs(s[1..]);
  }

  /** A string with a visible character keeps some of it. */
  lemma NonWsOfVisible(s: string, j: nat)
    requires j < |s| && !IsWs(s[j])
    ensures NonWs(s) != []
  {
    assert s == s[..j] + s[j..];
    NonWsAppend(s[..j], s[j..]);
    NonWsOfVisibleStart(s[j..]);
  }

  lemma {:induction false} NonWsAppend(a: string, b: string)
    ensures NonWs(a + b) == NonWs(a) + NonWs(b)
  {
    if a == [] {
      assert a + b == b;
    } else {
      var h := if IsWs(a[0]) then [] else [a[0]];
      assert (a + b)[0] == a[0];
      assert (a + b)[1..] == a[1..] + b;
      NonWsAppend(a[1..], b);
      assert NonWs(a + b) == h + NonWs(a[1..] + b);
      assert NonWs(a) == h + NonWs(a[1..]);
      AppendAssoc(h, NonWs(a[1..]), NonWs(b));
    }
  }

  lemma {:induction false} NonWsOfAllWs(s: string)
    requires AllWs(s)
    ensures NonWs(s) == []
  {
    if s != [] {
      NonWsOfAllWs(s[1..]);
    }
  }

  lemma {:induction false} NonWsOfNoWs(s: string)
    requires NoWs(s)
    ensures NonWs(s) == s
  {
    if s != [] {
      NonWsOfNoWs(s[1..]);
    }
  }

  /** Stripping removes only whitespace. */
  lemma StripKeepsNonWs(s: string)
    ensures NonWs(Strip(s)) == NonWs(s)
  {
    var a, b := StripSlice(s);
    ThreeParts(s, a, b);
    AppendAssoc(s[..a], s[a..b], s[b..]);
    NonWsAppend(s[..a] + s[a..b], s[b..]);
    NonWsAppend(s[..a], s[a..b]);
    NonWsOfAllWs(s[..a]);
    NonWsOfAllWs(s[b..]);
  }

  /** A capital letter of ASCII or of the basic Cyrillic alphabet. */
  predicate IsUpper(c: char) {
    'A' <= c <= 'Z' || 'А' <= c <= 'Я' || c == 'Ё'
  }

  predicate NoUpper(s: string) {
    forall i | 0 <= i < |s| :: !IsUpper(s[i])
  }

  /** `str.lower()` on ASCII and on the basic Cyrillic alphabet: no capital
      letter is left, any other character stays as it is, and whitespace and
      digits are untouched. */
  function LowerChar(c: char): (r: char)
    ensures !IsUpper(r)
    ensures !IsUpper(c) ==> r == c
    ensures IsWs(r) <==> IsWs(c)
    ensures IsDigit(r) <==> IsDigit(c)
  {
    if 'A' <= c <= 'Z' || 'А' <= c <= 'Я' then (c as int + 32) as char
    else if c == 'Ё' then 'ё'
    else c
  }

  /** `s.lower()`: same length, and no capital letter left. */
  function Lower(s: string): (r: string)
    ensures |r| == |s| && NoUpper(r)
  {
    seq(|s|, i requires 0 <= i < |s| => LowerChar(s[i]))
  }

  /** Text without capital letters is its own lower case. */
  lemma LowerOfNoUpper(s: string)
    requires NoUpper(s)
    ensures Lower(s) == s
  {
  }

  /** Lower-casing twice is lower-casing once. */
  lemma LowerIdempotent(s: string)
    ensures Lower(Lower(s)) == Lower(s)
  {
    LowerOfNoUpper(Lower(s));
  }

  predicate StartsWith(s: string, p: string) {
    |p| <= |s| && s[..|p|] == p
  }

  predicate EndsWith(s: string, p: string) {
    |p| <= |s| && s[|s| - |p|..] == p
  }

  predicate OccursAt(s: string, m: string, i: nat) {
    i + |m| <= |s| && s[i..i + |m|] == m
  }

  lemma OccursAtTail(s: string, m: string, i: nat)
    requires s != []
    ensures OccursAt(s, m, i + 1) == OccursAt(s[1..], m, i)
  {
    if i + 1 + |m| <= |s| {
      assert s[i + 1..i + 1 + |m|] == s[1..][i..i + |m|];
    }
  }

  /** Python's `m in s` for strings. */
  predicate Contains(s: string, m: string) {
    exists i | 0 <= i <= |s| :: OccursAt(s, m, i)
  }

  /** Python's `s.split(sep)[0]`: everything before the first occurrence of
      `sep`, or all of `s` when `sep` does not occur. */
  function PrefixBefore(s: string, sep: string): (r: string)
    requires sep != []
    ensures r <= s
    ensures r == s || OccursAt(s, sep, |r|)
    ensures forall i | 0 <= i < |r| :: !OccursAt(s, sep, i)
    decreases |s|
  {
    if |s| < |sep| then s
    else if s[..|sep|] == sep then []
    else
      var r' := PrefixBefore(s[1..], sep);
      assert s[0..|sep|] == s[..|sep|];
      forall i | 0 <= i < 1 + |r'| ensures !OccursAt(s, sep, i) {
        if i > 0 { OccursAtTail(s, sep, i - 1); }
      }
      OccursAtTail(s, sep, |r'|);
      [s[0]] + r'
  }

  /** Concatenation regroups; stated once so that proofs about long
      concatenations of records need not rediscover it. */
  lemma AppendAssoc<T>(x: seq<T>, y: seq<T>, z: seq<T>)
    ensures (x + y) + z == x + (y + z)
  {
  }

  /** A sequence is its three slices around two cut points. */
  lemma ThreeParts<T>(s: seq<T>, a: nat, b: nat)
    requires a <= b <= |s|
    ensures s == s[..a] + (s[a..b] + s[b..])
  {
    assert s[a..] == s[a..b] + s[b..];
  }

  /** A prefix that stops `m` past index `k`, cut around `k`. */
  lemma PointSplit<T>(s: seq<T>, k: nat, m: nat)
    requires k + 1 + m <= |s|
    ensures s[..k + 1 + m] == (s[..k] + [s[k]]) + s[k + 1..][..m]
  {
    var t := s[..k + 1 + m];
    ThreeParts(t, k, k + 1);
    assert t[..k] == s[..k];
    assert t[k..k + 1] == [s[k]];
    assert t[k + 1..] == s[k + 1..][..m];
    AppendAssoc(s[..k], [s[k]], s[k + 1..][..m]);
  }

  /** A non-empty sequence is its front followed by its last element. */
  lemma SnocSplit<T>(s: seq<T>)
    requires s != []
    ensures s == s[..|s| - 1] + [s[|s| - 1]]
  {
  }

  /** One more element: the longer prefix is the shorter one and that element. */
  lemma TakeSnoc<T>(s: seq<T>, i: nat)
    requires i < |s|
    ensures s[..i + 1][..i] == s[..i] && s[..i + 1] == s[..i] + [s[i]]
  {
  }

  /** Appending to a non-empty front: the head and the rest. */
  lemma ConsAppend<T>(a: seq<T>, b: seq<T>)
    requires a != []
    ensures (a + b)[0] == a[0] && (a + b)[1..] == a[1..] + b
  {
  }

  /** Appending a non-empty back: the front and the last element. */
  lemma SnocAppend<T>(a: seq<T>, b: seq<T>)
    requires b != []
    ensures (a + b)[..|a + b| - 1] == a + b[..|b| - 1] && (a + b)[|a + b| - 1] == b[|b| - 1]
  {
  }

  /** Cutting a suffix of `s` again at `n` cuts `s` at `a + n`. */
  lemma SliceOfSlice<T>(s: seq<T>, a: nat, n: nat)
    requires a + n <= |s|
    ensures s[a..][..n] == s[a..a + n] && s[a..][n..] == s[a + n..]
  {
  }

  lemma DropIndex<T>(s: seq<T>, a: nat, i: nat)
    requires a + i < |s|
    ensures s[a..][i] == s[a + i]
  {
  }

  /** The front and the back of a three-part concatenation. */
  lemma PrefixOfAppend<T>(a: seq<T>, b: seq<T>, c: seq<T>)
    ensures (a + (b + c))[..|a| + |b|] == a + b && (a + (b + c))[|a|..] == b + c
  {
    assert (a + (b + c)) == (a + b) + c;
  }

  /** The leading whitespace run stops at the first visible character. */
  lemma WsPrefixLenBefore(s: string, j: nat)
    requires j < |s| && !IsWs(s[j])
    ensures WsPrefixLen(s) <= j
  {
    var w := WsPrefixLen(s);
    forall k | 0 <= k < w ensures IsWs(s[k]) {
      assert s[..w][k] == s[k];
    }
  }

  lemma DropAppend<T>(a: seq<T>, b: seq<T>)
    ensures (a + b)[|a|..] == b
  {
  }

  /** Cutting `a + b` inside `a`. */
  lemma SlicesInFront<T>(a: seq<T>, b: seq<T>, n: nat)
    requires n <= |a|
    ensures (a + b)[..n] == a[..n] && (a + b)[n..] == a[n..] + b
  {
  }

  /** A string ends with what was appended to it. */
  lemma EndsWithAppended(x: string, y: string)
    ensures EndsWith(x + y, y)
  {
    assert (x + y)[|x|..] == y;
  }

  /** A string ending in a visible character loses only its leading
      whitespace to `strip`. */
  lemma StripOfVisibleEnd(s: string)
    requires s != [] && !IsWs(s[|s| - 1])
    ensures Strip(s) == s[WsPrefixLen(s)..]
  {
    var a := WsPrefixLen(s);
    WsPrefixLenBefore(s, |s| - 1);
    WsSuffixLenOfVisible(s, a);
    StripIs(s, a, 0);
    TakeAll(s[a..]);
  }

  lemma WsSuffixLenOfVisible(s: string, a: nat)
    requires a < |s| && !IsWs(s[|s| - 1])
    ensures WsSuffixLen(s[a..]) == 0
  {
    DropIndex(s, a, |s| - a - 1);
  }

  lemma TakeAll<T>(t: seq<T>)
    ensures t[..|t|] == t
  {
  }

  /** `strip` once both whitespace runs are measured. */
  lemma StripIs(s: string, a: nat, z: nat)
    requires a == WsPrefixLen(s) && z == WsSuffixLen(s[a..])
    ensures Strip(s) == s[a..][..|s| - a - z]
  {
  }
}
