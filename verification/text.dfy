/**
 * The pieces of the Kotlin standard library that the plugin's string logic
 * relies on: searching (`indexOf`, `lastIndexOf`, `contains`, `startsWith`),
 * `substringBefore` / `substringAfter` / `substringAfterLast`, `split` on one
 * character, `joinToString`, `trim` / `isBlank`, `lowercase`, `Int.toString`
 * and `String.toIntOrNull`, each written out with the behaviour the JVM
 * library has, plus the facts about them that the rest of the model uses.
 */
module Text {
  import opened Base

  // ---------------------------------------------------------------------------
  // Searching
  // ---------------------------------------------------------------------------

  /** `pat` occurs in `s` starting at index `k`. */
  predicate OccursAt<T(==)>(s: seq<T>, pat: seq<T>, k: int)
  {
    0 <= k && k + |pat| <= |s| && s[k..k + |pat|] == pat
  }

  /** First index at or after `from` where `pat` occurs (`indexOf(pat, from)`). */
  function IndexOfFrom<T(==)>(s: seq<T>, pat: seq<T>, from: nat): (r: Option<nat>)
    ensures r.Some? ==> from <= r.value && OccursAt(s, pat, r.value)
    ensures r.Some? ==> forall k :: from <= k < r.value ==> !OccursAt(s, pat, k)
    ensures r.None? ==> forall k :: from <= k ==> !OccursAt(s, pat, k)
    decreases |s| - from
  {
    if from + |pat| > |s| then None
    else if s[from..from + |pat|] == pat then Some(from)
    else IndexOfFrom(s, pat, from + 1)
  }

  /** First index where `pat` occurs in `s` (`indexOf`); `None` stands for -1. */
  function IndexOf<T(==)>(s: seq<T>, pat: seq<T>): (r: Option<nat>)
    ensures r.Some? ==> OccursAt(s, pat, r.value)
    ensures r.Some? ==> forall k :: k < r.value ==> !OccursAt(s, pat, k)
    ensures r.None? ==> forall k :: !OccursAt(s, pat, k)
  {
    IndexOfFrom(s, pat, 0)
  }

  /** Last index at or before `from` where `pat` occurs. */
  function LastIndexOfFrom<T(==)>(s: seq<T>, pat: seq<T>, from: int): (r: Option<nat>)
    ensures r.Some? ==> r.value <= from && OccursAt(s, pat, r.value)
    ensures r.Some? ==> forall k :: r.value < k <= from ==> !OccursAt(s, pat, k)
    ensures r.None? ==> forall k :: k <= from ==> !OccursAt(s, pat, k)
    decreases from + 1
  {
    if from < 0 then None
    else if OccursAt(s, pat, from) then Some(from)
    else LastIndexOfFrom(s, pat, from - 1)
  }

  /** Last index where `pat` occurs in `s` (`lastIndexOf`); `None` stands for -1. */
  function LastIndexOf<T(==)>(s: seq<T>, pat: seq<T>): (r: Option<nat>)
    ensures r.Some? ==> OccursAt(s, pat, r.value)
    ensures r.Some? ==> forall k :: r.value < k ==> !OccursAt(s, pat, k)
    ensures r.None? ==> forall k :: !OccursAt(s, pat, k)
  {
    LastIndexOfFrom(s, pat, |s| - |pat|)
  }

  predicate Contains<T(==)>(s: seq<T>, pat: seq<T>)
  {
    IndexOf(s, pat).Some?
  }

  predicate StartsWith<T(==)>(s: seq<T>, prefix: seq<T>)
  {
    |prefix| <= |s| && s[..|prefix|] == prefix
  }

  /** `substringBefore(d)`: the text before the first `d`, or all of `s`. */
  function SubstringBefore(s: string, d: string): string
  {
    match IndexOf(s, d)
    case None => s
    case Some(i) => s[..i]
  }

  /** `substringAfter(d)`: the text after the first `d`, or all of `s`. */
  function SubstringAfter(s: string, d: string): string
  {
    match IndexOf(s, d)
    case None => s
    case Some(i) => s[i + |d|..]
  }

  /** `substringAfterLast(d)`: the text after the last `d`, or all of `s`. */
  function SubstringAfterLast(s: string, d: string): string
  {
    match LastIndexOf(s, d)
    case None => s
    case Some(i) => s[i + |d|..]
  }

  lemma ContainsIff<T>(s: seq<T>, pat: seq<T>)
    ensures Contains(s, pat) <==> exists k :: OccursAt(s, pat, k)
  {
  }

  lemma OccursInContains<T>(s: seq<T>, pat: seq<T>, k: int)
    requires OccursAt(s, pat, k)
    ensures Contains(s, pat)
  {
  }

  /** A one-element pattern occurs exactly when the element does. */
  lemma ContainsSingle<T>(s: seq<T>, c: T)
    ensures Contains(s, [c]) <==> c in s
  {
    if c in s {
      var k :| 0 <= k < |s| && s[k] == c;
      assert s[k..k + 1] == [c];
      assert OccursAt(s, [c], k);
    }
    if Contains(s, [c]) {
      var k := IndexOf(s, [c]).value;
      assert s[k..k + 1][0] == s[k];
    }
  }

  /**
   * If the only occurrence of `d` in `x + d` is the final one, the first
   * occurrence of `d` in `x + d + y` is right after `x`, whatever `y` is.
   */
  lemma {:induction false} FirstAtJunction<T>(x: seq<T>, d: seq<T>, y: seq<T>)
    requires |d| > 0
    requires !Contains((x + d)[..|x| + |d| - 1], d)
    ensures IndexOf(x + d + y, d) == Some(|x|)
  {
    var s := x + d + y;
    var pre := (x + d)[..|x| + |d| - 1];
    assert s[|x|..|x| + |d|] == d;
    assert OccursAt(s, d, |x|);
    forall k | 0 <= k < |x|
      ensures !OccursAt(s, d, k)
    {
      if OccursAt(s, d, k) {
        assert s[k..k + |d|] == pre[k..k + |d|];
        assert OccursAt(pre, d, k);
        OccursInContains(pre, d, k);
      }
    }
  }

  /**
   * If `d` does not occur in `d + y` except at its start, the last occurrence
   * of `d` in `x + d + y` is right after `x`, whatever `x` is.
   */
  lemma {:induction false} LastAtJunction<T>(x: seq<T>, d: seq<T>, y: seq<T>)
    requires |d| > 0
    requires !Contains((d + y)[1..], d)
    ensures LastIndexOf(x + d + y, d) == Some(|x|)
  {
    var s := x + d + y;
    var post := (d + y)[1..];
    assert s[|x|..|x| + |d|] == d;
    assert OccursAt(s, d, |x|);
    var dy := d + y;
    assert s == x + dy;
    ContainsIff(post, d);
    forall k | k > |x|
      ensures !OccursAt(s, d, k)
    {
      if k + |d| <= |s| {
        var j := k - |x| - 1;
        var w, v := s[k..k + |d|], post[j..j + |d|];
        assert forall m :: 0 <= m < |d| ==> w[m] == v[m];
        assert w == v;
        assert !OccursAt(post, d, j);
      }
    }
  }

  /**
   * When the first element of `d` appears nowhere else in `d`, and `d` does
   * not occur in `x`, the first occurrence of `d` in `x + d + y` is right
   * after `x`.
   */
  lemma FirstAtJunctionUniqueHead<T>(x: seq<T>, d: seq<T>, y: seq<T>)
    requires |d| > 0
    requires forall m :: 1 <= m < |d| ==> d[m] != d[0]
    requires !Contains(x, d)
    ensures IndexOf(x + d + y, d) == Some(|x|)
  {
    var pre := (x + d)[..|x| + |d| - 1];
    forall k | 0 <= k <= |pre| - |d|
      ensures !OccursAt(pre, d, k)
    {
      if k + |d| <= |x| {
        assert x[k..k + |d|] == pre[k..k + |d|];
        ContainsIff(x, d);
        assert !OccursAt(x, d, k);
      } else {
        var m := |x| - k;
        assert pre[k..k + |d|][m] == d[0] != d[m];
      }
    }
    ContainsIff(pre, d);
    FirstAtJunction(x, d, y);
  }

  /** An occurrence inside `b` is an occurrence inside `a + b`, shifted by `|a|`. */
  lemma OccursShift<T>(a: seq<T>, b: seq<T>, pat: seq<T>, k: int)
    requires OccursAt(b, pat, k)
    ensures OccursAt(a + b, pat, |a| + k)
  {
    assert (a + b)[|a| + k..|a| + k + |pat|] == b[k..k + |pat|];
  }

  // ---------------------------------------------------------------------------
  // split / joinToString on a single-character separator
  // ---------------------------------------------------------------------------

  /** `split(sep)`: every piece between separators, empty pieces included. */
  function Split(s: string, sep: char): (r: seq<string>)
    ensures |r| >= 1
    decreases |s|
  {
    match IndexOf(s, [sep])
    case None => [s]
    case Some(i) => [s[..i]] + Split(s[i + 1..], sep)
  }

  /** `joinToString(sep)`. */
  function Join(parts: seq<string>, sep: char): string
  {
    if |parts| == 0 then ""
    else if |parts| == 1 then parts[0]
    else parts[0] + [sep] + Join(parts[1..], sep)
  }

  /** Splitting undoes joining, as long as no part holds the separator. */
  lemma {:induction false} SplitJoin(parts: seq<string>, sep: char)
    requires |parts| >= 1
    requires forall k :: 0 <= k < |parts| ==> sep !in parts[k]
    ensures Split(Join(parts, sep), sep) == parts
  {
    ContainsSingle(parts[0], sep);
    if |parts| == 1 {
    } else {
      var rest := Join(parts[1..], sep);
      assert (parts[0] + [sep])[..|parts[0]| + 1 - 1] == parts[0];
      FirstAtJunction(parts[0], [sep], rest);
      assert Join(parts, sep) == parts[0] + [sep] + rest;
      assert (parts[0] + [sep] + rest)[..|parts[0]|] == parts[0];
      assert (parts[0] + [sep] + rest)[|parts[0]| + 1..] == rest;
      SplitJoin(parts[1..], sep);
    }
  }

  /** No piece of a split holds the separator. */
  lemma {:induction false} SplitPiecesLackSeparator(s: string, sep: char)
    ensures forall k :: 0 <= k < |Split(s, sep)| ==> sep !in Split(s, sep)[k]
    decreases |s|
  {
    match IndexOf(s, [sep])
    case None =>
      ContainsSingle(s, sep);
    case Some(i) =>
      ContainsSingle(s[..i], sep);
      if sep in s[..i] {
        var j :| 0 <= j < i && s[..i][j] == sep;
        assert s[j..j + 1] == [sep];
        assert OccursAt(s, [sep], j);
      }
      SplitPiecesLackSeparator(s[i + 1..], sep);
  }

  // ---------------------------------------------------------------------------
  // Whitespace, trim, isBlank
  // ---------------------------------------------------------------------------

  /**
   * Kotlin's `Char.isWhitespace()` on the JVM: `Character.isWhitespace` or
   * `Character.isSpaceChar`, listed as code points.
   */
  predicate IsWhitespace(c: char)
  {
    var n := c as int;
    (9 <= n <= 13) || (28 <= n <= 32) || n == 0xA0 || n == 0x1680
    || (0x2000 <= n <= 0x200A) || n == 0x2028 || n == 0x2029 || n == 0x202F
    || n == 0x205F || n == 0x3000
  }

  /** `isBlank()`: empty or only whitespace. */
  predicate IsBlank(s: string)
  {
    forall i :: 0 <= i < |s| ==> IsWhitespace(s[i])
  }

  /** Neither end of `s` is whitespace: what `trim()` leaves. */
  predicate IsTrimmed(s: string)
  {
    |s| == 0 || (!IsWhitespace(s[0]) && !IsWhitespace(s[|s| - 1]))
  }

  /** The first index at or after `i` that is not whitespace, or `|s|`. */
  function SkipBlankForward(s: string, i: nat): (k: nat)
    requires i <= |s|
    ensures i <= k <= |s|
    ensures forall m :: i <= m < k ==> IsWhitespace(s[m])
    ensures k == |s| || !IsWhitespace(s[k])
    decreases |s| - i
  {
    if i < |s| && IsWhitespace(s[i]) then SkipBlankForward(s, i + 1) else i
  }

  /** The least `k >= lo` such that `s[k..j]` is all whitespace. */
  function SkipBlankBackward(s: string, lo: nat, j: nat): (k: nat)
    requires lo <= j <= |s|
    ensures lo <= k <= j
    ensures forall m :: k <= m < j ==> IsWhitespace(s[m])
    ensures k == lo || !IsWhitespace(s[k - 1])
    decreases j
  {
    if lo < j && IsWhitespace(s[j - 1]) then SkipBlankBackward(s, lo, j - 1) else j
  }

  /** `trim()`: `s` without its leading and trailing whitespace. */
  function Trim(s: string): (r: string)
    ensures IsTrimmed(r)
    ensures exists i, j ::
              && 0 <= i <= j <= |s| && r == s[i..j]
              && (forall m :: 0 <= m < i ==> IsWhitespace(s[m]))
              && (forall m :: j <= m < |s| ==> IsWhitespace(s[m]))
    ensures r == [] <==> IsBlank(s)
  {
    var i := SkipBlankForward(s, 0);
    var j := SkipBlankBackward(s, i, |s|);
    assert j > i ==> s[i..j][0] == s[i] && s[i..j][j - i - 1] == s[j - 1];
    s[i..j]
  }

  /** Trimming an already trimmed string changes nothing. */
  lemma TrimTrimmed(s: string)
    requires IsTrimmed(s)
    ensures Trim(s) == s
  {
  }

  // ---------------------------------------------------------------------------
  // lowercase
  // ---------------------------------------------------------------------------

  function LowerChar(c: char): char
  {
    if 'A' <= c <= 'Z' then (c as int + 32) as char else c
  }

  /** `lowercase()`, restricted to the ASCII letters. */
  function Lower(s: string): string
  {
    seq(|s|, i requires 0 <= i < |s| => LowerChar(s[i]))
  }

  /** Lowercasing keeps whitespace where it is, so a trimmed string stays trimmed. */
  lemma LowerTrimmed(s: string)
    requires IsTrimmed(s)
    ensures IsTrimmed(Lower(s))
  {
  }

  lemma LowerIdempotent(s: string)
    ensures Lower(Lower(s)) == Lower(s)
  {
  }

  // ---------------------------------------------------------------------------
  // Int.toString and String.toIntOrNull
  // ---------------------------------------------------------------------------

  const IntMin: int := -0x8000_0000
  const IntMax: int := 0x7fff_ffff

  /** A JVM `Int`. */
  type int32 = n: int | IntMin <= n <= IntMax

  predicate IsDigit(c: char)
  {
    '0' <= c <= '9'
  }

  predicate AllDigits(s: string)
  {
    forall i :: 0 <= i < |s| ==> IsDigit(s[i])
  }

  function DigitChar(d: nat): char
    requires d < 10
  {
    ('0' as int + d) as char
  }

  /** Decimal digits of `n`, most significant first, no leading zero. */
  function NatToString(n: nat): string
    decreases n
  {
    if n < 10 then [DigitChar(n)] else NatToString(n / 10) + [DigitChar(n % 10)]
  }

  /** `Int.toString()`: an optional minus sign, then the digits. */
  function IntToString(n: int): string
  {
    if n < 0 then "-" + NatToString(-n) else NatToString(n)
  }

  /** The value of a string of decimal digits (0 for the empty string). */
  function DigitsValue(ds: string): nat
    requires AllDigits(ds)
    decreases |ds|
  {
    if |ds| == 0 then 0
    else DigitsValue(ds[..|ds| - 1]) * 10 + (ds[|ds| - 1] as int - '0' as int)
  }

  /**
   * `toIntOrNull()` in radix 10: one optional leading `+` or `-`, at least one
   * digit, nothing else, and the value must fit a 32-bit `Int`; otherwise null.
   * A first character below '0' is read as a sign, as the library does.
   */
  function ToIntOrNull(s: string): (r: Option<int>)
    ensures r.Some? ==> IntMin <= r.value <= IntMax
    ensures r.Some? ==> exists k :: 0 <= k < |s| && IsDigit(s[k])
  {
    if |s| == 0 then None
    else if s[0] < '0' then
      if |s| == 1 then None
      else if s[0] == '-' then
        if AllDigits(s[1..]) && DigitsValue(s[1..]) <= -IntMin then Some(0 - DigitsValue(s[1..])) else None
      else if s[0] == '+' then
        if AllDigits(s[1..]) && DigitsValue(s[1..]) <= IntMax then Some(DigitsValue(s[1..])) else None
      else None
    else if AllDigits(s) && DigitsValue(s) <= IntMax then Some(DigitsValue(s))
    else None
  }

  lemma {:induction false} NatToStringDigits(n: nat)
    ensures |NatToString(n)| >= 1 && AllDigits(NatToString(n))
    ensures DigitsValue(NatToString(n)) == n
    decreases n
  {
    if n >= 10 {
      NatToStringDigits(n / 10);
      var s := NatToString(n);
      assert s[..|s| - 1] == NatToString(n / 10);
    }
  }

  /** Rendering an `Int` and parsing it back gives the same `Int`. */
  lemma {:induction false} IntToStringRoundTrip(n: int)
    requires IntMin <= n <= IntMax
    ensures ToIntOrNull(IntToString(n)) == Some(n)
  {
    if n < 0 {
      NatToStringDigits(-n);
      var s := IntToString(n);
      assert s[1..] == NatToString(-n);
    } else {
      NatToStringDigits(n);
    }
  }

  /** The rendering of a number holds only digits and a minus sign. */
  lemma IntToStringChars(n: int)
    ensures forall i :: 0 <= i < |IntToString(n)| ==> IntToString(n)[i] == '-' || IsDigit(IntToString(n)[i])
  {
    if n < 0 {
      NatToStringDigits(-n);
    } else {
      NatToStringDigits(n);
    }
  }
}
