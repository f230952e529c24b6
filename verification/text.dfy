/** String primitives with the exact JavaScript semantics the services rely
    on: `indexOf`/`includes`, `split`, `join`, ASCII case mapping, the `\s`
    character class, `Number.prototype.toString()` on naturals and
    `parseInt(s, 16)`. Strings are `seq<char>`, a sequence of Unicode scalar
    values; where the source counts a string's length, it counts UTF-16
    code units, which `Utf16Length` gives. */
module Text {
  import opened Wrappers

  predicate IsDigit(c: char) {
    '0' <= c <= '9'
  }

  predicate IsHexDigit(c: char) {
    '0' <= c <= '9' || 'a' <= c <= 'f' || 'A' <= c <= 'F'
  }

  predicate AllDigits(s: string) {
    forall i | 0 <= i < |s| :: IsDigit(s[i])
  }

  predicate AllHexDigits(s: string) {
    forall i | 0 <= i < |s| :: IsHexDigit(s[i])
  }

  lemma HexDigitsSlice(s: string, lo: nat, hi: nat)
    requires AllHexDigits(s) && lo <= hi <= |s|
    ensures AllHexDigits(s[lo..hi])
  {
    forall i | 0 <= i < hi - lo ensures IsHexDigit(s[lo..hi][i]) {
      assert s[lo..hi][i] == s[lo + i];
    }
  }

  function HexDigitValue(c: char): (v: nat)
    requires IsHexDigit(c)
    ensures v < 16
  {
    if '0' <= c <= '9' then c as int - '0' as int
    else if 'a' <= c <= 'f' then c as int - 'a' as int + 10
    else c as int - 'A' as int + 10
  }

  /** The UTF-16 code units of one character: a surrogate pair above the
      Basic Multilingual Plane. */
  function Utf16Width(c: char): nat {
    if c as int > 0xFFFF then 2 else 1
  }

  /** JavaScript's `length` of a string: its UTF-16 code units. It equals
      the number of characters exactly when all of them lie in the Basic
      Multilingual Plane, and is twice that when none does. */
  function Utf16Length(s: string): (n: nat)
    ensures |s| <= n <= 2 * |s|
    ensures n == |s| <==> forall i | 0 <= i < |s| :: s[i] as int <= 0xFFFF
    ensures (forall i | 0 <= i < |s| :: s[i] as int > 0xFFFF) ==> n == 2 * |s|
  {
    if |s| == 0 then 0
    else
      assert forall i | 0 <= i < |s| - 1 :: s[1..][i] == s[i + 1];
      Utf16Width(s[0]) + Utf16Length(s[1..])
  }

  /** The JavaScript `\s` class, which is also the set of characters
      `parseInt` skips before the number (WhiteSpace and LineTerminator). */
  predicate IsJsSpace(c: char) {
    var n := c as int;
    n == 0x09 || n == 0x0A || n == 0x0B || n == 0x0C || n == 0x0D || n == 0x20
    || n == 0xA0 || n == 0x1680 || (0x2000 <= n <= 0x200A) || n == 0x2028
    || n == 0x2029 || n == 0x202F || n == 0x205F || n == 0x3000 || n == 0xFEFF
  }

  /** `toUpperCase` on one character, restricted to the ASCII letters. */
  function UpperChar(c: char): char {
    if 'a' <= c <= 'z' then (c as int - 32) as char else c
  }

  function Upper(s: string): (u: string)
    ensures |u| == |s|
    ensures forall i | 0 <= i < |s| :: u[i] == UpperChar(s[i])
  {
    seq(|s|, i requires 0 <= i < |s| => UpperChar(s[i]))
  }

  // ---------------------------------------------------------------------
  // Substring search
  // ---------------------------------------------------------------------

  predicate OccursAt(s: string, pat: string, i: int) {
    0 <= i && i + |pat| <= |s| && s[i..i + |pat|] == pat
  }

  function IndexOfFrom(s: string, pat: string, from: nat): (r: int)
    requires from <= |s|
    ensures r == -1 || (from <= r && OccursAt(s, pat, r))
    ensures r == -1 ==> forall i | from <= i <= |s| :: !OccursAt(s, pat, i)
    ensures r >= 0 ==> forall i | from <= i < r :: !OccursAt(s, pat, i)
    decreases |s| - from
  {
    if from + |pat| > |s| then -1
    else if s[from..from + |pat|] == pat then from
    else if from == |s| then -1
    else IndexOfFrom(s, pat, from + 1)
  }

  /** `s.indexOf(pat)`: the first position where `pat` occurs, or -1. */
  function IndexOf(s: string, pat: string): (r: int)
    ensures r >= -1
    ensures r >= 0 ==> OccursAt(s, pat, r) && forall i | 0 <= i < r :: !OccursAt(s, pat, i)
    ensures r == -1 <==> forall i | 0 <= i <= |s| :: !OccursAt(s, pat, i)
  {
    IndexOfFrom(s, pat, 0)
  }

  /** The first occurrence is the one `indexOf` reports. */
  lemma IndexOfFirst(s: string, pat: string, i: nat)
    requires OccursAt(s, pat, i) && forall j | 0 <= j < i :: !OccursAt(s, pat, j)
    ensures IndexOf(s, pat) == i
  {
    assert i <= |s|;
  }

  /** `s.includes(pat)`. */
  predicate Contains(s: string, pat: string) {
    IndexOf(s, pat) >= 0
  }

  /** A case-insensitive test `/pat/i.test(s)` for a pattern of ASCII
      letters and digits. */
  predicate ContainsIgnoreCase(s: string, pat: string) {
    Contains(Upper(s), Upper(pat))
  }

  // ---------------------------------------------------------------------
  // split / join
  // ---------------------------------------------------------------------

  /** `s.split(sep)` for a one-character separator: empty fields are kept,
      and the empty string splits into one empty field. */
  function Split(s: string, sep: char): (parts: seq<string>)
    ensures |parts| >= 1
    decreases |s|
  {
    if |s| == 0 then [""]
    else
      var rest := Split(s[1..], sep);
      if s[0] == sep then [""] + rest
      else [[s[0]] + rest[0]] + rest[1..]
  }

  lemma {:induction false} SplitNoSeparator(s: string, sep: char)
    requires sep !in s
    ensures Split(s, sep) == [s]
    decreases |s|
  {
    if |s| > 0 {
      SplitNoSeparator(s[1..], sep);
      assert [s[0]] + s[1..] == s;
    }
  }

  lemma {:induction false} SplitField(p: string, sep: char, rest: string)
    requires sep !in p
    ensures Split(p + [sep] + rest, sep) == [p] + Split(rest, sep)
    decreases |p|
  {
    if |p| == 0 {
      assert p + [sep] + rest == [sep] + rest;
      assert ([sep] + rest)[1..] == rest;
    } else {
      var s := p + [sep] + rest;
      assert s[1..] == p[1..] + [sep] + rest;
      SplitField(p[1..], sep, rest);
      assert [p[0]] + p[1..] == p;
    }
  }

  /** `parts.join(sep)`. */
  function Join(parts: seq<string>, sep: string): string
    decreases |parts|
  {
    if |parts| == 0 then ""
    else if |parts| == 1 then parts[0]
    else parts[0] + sep + Join(parts[1..], sep)
  }

  /** Joining two-character fields with a one-character separator puts
      field `k` at positions `3k` and `3k+1` and the separator at `3k+2`. */
  lemma {:induction false} JoinOfPairs(parts: seq<string>, sep: char)
    requires |parts| >= 1 && forall k | 0 <= k < |parts| :: |parts[k]| == 2
    ensures |Join(parts, [sep])| == 3 * |parts| - 1
    ensures forall i | 0 <= i < |Join(parts, [sep])| ::
      Join(parts, [sep])[i] == if i % 3 == 2 then sep else parts[i / 3][i % 3]
    decreases |parts|
  {
    if |parts| > 1 {
      JoinOfPairs(parts[1..], sep);
      var rest := Join(parts[1..], [sep]);
      var j := Join(parts, [sep]);
      assert j == parts[0] + [sep] + rest;
      forall i | 0 <= i < |j|
        ensures j[i] == if i % 3 == 2 then sep else parts[i / 3][i % 3]
      {
        if i >= 3 {
          assert j[i] == rest[i - 3];
          assert parts[1..][(i - 3) / 3] == parts[i / 3];
        }
      }
    }
  }

  /** Splitting a string whose separators sit exactly at positions `3k+2`
      yields its two-character fields. */
  lemma {:induction false} SplitPairs(s: string, sep: char, n: nat)
    requires n >= 1 && |s| == 3 * n - 1
    requires forall i | 0 <= i < |s| :: (s[i] == sep) == (i % 3 == 2)
    ensures Split(s, sep) == seq(n, k requires 0 <= k < n => s[3 * k..3 * k + 2])
    decreases n
  {
    if n == 1 {
      assert sep !in s by {
        forall i | 0 <= i < |s| ensures s[i] != sep {
          assert i % 3 != 2;
        }
      }
      SplitNoSeparator(s, sep);
      assert s[3 * 0..3 * 0 + 2] == s;
      assert seq(n, k requires 0 <= k < n => s[3 * k..3 * k + 2]) == [s];
    } else {
      var tail := s[3..];
      forall i | 0 <= i < |tail| ensures (tail[i] == sep) == (i % 3 == 2) {
        assert tail[i] == s[i + 3];
        assert (i + 3) % 3 == i % 3;
      }
      SplitPairs(tail, sep, n - 1);
      assert s[2] == sep;
      assert sep !in s[..2] by {
        assert s[..2] == [s[0], s[1]];
        assert 0 % 3 != 2 && 1 % 3 != 2;
      }
      assert s == s[..2] + [sep] + tail;
      SplitField(s[..2], sep, tail);
      var groups := seq(n, k requires 0 <= k < n => s[3 * k..3 * k + 2]);
      var tailGroups := seq(n - 1, k requires 0 <= k < n - 1 => tail[3 * k..3 * k + 2]);
      assert Split(s, sep) == [s[..2]] + tailGroups;
      forall k | 0 <= k < n ensures ([s[..2]] + tailGroups)[k] == groups[k] {
        if k > 0 {
          assert tail[3 * (k - 1)..3 * (k - 1) + 2] == s[3 * k..3 * k + 2];
        }
      }
    }
  }

  // ---------------------------------------------------------------------
  // Decimal rendering of naturals (`n.toString()`)
  // ---------------------------------------------------------------------

  function Pow10(k: nat): (p: nat)
    ensures p >= 1
  {
    if k == 0 then 1 else 10 * Pow10(k - 1)
  }

  function DigitChar(d: nat): (c: char)
    requires d < 10
    ensures IsDigit(c)
  {
    ('0' as int + d) as char
  }

  function NatToString(n: nat): (s: string)
    ensures |s| >= 1 && AllDigits(s)
  {
    if n < 10 then [DigitChar(n)] else NatToString(n / 10) + [DigitChar(n % 10)]
  }

  /** The value a string of decimal digits denotes. */
  function DecimalValue(s: string): nat
    requires AllDigits(s)
  {
    if |s| == 0 then 0 else 10 * DecimalValue(s[..|s| - 1]) + (s[|s| - 1] as int - '0' as int)
  }

  /** Rendering a natural in decimal and reading it back gives the natural. */
  lemma {:induction false} NatToStringRoundTrip(n: nat)
    ensures DecimalValue(NatToString(n)) == n
  {
    if n >= 10 {
      NatToStringRoundTrip(n / 10);
      var s := NatToString(n);
      assert s[..|s| - 1] == NatToString(n / 10);
    }
  }

  /** A natural with exactly `k` decimal digits renders as `k` characters. */
  lemma {:induction false} NatToStringLength(n: nat, k: nat)
    requires k >= 1 && Pow10(k - 1) <= n < Pow10(k)
    ensures |NatToString(n)| == k
  {
    if k > 1 {
      NatToStringLength(n / 10, k - 1);
    }
  }

  // ---------------------------------------------------------------------
  // parseInt(s, 16)
  // ---------------------------------------------------------------------

  function Pow16(k: nat): (p: nat)
    ensures p >= 1
  {
    if k == 0 then 1 else 16 * Pow16(k - 1)
  }

  /** The value of a string of hexadecimal digits, most significant first. */
  function HexNumber(ds: string): (v: nat)
    requires AllHexDigits(ds)
    ensures v < Pow16(|ds|)
  {
    if |ds| == 0 then 0
    else 16 * HexNumber(ds[..|ds| - 1]) + HexDigitValue(ds[|ds| - 1])
  }

  function SkipSpaces(s: string): (t: string)
    ensures |t| <= |s| && t == s[|s| - |t|..]
    ensures |t| == 0 || !IsJsSpace(t[0])
  {
    if |s| > 0 && IsJsSpace(s[0]) then SkipSpaces(s[1..]) else s
  }

  /** The number of leading hexadecimal digits of `s`. */
  function HexRunLength(s: string): (n: nat)
    ensures n <= |s| && AllHexDigits(s[..n])
    ensures n < |s| ==> !IsHexDigit(s[n])
  {
    if |s| > 0 && IsHexDigit(s[0]) then
      var n := 1 + HexRunLength(s[1..]);
      assert s[..n] == [s[0]] + s[1..][..n - 1];
      n
    else 0
  }

  /** What `parseInt(s, 16)` reads digits from: `s` after its leading white
      space, one sign and an optional `0x`/`0X`. */
  function HexBody(s: string): (v: string)
    ensures |v| <= |s|
  {
    var t := SkipSpaces(s);
    var u := if |t| > 0 && (t[0] == '-' || t[0] == '+') then t[1..] else t;
    if |u| >= 2 && u[0] == '0' && (u[1] == 'x' || u[1] == 'X') then u[2..] else u
  }

  /** The sign `parseInt` reads after the leading white space. */
  predicate IsNegative(s: string) {
    var t := SkipSpaces(s);
    |t| > 0 && t[0] == '-'
  }

  /** A string of hexadecimal digits has no white space, sign or `0x` to
      strip. */
  lemma HexBodyOfDigits(s: string)
    requires AllHexDigits(s) && |s| > 0
    ensures HexBody(s) == s && !IsNegative(s)
  {
    var c := s[0];
    assert IsHexDigit(c);
    assert !IsJsSpace(c);
    assert SkipSpaces(s) == s;
    if |s| >= 2 {
      assert IsHexDigit(s[1]);
    }
  }

  /** `parseInt(s, 16)`: skip leading white space, accept one sign and an
      optional `0x`/`0X`, then read the longest run of hexadecimal digits.
      `None` is NaN (no digit at all). */
  function ParseIntHex(s: string): (r: Option<int>)
    ensures r.Some? ==> -(Pow16(|s|) as int) < r.value < Pow16(|s|)
  {
    var v := HexBody(s);
    var n := HexRunLength(v);
    if n == 0 then None
    else
      PowMonotone(n, |s|);
      var magnitude: int := HexNumber(v[..n]);
      Some(if IsNegative(s) then -magnitude else magnitude)
  }

  /** A non-empty string of hexadecimal digits parses to the number it
      spells. */
  lemma ParseIntHexOfDigits(s: string)
    requires AllHexDigits(s) && |s| > 0
    ensures ParseIntHex(s) == Some(HexNumber(s))
  {
    HexBodyOfDigits(s);
    var n := HexRunLength(s);
    assert n == |s|;
    assert s[..n] == s;
  }

  lemma {:induction false} PowMonotone(a: nat, b: nat)
    requires a <= b
    ensures Pow16(a) <= Pow16(b)
  {
    if a < b {
      PowMonotone(a, b - 1);
    }
  }
}
