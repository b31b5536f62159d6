/**
 String helpers used by the chat logger: Rust's notion of whitespace and
 `str::trim`, decimal rendering of unsigned integers (what `{}` prints for a
 `u64`), and searching for the first occurrence of a character.
 */
module Text {

  /** Rust's `char::is_whitespace`: the Unicode `White_Space` property. */
  predicate IsWhitespace(c: char) {
    || ('\t' <= c <= '\r')
    || c == ' '
    || c == '\U{85}'
    || c == '\U{A0}'
    || c == '\U{1680}'
    || ('\U{2000}' <= c <= '\U{200A}')
    || c == '\U{2028}'
    || c == '\U{2029}'
    || c == '\U{202F}'
    || c == '\U{205F}'
    || c == '\U{3000}'
  }

  predicate AllWhitespace(s: string) {
    forall i :: 0 <= i < |s| ==> IsWhitespace(s[i])
  }

  /** Neither end of `s` is whitespace (vacuously true of the empty string). */
  predicate IsTrimmed(s: string) {
    |s| > 0 ==> !IsWhitespace(s[0]) && !IsWhitespace(s[|s| - 1])
  }

  /** Length of the longest all-whitespace prefix of `s`: the first non-whitespace position. */
  function LeadingWhitespace(s: string): (n: nat)
    ensures n <= |s|
    ensures n < |s| ==> !IsWhitespace(s[n])
  {
    if |s| == 0 || !IsWhitespace(s[0]) then 0
    else 1 + LeadingWhitespace(s[1..])
  }

  /** Everything before `LeadingWhitespace(s)` is whitespace. */
  lemma {:induction false} LeadingWhitespaceSpan(s: string)
    ensures AllWhitespace(s[..LeadingWhitespace(s)])
    decreases |s|
  {
    if |s| > 0 && IsWhitespace(s[0]) {
      var n := LeadingWhitespace(s);
      LeadingWhitespaceSpan(s[1..]);
      assert s[..n] == [s[0]] + s[1..][..n - 1];
    }
  }

  /** Length of the longest all-whitespace suffix of `s`. */
  function TrailingWhitespace(s: string): (n: nat)
    ensures n <= |s|
    ensures n < |s| ==> !IsWhitespace(s[|s| - n - 1])
  {
    if |s| == 0 || !IsWhitespace(s[|s| - 1]) then 0
    else 1 + TrailingWhitespace(s[..|s| - 1])
  }

  /** Everything in the last `TrailingWhitespace(s)` positions is whitespace. */
  lemma {:induction false} TrailingWhitespaceSpan(s: string)
    ensures AllWhitespace(s[|s| - TrailingWhitespace(s)..])
    decreases |s|
  {
    if |s| > 0 && IsWhitespace(s[|s| - 1]) {
      var n := TrailingWhitespace(s);
      TrailingWhitespaceSpan(s[..|s| - 1]);
      assert s[|s| - n..] == s[..|s| - 1][|s| - n..] + [s[|s| - 1]];
    }
  }

  /**
   Rust's `str::trim`: `s` with every leading and trailing whitespace
   character removed. The result starts and ends with non-whitespace and
   sits in `s` right after the leading whitespace.
   */
  function Trim(s: string): (r: string)
    ensures IsTrimmed(r)
    ensures LeadingWhitespace(s) + |r| <= |s|
    ensures r == s[LeadingWhitespace(s)..LeadingWhitespace(s) + |r|]
  {
    var lead := LeadingWhitespace(s);
    var rest := s[lead..];
    var keep := |rest| - TrailingWhitespace(rest);
    var r := s[lead..lead + keep];
    assert keep > 0 ==> r[0] == s[lead] && r[keep - 1] == rest[keep - 1];
    r
  }

  /** What `Trim` removes is whitespace, at both ends. */
  lemma TrimRemovesWhitespace(s: string)
    ensures AllWhitespace(s[..LeadingWhitespace(s)])
    ensures AllWhitespace(s[LeadingWhitespace(s) + |Trim(s)|..])
  {
    LeadingWhitespaceSpan(s);
    var lead := LeadingWhitespace(s);
    var rest := s[lead..];
    TrailingWhitespaceSpan(rest);
    var keep := |rest| - TrailingWhitespace(rest);
    assert |Trim(s)| == keep;
    var tail, suffix := rest[keep..], s[lead + keep..];
    forall i | 0 <= i < |suffix| ensures IsWhitespace(suffix[i]) {
      assert suffix[i] == tail[i];
    }
  }

  /**
   `Trim` is determined by what it promises: whatever whitespace surrounds a
   trimmed string, trimming recovers exactly that string.
   */
  lemma TrimSurrounded(p: string, t: string, q: string)
    requires AllWhitespace(p) && AllWhitespace(q) && IsTrimmed(t)
    ensures Trim(p + t + q) == t
  {
    var s := p + t + q;
    var r := Trim(s);
    var k := LeadingWhitespace(s);
    TrimRemovesWhitespace(s);
    if |t| == 0 {
      assert AllWhitespace(s) by {
        forall i | 0 <= i < |s| ensures IsWhitespace(s[i]) {
          if i < |p| { assert s[i] == p[i]; } else { assert s[i] == q[i - |p|]; }
        }
      }
      assert k == |s|;
    } else {
      assert s[|p|] == t[0];
      assert s[|p| + |t| - 1] == t[|t| - 1];
      assert s[|p|..|p| + |t|] == t;
      assert k == |p|;
      assert |r| == |t|;
    }
  }

  /** Trimming twice is the same as trimming once. */
  lemma TrimIdempotent(s: string)
    ensures Trim(Trim(s)) == Trim(s)
  {
    TrimSurrounded([], Trim(s), []);
    assert [] + Trim(s) + [] == Trim(s);
  }

  /** Decimal digit characters `0`..`9`. */
  predicate IsDigit(c: char) {
    '0' <= c <= '9'
  }

  predicate AllDigits(s: string) {
    forall i :: 0 <= i < |s| ==> IsDigit(s[i])
  }

  function DigitChar(d: nat): (c: char)
    requires d < 10
    ensures IsDigit(c) && c as int - '0' as int == d
  {
    (d + '0' as int) as char
  }

  /** Rust's `{}` formatting of an unsigned integer: base ten, no leading zeros. */
  function Decimal(n: nat): (r: string)
    ensures |r| > 0 && AllDigits(r)
    ensures r[0] == '0' ==> |r| == 1
    decreases n
  {
    if n < 10 then [DigitChar(n)] else Decimal(n / 10) + [DigitChar(n % 10)]
  }

  /** The number a string of decimal digits denotes (the empty string denotes 0). */
  function DecimalValue(s: string): nat
    requires AllDigits(s)
  {
    if |s| == 0 then 0
    else DecimalValue(s[..|s| - 1]) * 10 + (s[|s| - 1] as int - '0' as int)
  }

  /** Reading back what `Decimal` printed gives the original number. */
  lemma {:induction false} DecimalRoundTrip(n: nat)
    ensures DecimalValue(Decimal(n)) == n
    decreases n
  {
    if n >= 10 {
      var r := Decimal(n);
      assert r[..|r| - 1] == Decimal(n / 10);
      DecimalRoundTrip(n / 10);
    }
  }

  /** Digits without a superfluous leading zero are what `Decimal` prints for their value. */
  lemma {:induction false} DecimalOfValue(s: string)
    requires |s| > 0 && AllDigits(s) && (s[0] == '0' ==> |s| == 1)
    ensures Decimal(DecimalValue(s)) == s
    decreases |s|
  {
    var n := DecimalValue(s);
    if |s| == 1 {
      assert s[..0] == [];
    } else {
      var init := s[..|s| - 1];
      assert init[0] == s[0];
      DecimalValuePositive(init);
      DecimalOfValue(init);
      assert n / 10 == DecimalValue(init);
      assert n % 10 == s[|s| - 1] as int - '0' as int;
      assert s == init + [s[|s| - 1]];
    }
  }

  lemma {:induction false} DecimalValuePositive(s: string)
    requires |s| > 0 && AllDigits(s) && s[0] != '0'
    ensures DecimalValue(s) > 0
    decreases |s|
  {
    if |s| > 1 {
      DecimalValuePositive(s[..|s| - 1]);
    }
  }

  /** Distinct numbers print differently. */
  lemma DecimalInjective(m: nat, n: nat)
    requires Decimal(m) == Decimal(n)
    ensures m == n
  {
    DecimalRoundTrip(m);
    DecimalRoundTrip(n);
  }

  /** Position of the first `c` in `s`, or `|s|` when `s` has none. */
  function IndexOf(s: string, c: char): (k: nat)
    ensures k <= |s|
    ensures forall j :: 0 <= j < k ==> s[j] != c
    ensures k < |s| ==> s[k] == c
  {
    if |s| == 0 then 0
    else if s[0] == c then 0
    else 1 + IndexOf(s[1..], c)
  }

  /** The first `c` of `a + [c] + b` is the one after `a` when `a` has none. */
  lemma IndexOfAfter(a: string, c: char, b: string)
    requires c !in a
    ensures IndexOf(a + [c] + b, c) == |a|
  {
    var s := a + [c] + b;
    assert s[|a|] == c;
  }
}
