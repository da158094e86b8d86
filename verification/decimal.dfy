/** Decimal numerals and the byte order of ASCII text. */
module Decimal {

  function Digit(d: nat): (c: char)
    requires d < 10
    ensures IsDigit(c) && DigitValue(c) == d
  {
    ('0' as int + d) as char
  }

  predicate IsDigit(c: char) {
    '0' <= c <= '9'
  }

  function DigitValue(c: char): (d: nat)
    requires IsDigit(c)
    ensures d < 10
  {
    c as int - '0' as int
  }

  predicate AllDigits(s: string) {
    forall i | 0 <= i < |s| :: IsDigit(s[i])
  }

  function Numeral(n: nat): (s: string)
    ensures s != "" && AllDigits(s)
  {
    if n < 10 then [Digit(n)] else Numeral(n / 10) + [Digit(n % 10)]
  }

  function NumeralValue(s: string): nat
    requires AllDigits(s)
  {
    if s == "" then 0 else NumeralValue(s[..|s| - 1]) * 10 + DigitValue(s[|s| - 1])
  }

  lemma {:induction false} NumeralRoundTrip(n: nat)
    ensures NumeralValue(Numeral(n)) == n
  {
    if n >= 10 {
      var s := Numeral(n);
      assert s[..|s| - 1] == Numeral(n / 10);
      NumeralRoundTrip(n / 10);
    } else {
      assert [Digit(n)][..0] == "";
    }
  }

  // ---------------------------------------------------------------- digits at the front

  predicate StartsWithDigit(s: string) {
    s != "" && IsDigit(s[0])
  }

  /** The digits at the front. */
  function Digits(s: string): (d: string)
    ensures |d| <= |s| && d == s[..|d|] && AllDigits(d)
    ensures !StartsWithDigit(s[|d|..])
    ensures d == "" <==> !StartsWithDigit(s)
  {
    if StartsWithDigit(s) then [s[0]] + Digits(s[1..]) else ""
  }

  lemma {:induction false} DigitsOfJoin(a: string, b: string)
    requires !StartsWithDigit(b)
    ensures Digits(a + b) == Digits(a)
  {
    if StartsWithDigit(a) {
      assert (a + b)[1..] == a[1..] + b;
      DigitsOfJoin(a[1..], b);
    } else if a == "" {
      assert a + b == b;
    }
  }

  lemma {:induction false} DigitsOfNumeral(s: string)
    requires AllDigits(s)
    ensures Digits(s) == s
  {
    if s != "" {
      DigitsOfNumeral(s[1..]);
    }
  }

  // ---------------------------------------------------------------- fixed width

  function Pow10(w: nat): (p: nat)
    ensures p >= 1
  {
    if w == 0 then 1 else 10 * Pow10(w - 1)
  }

  /** The last `w` digits of `n`, zero padded. */
  function Pad(n: nat, w: nat): (s: string)
    ensures |s| == w && AllDigits(s)
  {
    if w == 0 then "" else Pad(n / 10, w - 1) + [Digit(n % 10)]
  }

  lemma {:induction false} PadValue(n: nat, w: nat)
    requires n < Pow10(w)
    ensures NumeralValue(Pad(n, w)) == n
  {
    if w > 0 {
      PadValue(n / 10, w - 1);
      assert Pad(n, w)[..w - 1] == Pad(n / 10, w - 1);
    }
  }

  /** memcmp order, a proper prefix first: SQLite's BINARY collation. */
  predicate Less(a: string, b: string) {
    b != "" && (a == "" || a[0] < b[0] || (a[0] == b[0] && Less(a[1..], b[1..])))
  }

  lemma {:induction false} LessIsStrict(a: string)
    ensures !Less(a, a)
  {
    if a != "" {
      LessIsStrict(a[1..]);
    }
  }

  lemma LessCons(c: char, a: string, d: char, b: string)
    ensures Less([c] + a, [d] + b) <==> c < d || (c == d && Less(a, b))
  {
    assert ([c] + a)[1..] == a && ([d] + b)[1..] == b;
  }

  lemma DigitOrder(d: nat, e: nat)
    requires d < 10 && e < 10
    ensures Digit(d) < Digit(e) <==> d < e
    ensures Digit(d) == Digit(e) <==> d == e
  {
  }

  /** Numbers padded to one width compare as text like numbers, then by what follows. */
  lemma {:induction false} PadOrder(n: nat, m: nat, w: nat, s: string, t: string)
    requires n < Pow10(w) && m < Pow10(w)
    ensures Less(Pad(n, w) + s, Pad(m, w) + t) <==> n < m || (n == m && Less(s, t))
    decreases w
  {
    hide Less;
    if w == 0 {
      assert "" + s == s && "" + t == t;
    } else {
      var d, e := Digit(n % 10), Digit(m % 10);
      assert Pad(n, w) + s == Pad(n / 10, w - 1) + ([d] + s);
      assert Pad(m, w) + t == Pad(m / 10, w - 1) + ([e] + t);
      PadOrder(n / 10, m / 10, w - 1, [d] + s, [e] + t);
      LessCons(d, s, e, t);
      DigitOrder(n % 10, m % 10);
    }
  }
}
