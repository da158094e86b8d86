/**
 `normalize_volume` of services/normalization.py: Indian digit grouping and the L / Cr units, in
 exact arithmetic (the original's floats are exact up to 2^53).
 */
module Volume {
  import opened Common
  import opened Decimal
  import opened PythonText

  // ---------------------------------------------------------------- the units

  const NULL_TOKENS: seq<string> := ["", "-", "--", "n/a", "na", "nan", "null", "none"]

  /** The words of `\bcr(ore)?s?\b` and of `\b(l|lakh|lac|lacs)\b`. */
  const CRORE_WORDS: seq<string> := ["cr", "crs", "crore", "crores"]

  const LAKH_WORDS: seq<string> := ["l", "lakh", "lac", "lacs"]

  predicate IsWordChar(c: char) {
    IsDigit(c) || 'a' <= c <= 'z' || 'A' <= c <= 'Z' || c == '_'
  }

  predicate WordAt(s: string, i: nat) {
    i < |s| && IsWordChar(s[i])
  }

  /** `\b`. */
  predicate Boundary(s: string, i: nat) {
    WordAt(s, i) != (i > 0 && WordAt(s, i - 1))
  }

  predicate FindsWord(s: string, words: seq<string>) {
    exists i, j | 0 <= i <= j <= |s| :: Lower(s[i..j]) in words && Boundary(s, i) && Boundary(s, j)
  }

  predicate EndsWith(s: string, tail: string) {
    |tail| <= |s| && s[|s| - |tail|..] == tail
  }

  predicate HasCrore(s: string) {
    FindsWord(s, CRORE_WORDS) || EndsWith(Lower(s), "cr")
  }

  predicate HasLakh(s: string) {
    !HasCrore(s) && (FindsWord(s, LAKH_WORDS) || EndsWith(Lower(s), "l"))
  }

  function Scale(s: string): nat {
    if HasCrore(s) then 10000000 else if HasLakh(s) then 100000 else 1
  }

  // ---------------------------------------------------------------- the number

  datatype Number = Number(negative: bool, whole: string, fraction: string)

  function Unsigned(s: string): string {
    if s != "" && (s[0] == '-' || s[0] == '+') then s[1..] else s
  }

  /** `[-+]?\d*\.?\d+` at the front of the text, greedy with backtracking. */
  function NumberAt(s: string): (r: Option<Number>)
    ensures r.Some? ==> AllDigits(r.value.whole) && AllDigits(r.value.fraction)
  {
    var whole := Digits(Unsigned(s));
    var rest := Unsigned(s)[|whole|..];
    var negative := s != "" && s[0] == '-';
    if rest != "" && rest[0] == '.' && StartsWithDigit(rest[1..]) then Some(Number(negative, whole, Digits(rest[1..])))
    else if whole != "" then Some(Number(negative, whole, ""))
    else None
  }

  /** `re.search`: the leftmost match. */
  function FirstNumber(s: string): (r: Option<Number>)
    ensures r.Some? ==> AllDigits(r.value.whole) && AllDigits(r.value.fraction)
  {
    if NumberAt(s).Some? then NumberAt(s) else if s == "" then None else FirstNumber(s[1..])
  }

  function Signed(negative: bool, x: real): real {
    if negative then -x else x
  }

  function Magnitude(whole: nat, fraction: string): real
    requires AllDigits(fraction)
  {
    whole as real + NumeralValue(fraction) as real / Pow10(|fraction|) as real
  }

  function ValueOf(n: Number): real
    requires AllDigits(n.whole) && AllDigits(n.fraction)
  {
    Signed(n.negative, Magnitude(NumeralValue(n.whole), n.fraction))
  }

  /** Python's `round`: to the nearest whole number, ties to the even one. */
  function Round(x: real): (r: int)
    ensures -0.5 <= x - r as real <= 0.5
    ensures x - r as real == 0.5 || x - r as real == -0.5 ==> r % 2 == 0
  {
    var below := x.Floor;
    var part := x - below as real;
    if part < 0.5 || (part == 0.5 && below % 2 == 0) then below else below + 1
  }

  function Times(x: real, scale: nat): real {
    x * scale as real
  }

  /** `normalize_volume` of a text. */
  function NormalizeVolume(value: string): Option<int> {
    if Lower(Strip(value)) in NULL_TOKENS then None
    else
      var s := Strip(RemoveCommas(value));
      match FirstNumber(s)
      case None => None
      case Some(n) => Some(Round(Times(ValueOf(n), Scale(s))))
  }

  // ---------------------------------------------------------------- writing volumes

  /** Commas after every two digits. */
  function GroupPairs(n: nat): string {
    if n < 100 then Numeral(n) else GroupPairs(n / 100) + "," + Pad(n % 100, 2)
  }

  /** Indian grouping: a comma before the last three digits, then before every two. */
  function Grouped(n: nat): string {
    if n < 1000 then Numeral(n) else GroupPairs(n / 1000) + "," + Pad(n % 1000, 3)
  }

  /** What follows the number: a word, or nothing, after some spaces. */
  datatype Unit = Unit(gap: string, word: string)

  predicate IsLetter(c: char) {
    'a' <= c <= 'z' || 'A' <= c <= 'Z'
  }

  predicate Letters(s: string) {
    forall i | 0 <= i < |s| :: IsLetter(s[i])
  }

  predicate IsUnit(u: Unit) {
    (forall i | 0 <= i < |u.gap| :: u.gap[i] == ' ') && Letters(u.word) && (u.word == "" ==> u.gap == "")
  }

  function UnitText(u: Unit): string {
    u.gap + u.word
  }

  /**
   A word counts by its ending "cr" or "l", and the longer words count only when they stand apart
   from the number.
   */
  function UnitScale(u: Unit): nat {
    var w := Lower(u.word);
    if EndsWith(w, "cr") || (u.gap != "" && w in {"crs", "crore", "crores"}) then 10000000
    else if EndsWith(w, "l") || (u.gap != "" && w in {"lakh", "lac", "lacs"}) then 100000
    else 1
  }

  function FractionText(fraction: string): string {
    if fraction == "" then "" else "." + fraction
  }

  function Sign(negative: bool): string {
    if negative then "-" else ""
  }

  function Write(negative: bool, n: nat, fraction: string, u: Unit): string {
    Sign(negative) + Grouped(n) + FractionText(fraction) + UnitText(u)
  }

  /** A comma before every two characters from the end. */
  predicate InPairs(s: string) {
    forall i | 0 <= i < |s| :: if (|s| - 1 - i) % 3 == 2 then s[i] == ',' else IsDigit(s[i])
  }

  /** A comma before the last three characters, then before every two. */
  predicate InGroups(s: string) {
    forall i | 0 <= i < |s| ::
      if |s| - 1 - i >= 3 && (|s| - 1 - i) % 3 == 0 then s[i] == ',' else IsDigit(s[i])
  }

  lemma OnePairMore(front: string, pair: string)
    requires InPairs(front) && |pair| == 2 && AllDigits(pair)
    ensures InPairs(front + "," + pair)
  {
    var s := front + "," + pair;
    forall i | 0 <= i < |s| ensures if (|s| - 1 - i) % 3 == 2 then s[i] == ',' else IsDigit(s[i]) {
      if i < |front| {
        assert s[i] == front[i] && |s| - 1 - i == |front| - 1 - i + 3;
      } else if i > |front| {
        assert s[i] == pair[i - |front| - 1];
      }
    }
  }

  lemma LastGroup(front: string, three: string)
    requires InPairs(front) && |three| == 3 && AllDigits(three)
    ensures InGroups(front + "," + three)
  {
    var s := front + "," + three;
    forall i | 0 <= i < |s|
      ensures if |s| - 1 - i >= 3 && (|s| - 1 - i) % 3 == 0 then s[i] == ',' else IsDigit(s[i])
    {
      if i < |front| {
        assert s[i] == front[i] && |s| - 1 - i == |front| - 1 - i + 4;
      } else if i > |front| {
        assert s[i] == three[i - |front| - 1];
      }
    }
  }

  lemma {:induction false} ShortNumeral(n: nat, w: nat)
    requires w >= 1 && n < Pow10(w)
    ensures |Numeral(n)| <= w
  {
    if n >= 10 {
      ShortNumeral(n / 10, w - 1);
    }
  }

  lemma {:induction false} PairsShape(n: nat)
    ensures InPairs(GroupPairs(n))
  {
    hide InPairs;
    if n < 100 {
      assert Pow10(2) == 10 * Pow10(1) == 100;
      ShortNumeral(n, 2);
      FewDigits(Numeral(n));
    } else {
      PairsShape(n / 100);
      OnePairMore(GroupPairs(n / 100), Pad(n % 100, 2));
    }
  }

  lemma FewDigits(s: string)
    requires AllDigits(s)
    ensures |s| <= 2 ==> InPairs(s)
    ensures |s| <= 3 ==> InGroups(s)
  {
  }

  /** Commas stand before the last three digits and then before every two, and nowhere else. */
  lemma GroupedShape(n: nat)
    ensures InGroups(Grouped(n))
  {
    hide InPairs, InGroups;
    if n < 1000 {
      assert Pow10(3) == 10 * Pow10(2) == 100 * Pow10(1) == 1000;
      ShortNumeral(n, 3);
      FewDigits(Numeral(n));
    } else {
      PairsShape(n / 1000);
      LastGroup(GroupPairs(n / 1000), Pad(n % 1000, 3));
    }
  }

  // ---------------------------------------------------------------- removing the commas

  lemma {:induction false} RemoveFromJoin(a: string, b: string)
    ensures RemoveCommas(a + b) == RemoveCommas(a) + RemoveCommas(b)
  {
    if a == "" {
      assert a + b == b;
    } else {
      assert (a + b)[1..] == a[1..] + b;
      RemoveFromJoin(a[1..], b);
    }
  }

  lemma {:induction false} NothingToRemove(s: string)
    requires ',' !in s
    ensures RemoveCommas(s) == s
  {
    if s != "" {
      assert s == [s[0]] + s[1..];
      NothingToRemove(s[1..]);
    }
  }

  lemma DigitsHaveNoComma(s: string)
    requires AllDigits(s)
    ensures ',' !in s
  {
  }

  /** The last `w` digits of a long enough number, split off. */
  lemma {:induction false} NumeralSplits(n: nat, w: nat)
    requires n >= Pow10(w) && w > 0
    ensures n / Pow10(w) >= 1 && Numeral(n) == Numeral(n / Pow10(w)) + Pad(n % Pow10(w), w)
  {
    if w == 1 {
      assert Pow10(1) == 10 * Pow10(0);
      assert Pad(n % 10, 1) == Pad(n % 10 / 10, 0) + [Digit(n % 10)];
    } else {
      var p := Pow10(w - 1);
      TenTimes(n, p);
      NumeralSplits(n / 10, w - 1);
      assert Pad(n % Pow10(w), w) == Pad(n % Pow10(w) / 10, w - 1) + [Digit(n % Pow10(w) % 10)];
    }
  }

  /** Quotient and remainder by 10p, through 10. */
  lemma TenTimes(n: nat, p: nat)
    requires p >= 1
    ensures n / (10 * p) == n / 10 / p
    ensures n % (10 * p) / 10 == n / 10 % p && n % (10 * p) % 10 == n % 10
    ensures n >= 10 * p ==> n / 10 >= p && n >= 10
  {
    var q, r := n / 10 / p, n / 10 % p;
    assert n == 10 * (n / 10) + n % 10;
    assert n / 10 == q * p + r;
    var low := 10 * r + n % 10;
    assert n == q * (10 * p) + low by {
      assert 10 * (q * p) == q * (10 * p);
    }
    Divides(n, 10 * p, q, low);
  }

  lemma Divides(n: nat, d: nat, q: nat, r: nat)
    requires d > 0 && r < d && n == q * d + r
    ensures n / d == q && n % d == r
  {
    var q', r' := n / d, n % d;
    assert n == q' * d + r';
    if q' < q {
      Stretch(q' + 1, q, d);
    } else if q < q' {
      Stretch(q + 1, q', d);
    }
  }

  lemma Stretch(a: int, b: int, d: nat)
    requires a <= b
    ensures a * d <= b * d && (a - 1) * d == a * d - d
  {
  }

  lemma {:induction false} PairsWithoutCommas(n: nat)
    ensures RemoveCommas(GroupPairs(n)) == Numeral(n)
  {
    if n < 100 {
      NothingToRemove(Numeral(n));
    } else {
      assert Pow10(2) == 10 * Pow10(1) == 100;
      PairsWithoutCommas(n / 100);
      WithoutComma(GroupPairs(n / 100), Pad(n % 100, 2));
      NumeralSplits(n, 2);
    }
  }

  lemma CommaGoes()
    ensures RemoveCommas(",") == ""
  {
  }

  lemma WithoutComma(a: string, digits: string)
    requires AllDigits(digits)
    ensures RemoveCommas(a + "," + digits) == RemoveCommas(a) + digits
  {
    hide RemoveCommas;
    CommaGoes();
    DigitsHaveNoComma(digits);
    RemoveFromJoin(a + ",", digits);
    RemoveFromJoin(a, ",");
    NothingToRemove(digits);
  }

  /** Grouping only puts commas in. */
  lemma GroupedWithoutCommas(n: nat)
    ensures RemoveCommas(Grouped(n)) == Numeral(n)
  {
    if n < 1000 {
      NothingToRemove(Numeral(n));
    } else {
      assert Pow10(3) == 10 * Pow10(2) == 100 * Pow10(1) == 1000;
      PairsWithoutCommas(n / 1000);
      WithoutComma(GroupPairs(n / 1000), Pad(n % 1000, 3));
      NumeralSplits(n, 3);
    }
  }

  /** The written text without its commas. */
  function Ungrouped(negative: bool, n: nat, fraction: string, u: Unit): string {
    Sign(negative) + Numeral(n) + FractionText(fraction) + UnitText(u)
  }

  lemma OnlyCommasGo(negative: bool, n: nat, fraction: string, u: Unit)
    requires AllDigits(fraction) && IsUnit(u)
    ensures RemoveCommas(Write(negative, n, fraction, u)) == Ungrouped(negative, n, fraction, u)
  {
    hide RemoveCommas, Grouped, Numeral;
    var sign, tail, unit := Sign(negative), FractionText(fraction), UnitText(u);
    RemoveFromJoin(sign + Grouped(n) + tail, unit);
    RemoveFromJoin(sign + Grouped(n), tail);
    RemoveFromJoin(sign, Grouped(n));
    NothingToRemove(sign);
    NothingToRemove(tail);
    NothingToRemove(unit);
    GroupedWithoutCommas(n);
  }

  // ---------------------------------------------------------------- reading the number

  lemma UnsignedPart(negative: bool, t: string)
    requires t != "" && (IsDigit(t[0]) || t[0] == '.')
    ensures Unsigned(Sign(negative) + t) == t
    ensures Sign(negative) + t != "" && ((Sign(negative) + t)[0] == '-' <==> negative)
  {
    if negative {
      assert (Sign(negative) + t)[1..] == t;
    } else {
      assert Sign(negative) + t == t;
    }
  }

  /** Digits, then text that does not go on with digits; a point with digits after it may come first. */
  lemma NumberFront(negative: bool, whole: string, tail: string)
    requires AllDigits(whole) && !StartsWithDigit(tail)
    requires whole != "" || (tail != "" && tail[0] == '.' && StartsWithDigit(tail[1..]))
    ensures NumberAt(Sign(negative) + (whole + tail))
            == Some(Number(negative, whole, if tail != "" && tail[0] == '.' then Digits(tail[1..]) else ""))
  {
    hide Digits;
    UnsignedPart(negative, whole + tail);
    DigitsOfJoin(whole, tail);
    DigitsOfNumeral(whole);
    assert (whole + tail)[|whole|..] == tail;
    NoDigitsAhead(if tail == "" then "" else tail[1..]);
  }

  lemma NoDigitsAhead(s: string)
    ensures !StartsWithDigit(s) ==> Digits(s) == ""
  {
  }

  lemma FractionTail(fraction: string, u: Unit)
    requires AllDigits(fraction) && IsUnit(u)
    ensures var tail := FractionText(fraction) + UnitText(u);
            && !StartsWithDigit(tail)
            && (fraction == "" ==> tail == "" || tail[0] != '.')
            && (fraction != "" ==> tail != "" && tail[0] == '.' && Digits(tail[1..]) == fraction)
  {
    hide Digits;
    if fraction != "" {
      assert (FractionText(fraction) + UnitText(u))[1..] == fraction + UnitText(u);
      DigitsOfJoin(fraction, UnitText(u));
      DigitsOfNumeral(fraction);
    }
  }

  lemma ReadNumber(negative: bool, n: nat, fraction: string, u: Unit)
    requires AllDigits(fraction) && IsUnit(u)
    ensures NumberAt(Ungrouped(negative, n, fraction, u)) == Some(Number(negative, Numeral(n), fraction))
  {
    hide Digits, Numeral, NumberAt, StartsWithDigit, FractionText, UnitText, Sign;
    FractionTail(fraction, u);
    NumberFront(negative, Numeral(n), FractionText(fraction) + UnitText(u));
    JoinFour(Sign(negative), Numeral(n), FractionText(fraction), UnitText(u));
  }

  /** A fraction with nothing before its point is a number too. */
  lemma ReadBareFraction(negative: bool, fraction: string, u: Unit)
    requires AllDigits(fraction) && fraction != "" && IsUnit(u)
    ensures NumberAt(Sign(negative) + FractionText(fraction) + UnitText(u)) == Some(Number(negative, "", fraction))
  {
    hide Digits, NumberAt, FractionText, UnitText, Sign;
    FractionTail(fraction, u);
    var tail := FractionText(fraction) + UnitText(u);
    DigitsAtFront(fraction, tail);
    NumberFront(negative, "", tail);
    assert "" + tail == tail;
    JoinThree(Sign(negative), FractionText(fraction), UnitText(u));
  }

  lemma DigitsAtFront(fraction: string, tail: string)
    requires fraction != "" && tail != "" && Digits(tail[1..]) == fraction
    ensures StartsWithDigit(tail[1..])
  {
  }

  /** The number found is the leftmost one in the text, and none is found only where there is none. */
  lemma {:induction false} LeftmostNumber(s: string)
    ensures FirstNumber(s).None? ==> forall i | 0 <= i <= |s| :: NumberAt(s[i..]).None?
    ensures FirstNumber(s).Some? ==>
              exists i | 0 <= i <= |s| ::
                NumberAt(s[i..]) == FirstNumber(s) && forall j | 0 <= j < i :: NumberAt(s[j..]).None?
  {
    hide NumberAt;
    assert s[0..] == s;
    if NumberAt(s).None? && s != "" {
      var t := s[1..];
      LeftmostNumber(t);
      assert forall i | 0 < i <= |s| :: s[i..] == t[i - 1..];
      if FirstNumber(t).Some? {
        var i :| 0 <= i <= |t| && NumberAt(t[i..]) == FirstNumber(t) && forall j | 0 <= j < i :: NumberAt(t[j..]).None?;
        assert NumberAt(s[i + 1..]) == FirstNumber(s);
        assert forall j | 0 <= j < i + 1 :: NumberAt(s[j..]).None?;
      }
    }
  }

  // ---------------------------------------------------------------- reading the unit

  lemma {:induction false} LowerJoin(a: string, b: string)
    ensures Lower(a + b) == Lower(a) + Lower(b)
  {
    if a == "" {
      assert a + b == b;
    } else {
      assert (a + b)[1..] == a[1..] + b;
      LowerJoin(a[1..], b);
    }
  }

  predicate NoCapitals(s: string) {
    forall i | 0 <= i < |s| :: s[i] < 'A'
  }

  lemma {:induction false} LowerKeeps(s: string)
    requires NoCapitals(s)
    ensures Lower(s) == s
  {
    if s != "" {
      LowerKeeps(s[1..]);
      assert s == [s[0]] + s[1..];
    }
  }

  /** Only letters become letters. */
  lemma LetterBelow(s: string, i: nat)
    requires i < |s| && 'a' <= Lower(s)[i] <= 'z'
    ensures IsLetter(s[i])
  {
    LowerAt(s, i);
  }

  predicate Apart(front: string) {
    front == "" || !IsWordChar(front[|front| - 1])
  }

  predicate LowerWord(w: string) {
    w != "" && 'a' <= w[0] <= 'z'
  }

  /** After a text without letters, the one word that can be found is the whole word at the end. */
  lemma OnlyWord(front: string, word: string, words: seq<string>)
    requires NoCapitals(front) && Letters(word) && forall k | 0 <= k < |words| :: LowerWord(words[k])
    ensures FindsWord(front + word, words) <==> Apart(front) && Lower(word) in words
  {
    hide Lower;
    var s := front + word;
    forall i, j | 0 <= i <= j <= |s| && Lower(s[i..j]) in words && Boundary(s, i) && Boundary(s, j)
      ensures i == |front| && j == |s| && Apart(front)
    {
      WordStart(front, word, words, i, j);
    }
    assert s[|front|..|s|] == word;
    if Apart(front) && Lower(word) in words {
      assert Boundary(s, |front|) && Boundary(s, |s|);
    }
  }

  lemma WordStart(front: string, word: string, words: seq<string>, i: nat, j: nat)
    requires NoCapitals(front) && Letters(word) && forall k | 0 <= k < |words| :: LowerWord(words[k])
    requires i <= j <= |front + word| && Lower((front + word)[i..j]) in words
    requires Boundary(front + word, i) && Boundary(front + word, j)
    ensures i == |front| && j == |front + word| && Apart(front)
  {
    hide Lower;
    var s := front + word;
    assert LowerWord(Lower(s[i..j]));
    LetterBelow(s[i..j], 0);
    assert IsLetter(s[i]) && i >= |front|;
    assert forall k | |front| <= k < |s| :: IsWordChar(s[k]);
  }

  /** An ending in letters lies in the word at the end. */
  lemma OnlyEnding(front: string, word: string, tail: string)
    requires NoCapitals(front) && tail != "" && forall k | 0 <= k < |tail| :: 'a' <= tail[k] <= 'z'
    ensures EndsWith(Lower(front + word), tail) <==> EndsWith(Lower(word), tail)
  {
    hide Lower;
    LowerJoin(front, word);
    LowerKeeps(front);
    var s := front + Lower(word);
    assert |tail| > |word| && |tail| <= |s| ==> s[|s| - |tail|] == front[|s| - |tail|] && tail[0] != s[|s| - |tail|];
    assert |tail| <= |word| ==> s[|s| - |tail|..] == Lower(word)[|word| - |tail|..];
  }

  lemma UnitWords()
    ensures forall k | 0 <= k < |CRORE_WORDS| :: LowerWord(CRORE_WORDS[k])
    ensures forall k | 0 <= k < |LAKH_WORDS| :: LowerWord(LAKH_WORDS[k])
    ensures forall w :: w in CRORE_WORDS <==> w == "cr" || w in {"crs", "crore", "crores"}
    ensures forall w :: w in LAKH_WORDS <==> w == "l" || w in {"lakh", "lac", "lacs"}
  {
    assert CRORE_WORDS[0] == "cr" && CRORE_WORDS[1] == "crs" && CRORE_WORDS[2] == "crore" && CRORE_WORDS[3] == "crores";
    assert LAKH_WORDS[0] == "l" && LAKH_WORDS[1] == "lakh" && LAKH_WORDS[2] == "lac" && LAKH_WORDS[3] == "lacs";
  }

  lemma UnitEndings()
    ensures EndsWith("cr", "cr") && EndsWith("l", "l")
  {
  }

  /** Which scale a word after a text without letters gives, both ways. */
  lemma ReadUnit(front: string, word: string)
    requires NoCapitals(front) && Letters(word)
    ensures var w := Lower(word);
            Scale(front + word)
            == if EndsWith(w, "cr") || (Apart(front) && w in {"crs", "crore", "crores"}) then 10000000
               else if EndsWith(w, "l") || (Apart(front) && w in {"lakh", "lac", "lacs"}) then 100000
               else 1
  {
    hide Lower, FindsWord, Apart, EndsWith;
    UnitWords();
    UnitEndings();
    OnlyWord(front, word, CRORE_WORDS);
    OnlyWord(front, word, LAKH_WORDS);
    OnlyEnding(front, word, "cr");
    OnlyEnding(front, word, "l");
  }

  // ---------------------------------------------------------------- the round trip

  lemma DigitAtEnds(n: nat)
    ensures Grouped(n) != "" && IsDigit(Grouped(n)[0]) && IsDigit(Grouped(n)[|Grouped(n)| - 1])
  {
    if n >= 1000 {
      PairsStart(n / 1000);
    }
  }

  lemma {:induction false} PairsStart(n: nat)
    ensures GroupPairs(n) != "" && IsDigit(GroupPairs(n)[0])
  {
    if n >= 100 {
      PairsStart(n / 100);
    }
  }

  lemma VisibleEnds(c: char)
    requires IsDigit(c) || c == '-' || IsLetter(c)
    ensures !IsSpace(c)
  {
  }

  /** A text whose ends are digits, apart from a sign and a unit, is not stripped. */
  lemma NothingToStrip(negative: bool, body: string, fraction: string, u: Unit)
    requires body != "" && IsDigit(body[0]) && IsDigit(body[|body| - 1]) && AllDigits(fraction) && IsUnit(u)
    ensures var s := Sign(negative) + body + FractionText(fraction) + UnitText(u); Strip(s) == s
  {
    hide IsSpace;
    var s := Sign(negative) + body + FractionText(fraction) + UnitText(u);
    VisibleEnds(s[0]);
    VisibleEnds(s[|s| - 1]);
    StripCell(s);
  }

  lemma TokensHaveNoDigit()
    ensures forall t, i | t in NULL_TOKENS && 0 <= i < |t| :: !IsDigit(t[i])
  {
    forall k, i | 0 <= k < |NULL_TOKENS| && 0 <= i < |NULL_TOKENS[k]| ensures !IsDigit(NULL_TOKENS[k][i]) {
    }
  }

  /** A text with a digit is not one of the words for a missing value. */
  lemma NotMissing(a: string, d: char, b: string)
    requires IsDigit(d)
    ensures Lower(a + [d] + b) !in NULL_TOKENS
  {
    var s := Lower(a + [d] + b);
    LowerJoin(a + [d], b);
    LowerJoin(a, [d]);
    LowerKeeps([d]);
    var k := |Lower(a)|;
    assert s[k] == d;
    TokensHaveNoDigit();
  }

  lemma WrittenIsNotMissing(negative: bool, n: nat, fraction: string, u: Unit)
    requires AllDigits(fraction) && IsUnit(u)
    ensures Lower(Strip(Write(negative, n, fraction, u))) !in NULL_TOKENS
  {
    hide Lower, Strip, Grouped, FractionText, UnitText, Sign;
    var g, tail := Grouped(n), FractionText(fraction) + UnitText(u);
    DigitAtEnds(n);
    NothingToStrip(negative, g, fraction, u);
    JoinFour(Sign(negative), g, FractionText(fraction), UnitText(u));
    assert Sign(negative) + (g + tail) == Sign(negative) + [g[0]] + (g[1..] + tail);
    NotMissing(Sign(negative), g[0], g[1..] + tail);
  }

  lemma NumberHasNoLetters(negative: bool, n: nat, fraction: string, gap: string)
    requires AllDigits(fraction) && forall i | 0 <= i < |gap| :: gap[i] == ' '
    ensures var front := Sign(negative) + Numeral(n) + FractionText(fraction) + gap;
            NoCapitals(front) && (Apart(front) <==> gap != "")
  {
    hide Numeral;
    var number := Sign(negative) + Numeral(n) + FractionText(fraction);
    assert IsDigit(number[|number| - 1]);
  }

  lemma UngroupedUnit(negative: bool, n: nat, fraction: string, u: Unit)
    requires AllDigits(fraction) && IsUnit(u)
    ensures Strip(Ungrouped(negative, n, fraction, u)) == Ungrouped(negative, n, fraction, u)
    ensures Scale(Ungrouped(negative, n, fraction, u)) == UnitScale(u)
  {
    hide Strip, Scale, Numeral, Lower, EndsWith, Apart, FractionText;
    NothingToStrip(negative, Numeral(n), fraction, u);
    NumberHasNoLetters(negative, n, fraction, u.gap);
    var number := Sign(negative) + Numeral(n) + FractionText(fraction);
    ReadUnit(number + u.gap, u.word);
    JoinThree(number, u.gap, u.word);
  }

  /** `v` is a whole number nearest to x / p, the even one of two. */
  predicate Nearest(v: int, x: int, p: int) {
    var off := 2 * (x - v * p);
    -p <= off <= p && (off == p || off == -p ==> v % 2 == 0)
  }

  lemma HalfTimes(a: real, p: nat)
    requires -0.5 <= a <= 0.5 && p >= 1
    ensures -(p as real) <= 2.0 * Times(a, p) <= p as real
    ensures 2.0 * Times(a, p) == p as real ==> a == 0.5
    ensures 2.0 * Times(a, p) == -(p as real) ==> a == -0.5
  {
    var x := p as real;
    var up, down := 0.5 - a, a + 0.5;
    assert up * x >= 0.0 && down * x >= 0.0;
    assert up * x == 0.5 * x - a * x && down * x == a * x + 0.5 * x;
    assert up > 0.0 ==> up * x > 0.0;
    assert down > 0.0 ==> down * x > 0.0;
  }

  lemma TimesLess(y: real, v: int, p: nat)
    ensures Times(y - v as real, p) == Times(y, p) - (v * p) as real
  {
    assert (v * p) as real == v as real * p as real;
  }

  /** Twice a real product that is a whole number, in whole numbers. */
  lemma InWholeNumbers(t: real, off: int, p: int)
    requires off as real == 2.0 * t && -(p as real) <= 2.0 * t <= p as real
    ensures -p <= off <= p
    ensures off == p ==> 2.0 * t == p as real
    ensures off == -p ==> 2.0 * t == -(p as real)
  {
  }

  lemma RoundIsNearest(y: real, x: int, p: nat)
    requires p >= 1 && Times(y, p) == x as real
    ensures Nearest(Round(y), x, p)
  {
    hide Round, Times;
    var v := Round(y);
    TimesLess(y, v, p);
    HalfTimes(y - v as real, p);
    InWholeNumbers(Times(y - v as real, p), 2 * (x - v * p), p);
  }

  lemma WrittenProduct(negative: bool, n: nat, f: nat, p: nat, scale: nat)
    requires p >= 1
    ensures var magnitude := (n * p + f) * scale;
            Times(Times(Signed(negative, n as real + f as real / p as real), scale), p)
            == (if negative then -magnitude else magnitude) as real
  {
    var q := n as real + f as real / p as real;
    assert q * p as real == (n * p + f) as real by {
      assert (n * p) as real == n as real * p as real;
      assert f as real / p as real * p as real == f as real;
    }
    var m := (n * p + f) as real;
    assert q * scale as real * p as real == m * scale as real by {
      assert q * scale as real * p as real == q * p as real * scale as real;
    }
    assert m * scale as real == ((n * p + f) * scale) as real;
    assert -q * scale as real * p as real == -(q * scale as real * p as real);
  }

  lemma ReadsAsRounded(negative: bool, n: nat, fraction: string, u: Unit)
    requires AllDigits(fraction) && IsUnit(u)
    ensures NormalizeVolume(Write(negative, n, fraction, u))
            == Some(Round(Times(Signed(negative, Magnitude(n, fraction)), UnitScale(u))))
  {
    hide Lower, Strip, RemoveCommas, Numeral, NumberAt, Scale, Round, Magnitude, Write, Ungrouped, UnitScale, Times;
    WrittenIsNotMissing(negative, n, fraction, u);
    OnlyCommasGo(negative, n, fraction, u);
    UngroupedUnit(negative, n, fraction, u);
    ReadNumber(negative, n, fraction, u);
    NumeralRoundTrip(n);
    assert FirstNumber(Ungrouped(negative, n, fraction, u)) == Some(Number(negative, Numeral(n), fraction));
    assert ValueOf(Number(negative, Numeral(n), fraction)) == Signed(negative, Magnitude(n, fraction));
  }

  /**
   Reading back a grouped number with a fraction and a unit: the whole number nearest to the exact
   value, which is (n * p + f) * scale over p, for a fraction of value f and p = 10 to its length.
   */
  lemma VolumeReadsBack(negative: bool, n: nat, fraction: string, u: Unit)
    requires AllDigits(fraction) && IsUnit(u)
    ensures var p, f := Pow10(|fraction|), NumeralValue(fraction);
            var magnitude := (n * p + f) * UnitScale(u);
            && NormalizeVolume(Write(negative, n, fraction, u)).Some?
            && Nearest(NormalizeVolume(Write(negative, n, fraction, u)).value,
                       if negative then -magnitude else magnitude, p)
  {
    hide NormalizeVolume, Write, Round, UnitScale, Times, Signed, Nearest, NumeralValue, Pow10;
    ReadsAsRounded(negative, n, fraction, u);
    var p, f := Pow10(|fraction|), NumeralValue(fraction);
    WrittenProduct(negative, n, f, p, UnitScale(u));
    var magnitude := (n * p + f) * UnitScale(u);
    RoundIsNearest(Times(Signed(negative, Magnitude(n, fraction)), UnitScale(u)),
                   if negative then -magnitude else magnitude, p);
  }

  /** A value that is whole is its own nearest. */
  lemma NearestOfWhole(v: int, w: int)
    requires Nearest(v, w, 1)
    ensures v == w
  {
  }

  /** A whole grouped number reads back as itself, or times 10^5 or 10^7. */
  lemma WholeVolumes(n: nat, u: Unit)
    requires IsUnit(u)
    ensures NormalizeVolume(Grouped(n) + UnitText(u)) == Some(n * UnitScale(u))
  {
    hide NormalizeVolume, Grouped, UnitScale, UnitText, Nearest;
    VolumeReadsBack(false, n, "", u);
    assert Write(false, n, "", u) == Grouped(n) + UnitText(u);
    NearestOfWhole(NormalizeVolume(Grouped(n) + UnitText(u)).value, n * UnitScale(u));
  }

  /** In particular for the units L and Cr. */
  lemma LakhsAndCrores(n: nat)
    ensures NormalizeVolume(Grouped(n)) == Some(n)
    ensures NormalizeVolume(Grouped(n) + "L") == Some(n * 100000)
    ensures NormalizeVolume(Grouped(n) + "Cr") == Some(n * 10000000)
  {
    hide NormalizeVolume, Grouped;
    LowerUnits();
    WholeVolumes(n, Unit("", ""));
    WholeVolumes(n, Unit("", "L"));
    WholeVolumes(n, Unit("", "Cr"));
    assert Grouped(n) + ("" + "") == Grouped(n) && "" + "L" == "L" && "" + "Cr" == "Cr";
  }

  /** A longer word written right after the number is not seen: "5lakh" reads as 5, "5 lakh" as 500000. */
  lemma GluedWordsAreNotSeen(n: nat)
    ensures NormalizeVolume(Grouped(n) + "lakh") == Some(n)
    ensures NormalizeVolume(Grouped(n) + " lakh") == Some(n * 100000)
  {
    hide NormalizeVolume, Grouped, UnitScale;
    LakhScales();
    WholeVolumes(n, Unit("", "lakh"));
    WholeVolumes(n, Unit(" ", "lakh"));
    assert "" + "lakh" == "lakh" && " " + "lakh" == " lakh";
  }

  lemma LakhScales()
    ensures UnitScale(Unit("", "lakh")) == 1 && UnitScale(Unit(" ", "lakh")) == 100000
  {
    hide Lower;
    LowerLakh();
    assert "lakh"[3] == 'h' && "lakh"[2..] == "kh";
  }

  lemma LowerLakh()
    ensures Lower("lakh") == "lakh"
  {
    assert "lakh"[1..] == "akh" && "akh"[1..] == "kh" && "kh"[1..] == "h" && "h"[1..] == "";
  }

  lemma LowerUnits()
    ensures Lower("") == "" && Lower("L") == "l" && Lower("Cr") == "cr"
  {
    assert "Cr"[1..] == "r" && "r"[1..] == "" && "L"[1..] == "";
  }
}
