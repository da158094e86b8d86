/**
 ISO 8601 text standing in for time order in SQLite: `datetime.isoformat()` as written by
 `_encode_value` of services/sqlite_storage.py, and the `scraped_at` default of
 database/schema_sqlite.sql.
 */
module IsoTime {
  import opened Common
  import opened Decimal

  // ---------------------------------------------------------------- the calendar

  datatype DateTime = DateTime(year: nat, month: nat, day: nat, hour: nat, minute: nat, second: nat, micro: nat)

  function Leap(y: nat): nat {
    if y % 4 == 0 && (y % 100 != 0 || y % 400 == 0) then 1 else 0
  }

  function DaysInMonth(y: nat, m: nat): nat {
    if m == 2 then 28 + Leap(y) else if m == 4 || m == 6 || m == 9 || m == 11 then 30 else 31
  }

  predicate Valid(t: DateTime) {
    && 1 <= t.year <= 9999 && 1 <= t.month <= 12 && 1 <= t.day <= DaysInMonth(t.year, t.month)
    && t.hour < 24 && t.minute < 60 && t.second < 60 && t.micro < 1000000
  }

  function DaysBeforeYear(y: nat): int
    requires y >= 1
  {
    (y - 1) * 365 + (y - 1) / 4 - (y - 1) / 100 + (y - 1) / 400
  }

  function DaysBeforeMonth(y: nat, m: nat): nat
    requires 1 <= m
  {
    if m == 1 then 0 else DaysBeforeMonth(y, m - 1) + DaysInMonth(y, m - 1)
  }

  /** `date.toordinal()`. */
  function Ordinal(y: nat, m: nat, d: nat): int
    requires y >= 1 && m >= 1
  {
    DaysBeforeYear(y) + DaysBeforeMonth(y, m) + d
  }

  /** Seconds since a fixed instant of the same UTC offset. */
  function Seconds(t: DateTime): int
    requires Valid(t)
  {
    Ordinal(t.year, t.month, t.day) * 86400 + t.hour * 3600 + t.minute * 60 + t.second
  }

  function Instant(t: DateTime): int
    requires Valid(t)
  {
    Seconds(t) * 1000000 + t.micro
  }

  lemma {:induction false} MonthsGrow(y: nat, m: nat, n: nat)
    requires 1 <= m < n
    ensures DaysBeforeMonth(y, m) + DaysInMonth(y, m) <= DaysBeforeMonth(y, n)
    decreases n
  {
    if m < n - 1 {
      MonthsGrow(y, m, n - 1);
    }
  }

  lemma Remainder(k: nat)
    ensures 4 * k % 4 == 0 && 100 * k % 100 == 0
  {
  }

  lemma CenturiesAreFourths(y: nat)
    ensures y % 400 == 0 ==> y % 100 == 0
    ensures y % 100 == 0 ==> y % 4 == 0
  {
    if y % 100 == 0 {
      assert y == 4 * (25 * (y / 100));
      Remainder(25 * (y / 100));
    }
    if y % 400 == 0 {
      assert y == 100 * (4 * (y / 400));
      Remainder(4 * (y / 400));
    }
  }

  lemma LeapSum(a: int, b: int, c: int, fourth: bool, century: bool, leapCentury: bool)
    requires (leapCentury ==> century) && (century ==> fourth)
    ensures var (a', b') := (a + if fourth then 1 else 0, b + if century then 1 else 0);
            var c' := c + if leapCentury then 1 else 0;
            a' - b' + c' == a - b + c + if fourth && (!century || leapCentury) then 1 else 0
  {
  }

  /** The days before each month, spelled out. */
  lemma MonthTable(y: nat)
    ensures DaysBeforeMonth(y, 1) == 0 && DaysBeforeMonth(y, 2) == 31 && DaysBeforeMonth(y, 3) == 59 + Leap(y)
    ensures DaysBeforeMonth(y, 4) == 90 + Leap(y) && DaysBeforeMonth(y, 5) == 120 + Leap(y)
    ensures DaysBeforeMonth(y, 6) == 151 + Leap(y) && DaysBeforeMonth(y, 7) == 181 + Leap(y)
    ensures DaysBeforeMonth(y, 8) == 212 + Leap(y) && DaysBeforeMonth(y, 9) == 243 + Leap(y)
    ensures DaysBeforeMonth(y, 10) == 273 + Leap(y) && DaysBeforeMonth(y, 11) == 304 + Leap(y)
    ensures DaysBeforeMonth(y, 12) == 334 + Leap(y) && DaysBeforeMonth(y, 13) == 365 + Leap(y)
  {
    assert DaysBeforeMonth(y, 3) == DaysBeforeMonth(y, 2) + 28 + Leap(y);
    assert DaysBeforeMonth(y, 5) == DaysBeforeMonth(y, 4) + 30;
    assert DaysBeforeMonth(y, 7) == DaysBeforeMonth(y, 6) + 30;
    assert DaysBeforeMonth(y, 9) == DaysBeforeMonth(y, 8) + 31;
    assert DaysBeforeMonth(y, 11) == DaysBeforeMonth(y, 10) + 31;
  }

  lemma CountLeapYears(y: nat)
    requires y >= 1
    ensures y / 4 - y / 100 + y / 400 == (y - 1) / 4 - (y - 1) / 100 + (y - 1) / 400 + Leap(y)
  {
    Multiples(y, 4);
    Multiples(y, 100);
    Multiples(y, 400);
    CenturiesAreFourths(y);
    LeapSum((y - 1) / 4, (y - 1) / 100, (y - 1) / 400, y % 4 == 0, y % 100 == 0, y % 400 == 0);
  }

  lemma Multiples(y: nat, k: nat)
    requires y >= 1 && (k == 4 || k == 100 || k == 400)
    ensures y / k == (y - 1) / k + if y % k == 0 then 1 else 0
  {
  }

  lemma YearLength(y: nat)
    requires y >= 1
    ensures DaysBeforeYear(y + 1) == DaysBeforeYear(y) + DaysBeforeMonth(y, 13)
  {
    MonthTable(y);
    CountLeapYears(y);
  }

  lemma {:induction false} YearsGrow(y: nat, z: nat)
    requires 1 <= y < z
    ensures DaysBeforeYear(y) + DaysBeforeMonth(y, 13) <= DaysBeforeYear(z)
    decreases z
  {
    if y < z - 1 {
      YearsGrow(y, z - 1);
      YearLength(z - 1);
    } else {
      YearLength(y);
    }
  }

  // ---------------------------------------------------------------- field order is time order

  predicate DateLess(t: DateTime, u: DateTime) {
    t.year < u.year || (t.year == u.year && (t.month < u.month || (t.month == u.month && t.day < u.day)))
  }

  lemma DateOrder(t: DateTime, u: DateTime)
    requires Valid(t) && Valid(u) && DateLess(t, u)
    ensures Ordinal(t.year, t.month, t.day) < Ordinal(u.year, u.month, u.day)
  {
    if t.year < u.year {
      MonthsGrow(t.year, t.month, 13);
      YearsGrow(t.year, u.year);
    } else if t.month < u.month {
      MonthsGrow(t.year, t.month, u.month);
    }
  }

  function Clock(t: DateTime): nat {
    t.hour * 3600 + t.minute * 60 + t.second
  }

  predicate ClockLess(t: DateTime, u: DateTime) {
    t.hour < u.hour || (t.hour == u.hour && (t.minute < u.minute || (t.minute == u.minute && t.second < u.second)))
  }

  predicate SecondLess(t: DateTime, u: DateTime) {
    DateLess(t, u) || ((t.year, t.month, t.day) == (u.year, u.month, u.day) && ClockLess(t, u))
  }

  predicate SameSecond(t: DateTime, u: DateTime) {
    t.(micro := 0) == u.(micro := 0)
  }

  lemma SecondOrder(t: DateTime, u: DateTime)
    requires Valid(t) && Valid(u)
    ensures SecondLess(t, u) <==> Seconds(t) < Seconds(u)
    ensures SameSecond(t, u) <==> Seconds(t) == Seconds(u)
  {
    assert Clock(t) < 86400 && Clock(u) < 86400;
    assert ClockLess(t, u) <==> Clock(t) < Clock(u);
    if DateLess(t, u) {
      DateOrder(t, u);
    } else if DateLess(u, t) {
      DateOrder(u, t);
    }
  }

  // ---------------------------------------------------------------- the text

  /** A zero-padded field and the separator after it. */
  datatype Field = Field(value: nat, width: nat, sep: string)

  function FieldText(fs: seq<Field>): string {
    if fs == [] then "" else Pad(fs[0].value, fs[0].width) + fs[0].sep + FieldText(fs[1..])
  }

  /** Everything down to the second. */
  function ToSecond(t: DateTime): seq<Field> {
    [Field(t.year, 4, "-"), Field(t.month, 2, "-"), Field(t.day, 2, "T"),
     Field(t.hour, 2, ":"), Field(t.minute, 2, ":"), Field(t.second, 2, "")]
  }

  /** `isoformat()` leaves the fraction out when it is zero. */
  function Fraction(micro: nat): string {
    if micro == 0 then "" else "." + Pad(micro, 6)
  }

  function IsoFormat(t: DateTime, offset: string): string {
    FieldText(ToSecond(t)) + Fraction(t.micro) + offset
  }

  /** `strftime('%Y-%m-%dT%H:%M:%fZ', ...)`: always three digits and a Z. */
  function SqliteNow(t: DateTime): string {
    FieldText(ToSecond(t)) + "." + Pad(t.micro / 1000, 3) + "Z"
  }

  predicate FieldsLess(fs: seq<Field>, gs: seq<Field>)
    requires |fs| == |gs|
  {
    fs != [] && (fs[0].value < gs[0].value || (fs[0].value == gs[0].value && FieldsLess(fs[1..], gs[1..])))
  }

  predicate Comparable(fs: seq<Field>, gs: seq<Field>) {
    && |fs| == |gs|
    && forall i | 0 <= i < |fs| ::
         && fs[i].width == gs[i].width && fs[i].sep == gs[i].sep
         && fs[i].value < Pow10(fs[i].width) && gs[i].value < Pow10(gs[i].width)
  }

  lemma Powers()
    ensures Pow10(2) == 100 && Pow10(3) == 1000 && Pow10(4) == 10000 && Pow10(6) == 1000000
  {
    assert Pow10(3) == 10 * Pow10(2) == 100 * Pow10(1);
    assert Pow10(6) == 10 * Pow10(5) == 100 * Pow10(4);
  }

  // ---------------------------------------------------------------- reading the text back

  /** The numbers of fixed-width fields at the front of a text, and what follows them. */
  function ReadFields(s: string, shape: seq<(nat, string)>): (r: Option<(seq<nat>, string)>)
    ensures r.Some? ==> |r.value.0| == |shape|
    decreases |shape|
  {
    if shape == [] then Some(([], s))
    else
      var (width, sep) := shape[0];
      if |s| < width + |sep| || !AllDigits(s[..width]) || s[width..width + |sep|] != sep then None
      else
        match ReadFields(s[width + |sep|..], shape[1..])
        case None => None
        case Some((values, rest)) => Some(([NumeralValue(s[..width])] + values, rest))
  }

  /** `datetime.fromisoformat`, by position: 2026-05-15T09:30:00, a fraction if there is one, the offset. */
  function ReadIso(s: string): Option<(DateTime, string)> {
    match ReadFields(s, [(4, "-"), (2, "-"), (2, "T"), (2, ":"), (2, ":"), (2, "")])
    case None => None
    case Some((v, rest)) =>
      if rest != "" && rest[0] == '.' then
        match ReadFields(rest[1..], [(6, "")])
        case None => None
        case Some((micro, offset)) => Some((DateTime(v[0], v[1], v[2], v[3], v[4], v[5], micro[0]), offset))
      else Some((DateTime(v[0], v[1], v[2], v[3], v[4], v[5], 0), rest))
  }

  function Shape(fs: seq<Field>): seq<(nat, string)> {
    seq(|fs|, i requires 0 <= i < |fs| => (fs[i].width, fs[i].sep))
  }

  function Values(fs: seq<Field>): seq<nat> {
    seq(|fs|, i requires 0 <= i < |fs| => fs[i].value)
  }

  lemma Cut(a: string, b: string, c: string)
    ensures var s := a + b + c;
            s[..|a|] == a && s[|a|..|a| + |b|] == b && s[|a| + |b|..] == c
  {
  }

  lemma ReadOne(f: Field, rest: string, shape: seq<(nat, string)>)
    requires f.value < Pow10(f.width)
    ensures ReadFields(Pad(f.value, f.width) + f.sep + rest, [(f.width, f.sep)] + shape)
            == match ReadFields(rest, shape)
               case None => None
               case Some((values, more)) => Some(([f.value] + values, more))
  {
    hide Pad, Pow10, NumeralValue, ReadFields;
    PadValue(f.value, f.width);
    Cut(Pad(f.value, f.width), f.sep, rest);
    ReadStep(Pad(f.value, f.width) + f.sep + rest, f.width, f.sep, shape);
  }

  lemma ReadStep(s: string, width: nat, sep: string, shape: seq<(nat, string)>)
    requires width + |sep| <= |s| && AllDigits(s[..width]) && s[width..width + |sep|] == sep
    ensures ReadFields(s, [(width, sep)] + shape)
            == match ReadFields(s[width + |sep|..], shape)
               case None => None
               case Some((values, more)) => Some(([NumeralValue(s[..width])] + values, more))
  {
    assert ([(width, sep)] + shape)[1..] == shape;
  }

  lemma ReadNothing(s: string)
    ensures ReadFields(s, []) == Some(([], s))
  {
  }

  lemma {:induction false} ReadWritten(fs: seq<Field>, rest: string)
    requires forall i | 0 <= i < |fs| :: fs[i].value < Pow10(fs[i].width)
    ensures ReadFields(FieldText(fs) + rest, Shape(fs)) == Some((Values(fs), rest))
    decreases |fs|
  {
    hide Pad, Pow10, NumeralValue, ReadFields;
    if fs == [] {
      assert FieldText(fs) + rest == rest;
      ReadNothing(rest);
    } else {
      var f := fs[0];
      JoinFour(Pad(f.value, f.width), f.sep, FieldText(fs[1..]), rest);
      JoinThree(Pad(f.value, f.width), f.sep, FieldText(fs[1..]) + rest);
      ReadOne(f, FieldText(fs[1..]) + rest, Shape(fs[1..]));
      ReadWritten(fs[1..], rest);
      assert Shape(fs) == [(f.width, f.sep)] + Shape(fs[1..]);
      assert Values(fs) == [f.value] + Values(fs[1..]);
    }
  }

  lemma ToSecondShape(t: DateTime)
    requires Valid(t)
    ensures Shape(ToSecond(t)) == [(4, "-"), (2, "-"), (2, "T"), (2, ":"), (2, ":"), (2, "")]
    ensures Values(ToSecond(t)) == [t.year, t.month, t.day, t.hour, t.minute, t.second]
    ensures forall i | 0 <= i < |ToSecond(t)| :: ToSecond(t)[i].value < Pow10(ToSecond(t)[i].width)
  {
    Powers();
  }

  lemma ReadFraction(micro: nat, offset: string)
    requires 0 < micro < 1000000
    ensures var s := Fraction(micro) + offset;
            s[0] == '.' && ReadFields(s[1..], [(6, "")]) == Some(([micro], offset))
  {
    hide Pad, Pow10, ReadFields;
    Powers();
    ReadOne(Field(micro, 6, ""), offset, []);
    ReadNothing(offset);
    assert Pad(micro, 6) + "" + offset == (Fraction(micro) + offset)[1..];
    assert [(6, "")] + [] == [(6, "")] && [micro] + [] == [micro];
  }

  /** What is written reads back: every field in its place, the microseconds and the offset. */
  lemma IsoReadsBack(t: DateTime, offset: string)
    requires Valid(t) && PlainOffset(offset)
    ensures ReadIso(IsoFormat(t, offset)) == Some((t, offset))
  {
    hide ToSecond, FieldText, ReadFields, Shape, Values;
    var rest := Fraction(t.micro) + offset;
    JoinThree(FieldText(ToSecond(t)), Fraction(t.micro), offset);
    ToSecondShape(t);
    ReadWritten(ToSecond(t), rest);
    if t.micro > 0 {
      ReadFraction(t.micro, offset);
    } else {
      assert rest == offset;
    }
  }

  /** The `scraped_at` default, likewise, to the millisecond. */
  lemma SqliteNowReadsBack(t: DateTime)
    requires Valid(t)
    ensures ReadFields(SqliteNow(t), [(4, "-"), (2, "-"), (2, "T"), (2, ":"), (2, ":"), (2, ".")] + [(3, "Z")])
            == Some(([t.year, t.month, t.day, t.hour, t.minute, t.second] + [t.micro / 1000], ""))
  {
    hide Pad, Pow10, ReadFields;
    Powers();
    var fs := [Field(t.year, 4, "-"), Field(t.month, 2, "-"), Field(t.day, 2, "T"),
               Field(t.hour, 2, ":"), Field(t.minute, 2, ":"), Field(t.second, 2, ".")]
              + [Field(t.micro / 1000, 3, "Z")];
    ReadWritten(fs, "");
    assert Shape(fs) == [(4, "-"), (2, "-"), (2, "T"), (2, ":"), (2, ":"), (2, ".")] + [(3, "Z")];
    assert Values(fs) == [t.year, t.month, t.day, t.hour, t.minute, t.second] + [t.micro / 1000];
    SqliteNowFields(t);
    assert FieldText(fs) + "" == FieldText(fs);
  }

  lemma {:induction false} TextOfJoin(fs: seq<Field>, gs: seq<Field>)
    ensures FieldText(fs + gs) == FieldText(fs) + FieldText(gs)
  {
    hide Pad;
    if fs == [] {
      assert fs + gs == gs;
    } else {
      assert (fs + gs)[1..] == fs[1..] + gs;
      TextOfJoin(fs[1..], gs);
    }
  }

  lemma OneField(f: Field)
    ensures FieldText([f]) == Pad(f.value, f.width) + f.sep
  {
    assert [f][1..] == [];
  }

  lemma SqliteNowFields(t: DateTime)
    ensures SqliteNow(t) == FieldText([Field(t.year, 4, "-"), Field(t.month, 2, "-"), Field(t.day, 2, "T"),
                                       Field(t.hour, 2, ":"), Field(t.minute, 2, ":"), Field(t.second, 2, ".")]
                                      + [Field(t.micro / 1000, 3, "Z")])
  {
    hide Pad, FieldText;
    var front := [Field(t.year, 4, "-"), Field(t.month, 2, "-"), Field(t.day, 2, "T"),
                  Field(t.hour, 2, ":"), Field(t.minute, 2, ":")];
    var plain, dotted, milli := Field(t.second, 2, ""), Field(t.second, 2, "."), Field(t.micro / 1000, 3, "Z");
    TextOfJoin(front, [plain]);
    TextOfJoin(front, [dotted]);
    TextOfJoin(front + [dotted], [milli]);
    OneField(plain);
    OneField(dotted);
    OneField(milli);
    assert ToSecond(t) == front + [plain];
    assert front + [dotted] == [Field(t.year, 4, "-"), Field(t.month, 2, "-"), Field(t.day, 2, "T"),
                                Field(t.hour, 2, ":"), Field(t.minute, 2, ":"), Field(t.second, 2, ".")];
    Glue(FieldText(front), Pad(t.second, 2), Pad(t.micro / 1000, 3));
  }

  lemma Glue(front: string, second: string, milli: string)
    ensures front + (second + "") + "." + milli + "Z" == front + (second + ".") + (milli + "Z")
  {
    assert second + "" == second;
    assert front + second + "." == front + (second + ".");
  }

  lemma {:induction false} SameStart(p: string, s: string, t: string)
    ensures Less(p + s, p + t) <==> Less(s, t)
  {
    if p == "" {
      assert p + s == s && p + t == t;
    } else {
      assert p + s == [p[0]] + (p[1..] + s) && p + t == [p[0]] + (p[1..] + t);
      LessCons(p[0], p[1..] + s, p[0], p[1..] + t);
      SameStart(p[1..], s, t);
    }
  }

  /** Field by field, text order is the order of the values, then of what follows. */
  lemma {:induction false} FieldTextOrder(fs: seq<Field>, gs: seq<Field>, s: string, t: string)
    requires Comparable(fs, gs)
    ensures Less(FieldText(fs) + s, FieldText(gs) + t) <==> FieldsLess(fs, gs) || (fs == gs && Less(s, t))
    decreases |fs|
  {
    hide Pad, Less, Pow10;
    if fs == [] {
      assert FieldText(fs) + s == s && FieldText(gs) + t == t;
    } else {
      var f, g := fs[0], gs[0];
      var a, b := FieldText(fs[1..]) + s, FieldText(gs[1..]) + t;
      JoinFour(Pad(f.value, f.width), f.sep, FieldText(fs[1..]), s);
      JoinFour(Pad(g.value, g.width), g.sep, FieldText(gs[1..]), t);
      PadOrder(f.value, g.value, f.width, f.sep + a, g.sep + b);
      SameStart(f.sep, a, b);
      FieldTextOrder(fs[1..], gs[1..], s, t);
      assert fs == [f] + fs[1..] && gs == [g] + gs[1..];
    }
  }

  lemma FieldsLessCons(f: Field, fs: seq<Field>, g: Field, gs: seq<Field>)
    requires |fs| == |gs|
    ensures FieldsLess([f] + fs, [g] + gs) <==> f.value < g.value || (f.value == g.value && FieldsLess(fs, gs))
  {
    assert ([f] + fs)[1..] == fs && ([g] + gs)[1..] == gs;
  }

  lemma NoFields()
    ensures !FieldsLess([], [])
  {
  }

  /** Lexicographic order of the last `n` of the fields, spelled out. */
  predicate LaterLess(fs: seq<Field>, gs: seq<Field>, n: nat)
    requires n <= |fs| == |gs|
  {
    n > 0 &&
    var i := |fs| - n;
    (fs[i].value < gs[i].value || (fs[i].value == gs[i].value && LaterLess(fs, gs, n - 1)))
  }

  lemma {:induction false} LaterLessMeaning(fs: seq<Field>, gs: seq<Field>, n: nat)
    requires n <= |fs| == |gs|
    ensures FieldsLess(fs[|fs| - n..], gs[|fs| - n..]) <==> LaterLess(fs, gs, n)
  {
    hide FieldsLess;
    if n == 0 {
      NoFields();
      assert fs[|fs|..] == [] && gs[|gs|..] == [];
    } else {
      FieldsLessFrom(fs, gs, |fs| - n);
      LaterLessMeaning(fs, gs, n - 1);
    }
  }

  lemma ToSecondMeaning(t: DateTime, u: DateTime)
    ensures FieldsLess(ToSecond(t), ToSecond(u)) <==> SecondLess(t, u)
    ensures ToSecond(t) == ToSecond(u) <==> SameSecond(t, u)
  {
    hide FieldsLess;
    var fs, gs := ToSecond(t), ToSecond(u);
    LaterLessMeaning(fs, gs, 6);
    assert fs[0..] == fs && gs[0..] == gs;
    assert LaterLess(fs, gs, 3) <==> ClockLess(t, u) by {
      assert LaterLess(fs, gs, 1) <==> t.second < u.second;
    }
    assert LaterLess(fs, gs, 5) <==> t.month < u.month || (t.month == u.month && LaterLess(fs, gs, 4));
    SameFields(t, u);
  }

  lemma SameFields(t: DateTime, u: DateTime)
    ensures ToSecond(t) == ToSecond(u) <==> SameSecond(t, u)
  {
    if ToSecond(t) == ToSecond(u) {
      assert forall i | 0 <= i < 6 :: ToSecond(t)[i].value == ToSecond(u)[i].value;
    }
  }

  lemma FieldsLessFrom(fs: seq<Field>, gs: seq<Field>, i: nat)
    requires i < |fs| == |gs|
    ensures FieldsLess(fs[i..], gs[i..])
            <==> fs[i].value < gs[i].value || (fs[i].value == gs[i].value && FieldsLess(fs[i + 1..], gs[i + 1..]))
  {
    assert fs[i..] == [fs[i]] + fs[i + 1..] && gs[i..] == [gs[i]] + gs[i + 1..];
    FieldsLessCons(fs[i], fs[i + 1..], gs[i], gs[i + 1..]);
  }

  lemma ToSecondOrder(t: DateTime, u: DateTime, s: string, v: string)
    requires Valid(t) && Valid(u)
    ensures Less(FieldText(ToSecond(t)) + s, FieldText(ToSecond(u)) + v)
            <==> Seconds(t) < Seconds(u) || (Seconds(t) == Seconds(u) && Less(s, v))
  {
    Powers();
    FieldTextOrder(ToSecond(t), ToSecond(u), s, v);
    ToSecondMeaning(t, u);
    SecondOrder(t, u);
  }

  // ---------------------------------------------------------------- the two claims

  /** What Python writes for one UTC offset: nothing, or a sign and digits. */
  predicate PlainOffset(offset: string) {
    offset == "" || offset[0] == '+' || offset[0] == '-'
  }

  /** '+' and '-' sort before '.', and so does the end of the text. */
  lemma OffsetBeforeFraction(offset: string, fraction: string)
    requires PlainOffset(offset)
    ensures Less(offset, ['.'] + fraction) && !Less(['.'] + fraction, offset)
  {
    LessIsStrict(offset);
  }

  /** Fractions first, then what follows them. */
  lemma FractionOrder(m: nat, n: nat, a: string, b: string)
    requires m < 1000000 && n < 1000000 && PlainOffset(a) && PlainOffset(b)
    ensures Less(Fraction(m) + a, Fraction(n) + b) <==> m < n || (m == n && Less(a, b))
  {
    hide Pad, Less, Pow10, PlainOffset;
    var s, t := Pad(m, 6) + a, Pad(n, 6) + b;
    assert m > 0 ==> Fraction(m) + a == ['.'] + s;
    assert n > 0 ==> Fraction(n) + b == ['.'] + t;
    assert Fraction(0) + a == a && Fraction(0) + b == b;
    OffsetBeforeFraction(a, t);
    OffsetBeforeFraction(b, s);
    LessCons('.', s, '.', t);
    Powers();
    PadOrder(m, n, 6, a, b);
  }

  lemma InstantOrder(t: DateTime, u: DateTime)
    requires Valid(t) && Valid(u)
    ensures Instant(t) < Instant(u) <==> Seconds(t) < Seconds(u) || (Seconds(t) == Seconds(u) && t.micro < u.micro)
    ensures Instant(t) == Instant(u) <==> Seconds(t) == Seconds(u) && t.micro == u.micro
    ensures Instant(t) / 1000 < Instant(u) / 1000
            <==> Seconds(t) < Seconds(u) || (Seconds(t) == Seconds(u) && t.micro / 1000 < u.micro / 1000)
    ensures t.micro < 1000000 && u.micro < 1000000
  {
    hide Seconds;
    assert Instant(t) / 1000 == Seconds(t) * 1000 + t.micro / 1000;
    assert Instant(u) / 1000 == Seconds(u) * 1000 + u.micro / 1000;
  }

  /** Across two offsets, text order is the order of the local clocks, then of the offsets' text. */
  lemma TextOrderAcrossOffsets(t: DateTime, u: DateTime, a: string, b: string)
    requires Valid(t) && Valid(u) && PlainOffset(a) && PlainOffset(b)
    ensures Less(IsoFormat(t, a), IsoFormat(u, b))
            <==> Instant(t) < Instant(u) || (Instant(t) == Instant(u) && Less(a, b))
  {
    hide Less, FieldText, ToSecond, Fraction, PlainOffset, Valid, Instant, Seconds;
    ToSecondOrder(t, u, Fraction(t.micro) + a, Fraction(u.micro) + b);
    InstantOrder(t, u);
    FractionOrder(t.micro, u.micro, a, b);
    JoinThree(FieldText(ToSecond(t)), Fraction(t.micro), a);
    JoinThree(FieldText(ToSecond(u)), Fraction(u.micro), b);
  }

  /** For datetimes of one offset, text order is time order, with or without microseconds. */
  lemma TextOrderIsTimeOrder(t: DateTime, u: DateTime, offset: string)
    requires Valid(t) && Valid(u) && PlainOffset(offset)
    ensures Less(IsoFormat(t, offset), IsoFormat(u, offset)) <==> Instant(t) < Instant(u)
  {
    TextOrderAcrossOffsets(t, u, offset, offset);
    LessIsStrict(offset);
  }

  /** The instant itself: the local clock less the offset, here in minutes. */
  function Utc(t: DateTime, offset: int): int
    requires Valid(t)
  {
    Instant(t) - offset * 60000000
  }

  /** `+05:30`. */
  function OffsetText(offset: int): (s: string)
    ensures PlainOffset(s)
  {
    var minutes: nat := if offset < 0 then -offset else offset;
    (if offset < 0 then "-" else "+") + Pad(minutes / 60, 2) + ":" + Pad(minutes % 60, 2)
  }

  /** Hours and minutes read back, and the sign tells the rest. */
  lemma OffsetReadsBack(offset: int)
    requires -1440 < offset < 1440
    ensures var s := OffsetText(offset);
            && s[0] == (if offset < 0 then '-' else '+')
            && exists h: nat, m: nat ::
                 && ReadFields(s[1..], [(2, ":"), (2, "")]) == Some(([h, m], ""))
                 && offset == if offset < 0 then -(60 * h + m) else 60 * h + m
  {
    hide Pad, Pow10, ReadFields, FieldText;
    Powers();
    var minutes: nat := if offset < 0 then -offset else offset;
    var h, m := Field(minutes / 60, 2, ":"), Field(minutes % 60, 2, "");
    ReadWritten([h, m], "");
    assert Shape([h, m]) == [(2, ":"), (2, "")] && Values([h, m]) == [minutes / 60, minutes % 60];
    TextOfJoin([h], [m]);
    OneField(h);
    OneField(m);
    assert [h] + [m] == [h, m];
    assert FieldText([h, m]) + "" == OffsetText(offset)[1..];
  }

  /**
   For two datetimes of any offsets, text order is time order exactly when their local clocks are
   not between zero and the difference of the offsets apart.
   */
  lemma OffsetsAgreeExactlyWhen(t: DateTime, u: DateTime, a: int, b: int)
    requires Valid(t) && Valid(u)
    ensures var apart, shift := Instant(u) - Instant(t), (b - a) * 60000000;
            (Less(IsoFormat(t, OffsetText(a)), IsoFormat(u, OffsetText(b))) <==> Utc(t, a) < Utc(u, b))
            <==> ((apart > 0 || (apart == 0 && Less(OffsetText(a), OffsetText(b)))) <==> apart > shift)
  {
    hide Less, IsoFormat, OffsetText, Instant, Valid, PlainOffset;
    TextOrderAcrossOffsets(t, u, OffsetText(a), OffsetText(b));
  }

  /** It fails for ten o'clock in India and nine o'clock UTC of any day. */
  lemma TwoOffsetsBreakTheOrder(t: DateTime)
    requires Valid(t) && t.hour == 10 && t.minute == 0 && t.second == 0 && t.micro == 0
    ensures var u := t.(hour := 9);
            Utc(t, 330) < Utc(u, 0) && !Less(IsoFormat(t, OffsetText(330)), IsoFormat(u, OffsetText(0)))
  {
    hide Less, IsoFormat, OffsetText, PlainOffset, Ordinal;
    var u := t.(hour := 9);
    assert Instant(t) == Instant(u) + 3600000000;
    TextOrderAcrossOffsets(t, u, OffsetText(330), OffsetText(0));
  }

  // ---------------------------------------------------------------- plain dates

  /** `date.isoformat()`. */
  function DateText(t: DateTime): string {
    FieldText(DateFields(t))
  }

  function DateFields(t: DateTime): seq<Field> {
    [Field(t.year, 4, "-"), Field(t.month, 2, "-"), Field(t.day, 2, "")]
  }

  /** The day reads back. */
  lemma DateReadsBack(t: DateTime)
    requires Valid(t)
    ensures ReadFields(DateText(t), [(4, "-"), (2, "-"), (2, "")]) == Some(([t.year, t.month, t.day], ""))
  {
    hide Pad, Pow10, ReadFields, FieldText;
    Powers();
    ReadWritten(DateFields(t), "");
    assert Shape(DateFields(t)) == [(4, "-"), (2, "-"), (2, "")];
    assert Values(DateFields(t)) == [t.year, t.month, t.day];
    assert DateText(t) + "" == DateText(t);
  }

  lemma DateFieldsMeaning(t: DateTime, u: DateTime)
    ensures FieldsLess(DateFields(t), DateFields(u)) <==> DateLess(t, u)
  {
    hide FieldsLess;
    var fs, gs := DateFields(t), DateFields(u);
    LaterLessMeaning(fs, gs, 3);
    assert fs[0..] == fs && gs[0..] == gs;
    assert LaterLess(fs, gs, 1) <==> t.day < u.day;
  }

  lemma NotLessThanNothing()
    ensures !Less("", "")
  {
  }

  /** Text order of plain dates is the order of the days. */
  lemma DateTextOrder(t: DateTime, u: DateTime)
    requires Valid(t) && Valid(u)
    ensures Less(DateText(t), DateText(u)) <==> Ordinal(t.year, t.month, t.day) < Ordinal(u.year, u.month, u.day)
  {
    hide Less, FieldText, FieldsLess, Ordinal, Pow10;
    Powers();
    FieldTextOrder(DateFields(t), DateFields(u), "", "");
    assert DateText(t) + "" == DateText(t) && DateText(u) + "" == DateText(u);
    DateFieldsMeaning(t, u);
    NotLessThanNothing();
    if DateLess(t, u) {
      DateOrder(t, u);
    } else if DateLess(u, t) {
      DateOrder(u, t);
    }
  }

  lemma LastDigit(q: nat, r: nat)
    ensures (10 * q + r) % 10 == r % 10
    ensures (10 * q + r) / 10 == q + r / 10
  {
  }

  lemma LowDigits(q: nat, r: nat)
    requires r < 1000
    ensures var n := 1000 * q + r;
            n % 10 == r % 10 && n / 10 % 10 == r / 10 % 10 && n / 100 % 10 == r / 100 % 10
  {
    LastDigit(100 * q, r);
    LastDigit(10 * q, r / 10);
    LastDigit(q, r / 100);
    assert (1000 * q + r) / 100 == (1000 * q + r) / 10 / 10;
  }

  lemma LastThree(n: nat, w: nat)
    requires w >= 3
    ensures Pad(n, w) == Pad(n / 1000, w - 3) + [Digit(n / 100 % 10), Digit(n / 10 % 10), Digit(n % 10)]
  {
    assert n / 10 / 10 == n / 100 && n / 100 / 10 == n / 1000;
    assert Pad(n, w) == Pad(n / 10, w - 1) + [Digit(n % 10)];
    assert Pad(n / 10, w - 1) == Pad(n / 100, w - 2) + [Digit(n / 10 % 10)];
    assert Pad(n / 100, w - 2) == Pad(n / 1000, w - 3) + [Digit(n / 100 % 10)];
  }

  lemma SplitMicros(micro: nat)
    ensures Pad(micro, 6) == Pad(micro / 1000, 3) + Pad(micro % 1000, 3)
  {
    hide Pad;
    LastThree(micro, 6);
    LastThree(micro % 1000, 3);
    LowDigits(micro / 1000, micro % 1000);
  }

  lemma DigitsBeforeZ(s: string)
    requires StartsWithDigit(s)
    ensures !Less("Z", s)
  {
  }

  lemma MilliOrder(milli: nat, micro: nat)
    requires milli < 1000 && micro < 1000000
    ensures Less("." + Pad(milli, 3) + "Z", Fraction(micro) + "+00:00") <==> milli < micro / 1000
  {
    hide Pow10, Pad, Less;
    var stored := "." + Pad(milli, 3) + "Z";
    assert stored == ['.'] + (Pad(milli, 3) + "Z");
    if micro == 0 {
      assert Fraction(0) + "+00:00" == "+00:00";
      OffsetBeforeFraction("+00:00", Pad(milli, 3) + "Z");
    } else {
      var low := Pad(micro % 1000, 3) + "+00:00";
      SplitMicros(micro);
      assert Fraction(micro) + "+00:00" == ['.'] + (Pad(micro / 1000, 3) + low);
      LessCons('.', Pad(milli, 3) + "Z", '.', Pad(micro / 1000, 3) + low);
      Powers();
      PadOrder(milli, micro / 1000, 3, "Z", low);
      DigitsBeforeZ(low);
    }
  }

  /**
   The stale-row test `scraped_at < cutoff` mixes the two formats.  It compares whole
   milliseconds: the stored time against the cutoff rounded down.
   */
  lemma StaleTestIsMillisecondOrder(stored: DateTime, cutoff: DateTime)
    requires Valid(stored) && Valid(cutoff)
    ensures Less(SqliteNow(stored), IsoFormat(cutoff, "+00:00")) <==> Instant(stored) / 1000 < Instant(cutoff) / 1000
  {
    hide Less, FieldText, ToSecond, Fraction, Valid, Instant, Pad;
    var s, c := "." + Pad(stored.micro / 1000, 3) + "Z", Fraction(cutoff.micro) + "+00:00";
    ToSecondOrder(stored, cutoff, s, c);
    InstantOrder(stored, cutoff);
    MilliOrder(stored.micro / 1000, cutoff.micro);
    assert SqliteNow(stored) == FieldText(ToSecond(stored)) + s;
    JoinThree(FieldText(ToSecond(cutoff)), Fraction(cutoff.micro), "+00:00");
  }

  lemma FractionBeforeSuffix(p: string, fraction: string, suffix: string)
    requires suffix != "" && suffix[0] > '.'
    ensures Less(p + ("." + fraction) + suffix, p + suffix)
  {
    hide Less;
    assert p + ("." + fraction) + suffix == p + (['.'] + (fraction + suffix));
    assert suffix == [suffix[0]] + suffix[1..];
    LessCons('.', fraction + suffix, suffix[0], suffix[1..]);
    SameStart(p, ['.'] + (fraction + suffix), suffix);
  }

  lemma OneMicroLater(t: DateTime)
    requires Valid(t) && t.micro == 0
    ensures Instant(t.(micro := 1)) == Instant(t) + 1 && ToSecond(t.(micro := 1)) == ToSecond(t)
  {
    assert Seconds(t.(micro := 1)) == Seconds(t);
  }

  /**
   The optional fraction is only safe because '+' and '-' sort before '.': with any suffix whose
   first character sorts after '.', such as Z, a whole second would sort after its own fractions.
   */
  lemma OtherSuffixesBreakTheOrder(suffix: string, t: DateTime)
    requires Valid(t) && t.micro == 0 && suffix != "" && suffix[0] > '.'
    ensures var later := t.(micro := 1);
            Instant(t) < Instant(later) && Less(IsoFormat(later, suffix), IsoFormat(t, suffix))
  {
    hide Less, FieldText, ToSecond, Pad, Instant, DaysInMonth;
    OneMicroLater(t);
    var p := FieldText(ToSecond(t));
    FractionBeforeSuffix(p, Pad(1, 6), suffix);
    assert p + "" + suffix == p + suffix;
  }
}
