/**
 Placeholder translation of services/sqlite_storage.py, and the queries the routers build for it.

 The routers write asyncpg style `$1, $2, ...`; SQLite gets every one of them as a bare `?`,
 bound by position.
 */
module Placeholders {
  import opened Decimal

  /** One unit of a query as an engine reads it; `Bind(i)` takes the i-th argument, from 0. */
  datatype Token = Chr(c: char) | Bind(arg: int) | NamedParameter

  /** `\$(\d+)` matches at the front (the digits are taken greedily). */
  predicate AtPlaceholder(q: string) {
    q != "" && q[0] == '$' && StartsWithDigit(q[1..])
  }

  function Rest(q: string): (r: string)
    requires AtPlaceholder(q)
    ensures |r| < |q| && !StartsWithDigit(r)
  {
    q[1..][|Digits(q[1..])|..]
  }

  /** `_PG_PARAM_RE.sub("?", query)`. */
  function Translate(q: string): string
    decreases |q|
  {
    if q == "" then ""
    else if AtPlaceholder(q) then "?" + Translate(Rest(q))
    else [q[0]] + Translate(q[1..])
  }

  /** The query as Postgres reads it: each placeholder names its argument. */
  function Numbered(q: string): seq<Token>
    decreases |q|
  {
    if q == "" then []
    else if AtPlaceholder(q) then [Bind(NumeralValue(Digits(q[1..])) - 1)] + Numbered(Rest(q))
    else [Chr(q[0])] + Numbered(q[1..])
  }

  /** The query as SQLite reads it: the next `?` takes the next argument, `$` starts a named one. */
  function Positional(q: string, next: int): seq<Token>
    decreases |q|
  {
    if q == "" then []
    else if q[0] == '?' then [Bind(next)] + Positional(q[1..], next + 1)
    else if q[0] == '$' then [NamedParameter] + Positional(q[1..], next)
    else [Chr(q[0])] + Positional(q[1..], next)
  }

  /** The placeholder numbers from left to right. */
  function Params(q: string): seq<int>
    decreases |q|
  {
    if q == "" then []
    else if AtPlaceholder(q) then [NumeralValue(Digits(q[1..]))] + Params(Rest(q))
    else Params(q[1..])
  }

  /** No `?`, and no `$` outside the placeholders. */
  predicate Clean(q: string)
    decreases |q|
  {
    q != "" ==>
      if AtPlaceholder(q) then Clean(Rest(q))
      else q[0] != '?' && q[0] != '$' && Clean(q[1..])
  }

  predicate CountsFrom(ps: seq<int>, from: int) {
    forall i | 0 <= i < |ps| :: ps[i] == from + i
  }

  lemma CountsCons(p: int, ps: seq<int>, from: int)
    ensures CountsFrom([p] + ps, from) <==> p == from && CountsFrom(ps, from + 1)
  {
    if CountsFrom([p] + ps, from) {
      assert ([p] + ps)[0] == p;
      forall i | 0 <= i < |ps| ensures ps[i] == from + 1 + i {
        assert ([p] + ps)[i + 1] == ps[i];
      }
    }
  }

  /** What the front of a query turns into. */
  lemma FrontUnit(q: string, next: int)
    requires q != ""
    ensures AtPlaceholder(q) ==>
              Positional(Translate(q), next) == [Bind(next)] + Positional(Translate(Rest(q)), next + 1)
    ensures !AtPlaceholder(q) ==>
              Positional(Translate(q), next)
              == if q[0] == '?' then [Bind(next)] + Positional(Translate(q[1..]), next + 1)
                 else [if q[0] == '$' then NamedParameter else Chr(q[0])] + Positional(Translate(q[1..]), next)
  {
    if AtPlaceholder(q) {
      assert ("?" + Translate(Rest(q)))[1..] == Translate(Rest(q));
    } else {
      assert ([q[0]] + Translate(q[1..]))[1..] == Translate(q[1..]);
    }
  }

  predicate Faithful(q: string, next: int) {
    Positional(Translate(q), next) == Numbered(q)
  }

  predicate Countable(q: string, next: int) {
    Clean(q) && CountsFrom(Params(q), next + 1)
  }

  lemma NumberedUnit(q: string)
    requires AtPlaceholder(q)
    ensures Numbered(q) == [Bind(NumeralValue(Digits(q[1..])) - 1)] + Numbered(Rest(q))
  {
    hide Digits, NumeralValue, Rest, AtPlaceholder;
  }

  lemma ParamsUnit(q: string)
    requires AtPlaceholder(q)
    ensures Params(q) == [NumeralValue(Digits(q[1..]))] + Params(Rest(q))
  {
    hide Digits, NumeralValue, Rest, AtPlaceholder;
  }

  lemma CleanUnit(q: string)
    requires AtPlaceholder(q)
    ensures Clean(q) <==> Clean(Rest(q))
  {
    hide Digits, NumeralValue, Rest, AtPlaceholder;
  }

  lemma NumberedFront(q: string)
    requires AtPlaceholder(q)
    ensures Numbered(q) == [Bind(NumeralValue(Digits(q[1..])) - 1)] + Numbered(Rest(q))
    ensures Params(q) == [NumeralValue(Digits(q[1..]))] + Params(Rest(q))
    ensures Clean(q) <==> Clean(Rest(q))
  {
    hide Numbered, Params, Clean;
    NumberedUnit(q);
    ParamsUnit(q);
    CleanUnit(q);
  }

  lemma PlaceholderCase(q: string, next: int)
    requires AtPlaceholder(q) && (Faithful(Rest(q), next + 1) <==> Countable(Rest(q), next + 1))
    ensures Faithful(q, next) <==> Countable(q, next)
  {
    hide Translate, Positional, Numbered, Params, Clean, Digits, NumeralValue, CountsFrom;
    var n: int := NumeralValue(Digits(q[1..]));
    var rest := Rest(q);
    FrontUnit(q, next);
    NumberedFront(q);
    HeadAndTail(Bind(next), Positional(Translate(rest), next + 1), Bind(n - 1), Numbered(rest));
    CountsCons(n, Params(rest), next + 1);
  }

  lemma CharacterCase(q: string, next: int)
    requires q != "" && !AtPlaceholder(q) && (q[0] == '?' || (Faithful(q[1..], next) <==> Countable(q[1..], next)))
    ensures Faithful(q, next) <==> Countable(q, next)
  {
    var t := Translate(q[1..]);
    FrontUnit(q, next);
    assert Numbered(q) == [Chr(q[0])] + Numbered(q[1..]);
    if q[0] == '?' {
      HeadAndTail(Bind(next), Positional(t, next + 1), Chr('?'), Numbered(q[1..]));
    } else {
      HeadAndTail(if q[0] == '$' then NamedParameter else Chr(q[0]), Positional(t, next), Chr(q[0]), Numbered(q[1..]));
      assert Params(q) == Params(q[1..]);
    }
  }

  /**
   SQLite binds the translated query as Postgres binds the original exactly when the placeholders
   read $1, $2, ... from left to right and the text has no other `?` or `$`.
   */
  lemma {:induction false} TranslationIsFaithfulExactlyWhen(q: string, next: int)
    ensures Faithful(q, next) <==> Countable(q, next)
    decreases |q|
  {
    if q == "" {
    } else if AtPlaceholder(q) {
      TranslationIsFaithfulExactlyWhen(Rest(q), next + 1);
      PlaceholderCase(q, next);
    } else {
      TranslationIsFaithfulExactlyWhen(q[1..], next);
      CharacterCase(q, next);
    }
  }

  lemma HeadAndTail(a: Token, s: seq<Token>, b: Token, t: seq<Token>)
    ensures [a] + s == [b] + t <==> a == b && s == t
  {
    if [a] + s == [b] + t {
      assert ([a] + s)[0] == ([b] + t)[0] && ([a] + s)[1..] == ([b] + t)[1..];
      assert ([a] + s)[1..] == s && ([b] + t)[1..] == t;
    }
  }

  // ---------------------------------------------------------------- building queries

  lemma JoinedFront(a: string, b: string)
    requires a != "" && !StartsWithDigit(b)
    ensures (a + b)[0] == a[0] && (a + b)[1..] == a[1..] + b
    ensures StartsWithDigit((a + b)[1..]) <==> StartsWithDigit(a[1..])
  {
    assert (a + b)[1..] == a[1..] + b;
    if a[1..] == "" {
      assert a[1..] + b == b;
    }
  }

  lemma DropFromJoin(a: string, b: string, n: nat)
    requires n <= |a|
    ensures (a + b)[n..] == a[n..] + b
  {
  }

  lemma FrontOfJoin(a: string, b: string)
    requires a != "" && !StartsWithDigit(b)
    ensures AtPlaceholder(a + b) <==> AtPlaceholder(a)
    ensures AtPlaceholder(a) ==> Rest(a + b) == Rest(a) + b && Digits((a + b)[1..]) == Digits(a[1..])
    ensures (a + b)[0] == a[0] && (a + b)[1..] == a[1..] + b
  {
    hide Digits, StartsWithDigit;
    JoinedFront(a, b);
    DigitsOfJoin(a[1..], b);
    DropFromJoin(a[1..], b, |Digits(a[1..])|);
  }

  lemma PlainFront(q: string)
    requires q != "" && !AtPlaceholder(q)
    ensures Params(q) == Params(q[1..])
    ensures Clean(q) <==> q[0] != '?' && q[0] != '$' && Clean(q[1..])
  {
  }

  /** Placeholders of two texts side by side, when no number runs over the seam. */
  lemma {:induction false} ParamsOfJoin(a: string, b: string)
    requires !StartsWithDigit(b)
    ensures Params(a + b) == Params(a) + Params(b)
    ensures Clean(a + b) <==> Clean(a) && Clean(b)
    decreases |a|, 1
  {
    if a == "" {
      assert a + b == b;
    } else {
      JoinStep(a, b);
    }
  }

  lemma {:induction false} JoinStep(a: string, b: string)
    requires a != "" && !StartsWithDigit(b)
    ensures Params(a + b) == Params(a) + Params(b)
    ensures Clean(a + b) <==> Clean(a) && Clean(b)
    decreases |a|, 0
  {
    hide Params, Clean, Digits, NumeralValue, Rest, AtPlaceholder, StartsWithDigit;
    FrontOfJoin(a, b);
    if AtPlaceholder(a) {
      NumberedFront(a);
      NumberedFront(a + b);
      ParamsOfJoin(Rest(a), b);
    } else {
      PlainFront(a);
      PlainFront(a + b);
      ParamsOfJoin(a[1..], b);
    }
  }

  predicate PlainText(s: string) {
    forall i | 0 <= i < |s| :: s[i] != '$' && s[i] != '?'
  }

  lemma {:induction false} PlainHasNoParams(s: string)
    requires PlainText(s)
    ensures Params(s) == [] && Clean(s)
  {
    if s != "" {
      PlainHasNoParams(s[1..]);
    }
  }

  /** `f"...${n}"`. */
  function Placeholder(n: nat): string {
    "$" + Numeral(n)
  }

  lemma OnePlaceholder(n: nat)
    ensures Params(Placeholder(n)) == [n] && Clean(Placeholder(n))
  {
    var q := Placeholder(n);
    assert q[1..] == Numeral(n);
    DigitsOfNumeral(Numeral(n));
    NumeralRoundTrip(n);
    assert Rest(q) == "";
  }

  /** A query whose placeholders are $1 ... $n, each once, in order. */
  predicate Shaped(q: string, n: nat) {
    Clean(q) && |Params(q)| == n && CountsFrom(Params(q), 1)
  }

  lemma AppendText(q: string, n: nat, text: string)
    requires Shaped(q, n) && PlainText(text) && !StartsWithDigit(text)
    ensures Shaped(q + text, n)
  {
    ParamsOfJoin(q, text);
    PlainHasNoParams(text);
  }

  lemma AppendPlaceholder(q: string, n: nat)
    requires Shaped(q, n)
    ensures Shaped(q + Placeholder(n + 1), n + 1)
  {
    ParamsOfJoin(q, Placeholder(n + 1));
    OnePlaceholder(n + 1);
  }

  /** A condition with the next placeholder, put after what is there. */
  lemma AppendCondition(q: string, n: nat, text: string)
    requires Shaped(q, n) && PlainText(text) && !StartsWithDigit(text)
    ensures Shaped(q + text + Placeholder(n + 1), n + 1)
  {
    AppendText(q, n, text);
    AppendPlaceholder(q + text, n);
  }

  lemma ShapedIsFaithful(q: string, n: nat)
    requires Shaped(q, n)
    ensures Faithful(q, 0)
  {
    TranslationIsFaithfulExactlyWhen(q, 0);
  }
}
