/**
 The filtered queries of api/routers/stocks.py, mutual_funds.py, news.py and financials.py, with the argument
 lists that grow alongside.

 The fixed text of a query (column list, table, window) is a parameter: any text without a
 placeholder mark will do.  The conditions and their placeholders are word for word.
 */
module RouterQueries {
  import opened Common
  import opened Decimal
  import opened Placeholders
  import opened PythonText

  datatype Arg = Txt(s: string) | Num(n: int) | Score(x: real)

  /** A given, non-empty string: Python truth. */
  predicate Given(s: Option<string>): (r: bool)
    ensures !r <==> s == None || s == Some("")
  {
    s.Some? && s.value != ""
  }

  function Optional(s: Option<string>): seq<Arg> {
    if Given(s) then [Txt(s.value)] else []
  }

  function UpperOf(s: Option<string>): (r: Option<string>)
    ensures Given(r) <==> Given(s)
  {
    if s.Some? then Some(Upper(s.value)) else None
  }

  function ScoreOf(x: Option<real>): Option<Arg> {
    if x.Some? then Some(Score(x.value)) else None
  }

  /** An argument that is there unless it is None. */
  function Present(a: Option<Arg>): seq<Arg> {
    if a.Some? then [a.value] else []
  }

  /** A condition on argument number `n`, when there is one. */
  function When(given: bool, text: string, n: nat): string {
    if given then text + Placeholder(n) else ""
  }

  /** A query under construction: its placeholders are exactly its arguments, in order. */
  datatype Query = Query(text: string, args: seq<Arg>)
  {
    predicate Sound() {
      Shaped(text, |args|)
    }
  }

  /** Fixed text that can follow a placeholder. */
  predicate FixedText(text: string) {
    PlainText(text) && !StartsWithDigit(text)
  }

  method Start(text: string) returns (q: Query)
    requires PlainText(text)
    ensures q == Query(text, []) && q.Sound()
  {
    PlainHasNoParams(text);
    q := Query(text, []);
  }

  /** `args.append(value)`, then text naming its position. */
  method Append(q: Query, text: string, value: Arg) returns (r: Query)
    requires q.Sound() && FixedText(text)
    ensures r.Sound() && r.args == q.args + [value]
    ensures r.text == q.text + text + Placeholder(|r.args|)
  {
    AppendCondition(q.text, |q.args|, text);
    r := Query(q.text + text + Placeholder(|q.args| + 1), q.args + [value]);
  }

  method AppendOptional(q: Query, text: string, value: Option<string>) returns (r: Query)
    requires q.Sound() && FixedText(text)
    ensures r.Sound() && r.args == q.args + Optional(value)
    ensures r.text == q.text + When(Given(value), text, |q.args| + 1)
  {
    r := q;
    if Given(value) {
      r := Append(r, text, Txt(value.value));
      JoinThree(q.text, text, Placeholder(|r.args|));
    }
  }

  method AppendPresent(q: Query, text: string, value: Option<Arg>) returns (r: Query)
    requires q.Sound() && FixedText(text)
    ensures r.Sound() && r.args == q.args + Present(value)
    ensures r.text == q.text + When(value.Some?, text, |q.args| + 1)
  {
    r := q;
    if value.Some? {
      r := Append(r, text, value.value);
      JoinThree(q.text, text, Placeholder(|r.args|));
    }
  }

  method AppendFixed(q: Query, text: string) returns (r: Query)
    requires q.Sound() && FixedText(text)
    ensures r.Sound() && r == Query(q.text + text, q.args)
  {
    AppendText(q.text, |q.args|, text);
    r := Query(q.text + text, q.args);
  }

  /** The texts the routers put in front of a placeholder. */
  lemma FixedTexts()
    ensures FixedText(" AND sector = ")
    ensures FixedText(" AND exchange = ")
    ensures FixedText(" AND id > ")
    ensures FixedText(" ORDER BY id LIMIT ")
    ensures FixedText("id > ")
    ensures FixedText(" AND amc_name ILIKE ")
    ensures FixedText(" AND category = ")
    ensures FixedText(" LIMIT ")
  {
  }

  lemma MoreFixedTexts()
    ensures FixedText("symbol = ")
    ensures FixedText(" AND sentiment >= ")
    ensures FixedText(" AND sentiment <= ")
    ensures FixedText(" ORDER BY published_at DESC LIMIT ")
    ensures FixedText(" OFFSET ")
  {
  }

  lemma JoinedText(a: string, b: string)
    requires a != "" && FixedText(a) && PlainText(b)
    ensures FixedText(a + b)
  {
  }

  function FinancialsOrder(): string {
    " ORDER BY period_end_date DESC," + " scraped_at DESC LIMIT "
  }

  lemma FinancialsTexts()
    ensures FixedText(" AND period_type = ") && FixedText(FinancialsOrder())
  {
    var a, b := " ORDER BY period_end_date DESC,", " scraped_at DESC LIMIT ";
    assert FixedText(a);
    assert PlainText(b);
    JoinedText(a, b);
  }

  /** The WHERE list of `list_stocks`, joined by AND. */
  method StocksFilters(head: string, sector: Option<string>, exchange: Option<string>) returns (q: Query)
    requires PlainText(head + "is_active = TRUE")
    ensures q.Sound() && q.args == Optional(sector) + Optional(UpperOf(exchange))
    ensures exchange.Some? && exchange.value != "" ==> q.args[|Optional(sector)|..] == [Txt(Upper(exchange.value))]
    ensures q.text == head + "is_active = TRUE" + When(Given(sector), " AND sector = ", 1)
                      + When(Given(exchange), " AND exchange = ", |Optional(sector)| + 1)
  {
    hide Shaped, PlainText, StartsWithDigit, Faithful, Placeholder, When;
    FixedTexts();
    q := Start(head + "is_active = TRUE");
    q := AppendOptional(q, " AND sector = ", sector);
    q := AppendOptional(q, " AND exchange = ", UpperOf(exchange));
  }

  /** `list_stocks`: the filters, then the cursor and the limit. */
  method StocksQuery(head: string, sector: Option<string>, exchange: Option<string>, cursor: int, limit: int)
    returns (q: Query)
    requires PlainText(head + "is_active = TRUE")
    ensures q.args == Optional(sector) + Optional(UpperOf(exchange)) + [Num(cursor), Num(limit)]
    ensures exchange.Some? && exchange.value != "" ==> q.args[|q.args| - 3] == Txt(Upper(exchange.value))
    ensures var s, e := |Optional(sector)|, |Optional(UpperOf(exchange))|;
            q.text == head + "is_active = TRUE" + When(Given(sector), " AND sector = ", 1)
                      + When(Given(exchange), " AND exchange = ", s + 1)
                      + " AND id > " + Placeholder(s + e + 1) + " ORDER BY id LIMIT " + Placeholder(s + e + 2)
    ensures Faithful(q.text, 0) && Shaped(q.text, |q.args|)
  {
    hide Shaped, PlainText, StartsWithDigit, Faithful, Placeholder, When;
    FixedTexts();
    q := StocksFilters(head, sector, exchange);
    q := Append(q, " AND id > ", Num(cursor));
    q := Append(q, " ORDER BY id LIMIT ", Num(limit));
    ShapedIsFaithful(q.text, |q.args|);
  }

  /** `list_mutual_funds`: the cursor first, then the filters, the window's end and the limit. */
  method FundsQuery(head: string, tail: string, amc: Option<string>, category: Option<string>, cursor: int, limit: int)
    returns (q: Query)
    requires PlainText(head) && FixedText(tail)
    ensures q.args == [Num(cursor)] + Optional(amc) + Optional(category) + [Num(limit)]
    ensures var a, c := |Optional(amc)|, |Optional(category)|;
            q.text == head + "id > " + Placeholder(1) + When(Given(amc), " AND amc_name ILIKE ", 2)
                      + When(Given(category), " AND category = ", a + 2) + tail + " LIMIT " + Placeholder(a + c + 2)
    ensures Faithful(q.text, 0) && Shaped(q.text, |q.args|)
  {
    hide Shaped, PlainText, StartsWithDigit, Faithful, Placeholder, When;
    FixedTexts();
    q := Start(head);
    q := Append(q, "id > ", Num(cursor));
    q := AppendOptional(q, " AND amc_name ILIKE ", amc);
    q := AppendOptional(q, " AND category = ", category);
    q := AppendFixed(q, tail);
    q := Append(q, " LIMIT ", Num(limit));
    ShapedIsFaithful(q.text, |q.args|);
  }

  /** `get_news`: the symbol, the sentiment bounds (0.0 counts as given), the limit and the offset. */
  method NewsQuery(head: string, symbol: string, minSentiment: Option<real>, maxSentiment: Option<real>,
                   limit: int, offset: int)
    returns (q: Query)
    requires PlainText(head)
    ensures q.args
            == [Txt(Upper(symbol))] + Present(ScoreOf(minSentiment)) + Present(ScoreOf(maxSentiment))
               + [Num(limit), Num(offset)]
    ensures minSentiment.Some? ==> q.args[1] == Score(minSentiment.value)
    ensures maxSentiment.Some? ==> q.args[|q.args| - 3] == Score(maxSentiment.value)
    ensures var a, b := |Present(ScoreOf(minSentiment))|, |Present(ScoreOf(maxSentiment))|;
            q.text == head + "symbol = " + Placeholder(1) + When(minSentiment.Some?, " AND sentiment >= ", 2)
                      + When(maxSentiment.Some?, " AND sentiment <= ", a + 2)
                      + " ORDER BY published_at DESC LIMIT " + Placeholder(a + b + 2)
                      + " OFFSET " + Placeholder(a + b + 3)
    ensures Faithful(q.text, 0) && Shaped(q.text, |q.args|)
  {
    hide Shaped, PlainText, StartsWithDigit, Faithful, Placeholder, When;
    MoreFixedTexts();
    q := Start(head);
    q := Append(q, "symbol = ", Txt(Upper(symbol)));
    q := AppendPresent(q, " AND sentiment >= ", ScoreOf(minSentiment));
    q := AppendPresent(q, " AND sentiment <= ", ScoreOf(maxSentiment));
    q := Append(q, " ORDER BY published_at DESC LIMIT ", Num(limit));
    q := Append(q, " OFFSET ", Num(offset));
    ShapedIsFaithful(q.text, |q.args|);
  }

  /** `get_financials`: the symbol, the period type when there is one, and the limit. */
  method FinancialsQuery(head: string, symbol: string, periodType: Option<string>, limit: int) returns (q: Query)
    requires PlainText(head)
    ensures var given := if periodType.Some? then Some(Txt(periodType.value)) else None;
            && q.args == [Txt(Upper(symbol))] + Present(given) + [Num(limit)]
            && q.text == head + "symbol = " + Placeholder(1) + When(given.Some?, " AND period_type = ", 2)
                         + (" ORDER BY period_end_date DESC," + " scraped_at DESC LIMIT ")
                         + Placeholder(|Present(given)| + 2)
    ensures Faithful(q.text, 0) && Shaped(q.text, |q.args|)
  {
    hide Shaped, PlainText, StartsWithDigit, Faithful, Placeholder, When;
    MoreFixedTexts();
    FinancialsTexts();
    q := Start(head);
    q := Append(q, "symbol = ", Txt(Upper(symbol)));
    q := AppendPresent(q, " AND period_type = ", if periodType.Some? then Some(Txt(periodType.value)) else None);
    q := Append(q, FinancialsOrder(), Num(limit));
    ShapedIsFaithful(q.text, |q.args|);
  }
}
