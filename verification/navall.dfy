/**
 `AMFIScraper._parse_navall` of scrapers/amfi.py: a line state machine over the NAVAll text, in
 which every row takes the AMC and category headers seen last.

 Python's `float` is a parameter: any partial function from text to numbers.
 */
module NavAll {
  import opened Common
  import opened PythonText

  // ---------------------------------------------------------------- lines and columns

  predicate NoBreaks(s: string) {
    forall i | 0 <= i < |s| :: !IsBreak(s[i])
  }

  function LineLength(s: string): (n: nat)
    ensures n <= |s| && NoBreaks(s[..n]) && (n < |s| ==> IsBreak(s[n]))
  {
    if s == "" || IsBreak(s[0]) then 0
    else
      assert s == [s[0]] + s[1..];
      1 + LineLength(s[1..])
  }

  /** A carriage return and a line feed are one break. */
  function BreakLength(s: string): nat {
    if |s| >= 2 && s[0] == '\r' && s[1] == '\n' then 2 else 1
  }

  function SplitLines(s: string): seq<string>
    decreases |s|
  {
    if s == "" then []
    else
      var n := LineLength(s);
      if n == |s| then [s] else [s[..n]] + SplitLines(s[n + BreakLength(s[n..])..])
  }

  function Split(s: string, sep: char): (parts: seq<string>)
    ensures parts != []
  {
    if s == "" then [""]
    else
      var later := Split(s[1..], sep);
      if s[0] == sep then [""] + later else [[s[0]] + later[0]] + later[1..]
  }

  function StripAll(parts: seq<string>): (r: seq<string>)
    ensures |r| == |parts|
  {
    seq(|parts|, i requires 0 <= i < |parts| => Strip(parts[i]))
  }

  function OrNone(s: string): Option<string> {
    if s == "" then None else Some(s)
  }

  // ---------------------------------------------------------------- one line

  datatype Number = Finite(value: real) | Special(name: string)

  type ToFloat = string -> Option<Number>

  datatype Record = Record(schemeCode: string, isinPayout: Option<string>, isinGrowth: Option<string>,
                           schemeName: string, nav: Number, navDateRaw: string,
                           amc: Option<string>, category: Option<string>)

  datatype State = State(category: Option<string>, amc: Option<string>, out: seq<Record>)

  const INITIAL := State(None, None, [])

  const HEADING := "Scheme Code"

  datatype Kind = OpenEnded | CloseEnded | Interval

  function Opening(k: Kind): string {
    match k
    case OpenEnded => "Open Ended Schemes("
    case CloseEnded => "Close Ended Schemes("
    case Interval => "Interval Fund Schemes("
  }

  /** `^Open Ended Schemes\((.+?)\)$`: the lazy group still runs to the last bracket of the line. */
  predicate InBrackets(k: Kind, line: string) {
    |line| >= |Opening(k)| + 2 && Opening(k) <= line && line[|line| - 1] == ')'
  }

  function CategoryName(line: string): Option<string> {
    if InBrackets(OpenEnded, line) then Some(line[|Opening(OpenEnded)|..|line| - 1])
    else if InBrackets(CloseEnded, line) then Some(line[|Opening(CloseEnded)|..|line| - 1])
    else if InBrackets(Interval, line) then Some(line[|Opening(Interval)|..|line| - 1])
    else None
  }

  function Nav(text: string, toFloat: ToFloat): Option<Number> {
    if text == "N.A." || text == "N/A" || text == "-" then None else toFloat(RemoveCommas(text))
  }

  predicate IsCode(text: string) {
    Lower(text) != "scheme code" && text != ""
  }

  /** A row of stripped columns under the current headers. */
  function ParseRow(st: State, parts: seq<string>, toFloat: ToFloat): State {
    if |parts| < 6 || !IsCode(parts[0]) then st
    else
      match Nav(parts[4], toFloat)
      case None => st
      case Some(nav) =>
        st.(out := st.out + [Record(parts[0], OrNone(parts[1]), OrNone(parts[2]), parts[3], nav, parts[5],
                                    st.amc, st.category)])
  }

  function ParseLine(st: State, raw: string, toFloat: ToFloat): State {
    var line := Strip(raw);
    if line == "" || HEADING <= line then st
    else if ';' !in line then
      match CategoryName(line)
      case Some(name) => st.(category := Some(name))
      case None => st.(amc := Some(line))
    else ParseRow(st, StripAll(Split(line, ';')), toFloat)
  }

  function ParseLines(st: State, lines: seq<string>, toFloat: ToFloat): State
    decreases |lines|
  {
    if lines == [] then st
    else ParseLine(ParseLines(st, lines[..|lines| - 1], toFloat), lines[|lines| - 1], toFloat)
  }

  function Parse(st: State, text: string, toFloat: ToFloat): State {
    ParseLines(st, SplitLines(text), toFloat)
  }

  method ParseNavall(text: string, toFloat: ToFloat) returns (out: seq<Record>)
    ensures out == Parse(INITIAL, text, toFloat).out
    ensures forall doc | WellFormedDoc(doc, toFloat) && text == Print(doc) :: out == Records(doc, |doc|)
  {
    hide WellFormedDoc, Records, Print, Strip, CategoryName, Split, StripAll, Nav, Lower, OrNone;
    out := [];
    var currentCategory: Option<string> := None;
    var currentAmc: Option<string> := None;
    var lines := SplitLines(text);
    for i := 0 to |lines|
      invariant State(currentCategory, currentAmc, out) == ParseLines(INITIAL, lines[..i], toFloat)
    {
      assert lines[..i + 1][..i] == lines[..i];
      var line := Strip(lines[i]);
      if line == "" {
        continue;
      }
      if HEADING <= line {
        continue;
      }
      if ';' !in line {
        var m := CategoryName(line);
        if m.Some? {
          currentCategory := m;
        } else {
          currentAmc := Some(line);
        }
        continue;
      }
      var parts := StripAll(Split(line, ';'));
      if |parts| < 6 {
        continue;
      }
      if !IsCode(parts[0]) {
        continue;
      }
      var nav := Nav(parts[4], toFloat);
      if nav.None? {
        continue;
      }
      out := out + [Record(parts[0], OrNone(parts[1]), OrNone(parts[2]), parts[3], nav.value, parts[5],
                           currentAmc, currentCategory)];
    }
    assert lines[..|lines|] == lines;
    forall doc | WellFormedDoc(doc, toFloat) && text == Print(doc) ensures out == Records(doc, |doc|) {
      PrintThenParse(doc, toFloat);
    }
  }

  // ---------------------------------------------------------------- concatenation

  lemma {:induction false} LinesInTurn(st: State, a: seq<string>, b: seq<string>, toFloat: ToFloat)
    ensures ParseLines(st, a + b, toFloat) == ParseLines(ParseLines(st, a, toFloat), b, toFloat)
    decreases |b|
  {
    hide ParseLine;
    if b == [] {
      assert a + b == a;
    } else {
      assert (a + b)[..|a + b| - 1] == a + b[..|b| - 1];
      LinesInTurn(st, a, b[..|b| - 1], toFloat);
    }
  }

  lemma {:induction false} LineLengthIs(s: string, n: nat)
    requires n <= |s| && NoBreaks(s[..n]) && (n < |s| ==> IsBreak(s[n]))
    ensures LineLength(s) == n
  {
    hide IsBreak;
    if n > 0 {
      assert s[..n][0] == s[0];
      assert s[1..][..n - 1] == s[..n][1..];
      LineLengthIs(s[1..], n - 1);
    }
  }

  lemma {:induction false} BreakIsReached(s: string)
    requires s != "" && IsBreak(s[|s| - 1])
    ensures LineLength(s) < |s|
  {
    hide IsBreak;
    if |s| > 1 {
      BreakIsReached(s[1..]);
    }
  }

  /** A text that ends with a line break, or is empty. */
  predicate EndsLine(s: string) {
    s == "" || IsBreak(s[|s| - 1])
  }

  /** A break of two characters runs over the seam. */
  predicate SplitsBreak(a: string, b: string) {
    a != "" && b != "" && a[|a| - 1] == '\r' && b[0] == '\n'
  }

  lemma NoLines()
    ensures SplitLines("") == []
  {
  }

  lemma BreakFits(s: string)
    requires s != ""
    ensures 1 <= BreakLength(s) <= |s|
  {
  }

  lemma LinesStep(s: string, n: nat)
    requires n < |s| && NoBreaks(s[..n]) && IsBreak(s[n])
    ensures 1 <= BreakLength(s[n..]) <= |s[n..]|
    ensures SplitLines(s) == [s[..n]] + SplitLines(s[n + BreakLength(s[n..])..])
  {
    hide IsBreak, NoBreaks, BreakLength;
    LineLengthIs(s, n);
    BreakFits(s[n..]);
  }

  lemma FirstLine(s: string) returns (n: nat, rest: string)
    requires s != "" && EndsLine(s)
    ensures n < |s| && NoBreaks(s[..n]) && IsBreak(s[n]) && n + BreakLength(s[n..]) <= |s|
    ensures rest == s[n + BreakLength(s[n..])..] && EndsLine(rest) && |rest| < |s|
    ensures rest != "" ==> rest[|rest| - 1] == s[|s| - 1]
    ensures SplitLines(s) == [s[..n]] + SplitLines(rest)
  {
    hide IsBreak, BreakLength, SplitLines;
    n := LineLength(s);
    BreakIsReached(s);
    LinesStep(s, n);
    rest := s[n + BreakLength(s[n..])..];
  }

  lemma {:induction false} LinesOfJoin(a: string, b: string)
    requires EndsLine(a) && !SplitsBreak(a, b)
    ensures SplitLines(a + b) == SplitLines(a) + SplitLines(b)
    decreases |a|
  {
    hide IsBreak, BreakLength, SplitLines, NoBreaks;
    if a == "" {
      NoLines();
      assert a + b == b;
    } else {
      var n, rest := FirstLine(a);
      LinesOfJoin(rest, b);
      assert (a + b)[..n] == a[..n];
      LinesStep(a + b, n);
      BreakBeforeSeam(a, b, n);
      assert (a + b)[n + BreakLength(a[n..])..] == rest + b;
    }
  }

  lemma BreakBeforeSeam(a: string, b: string, n: nat)
    requires n < |a| && !SplitsBreak(a, b)
    ensures BreakLength((a + b)[n..]) == BreakLength(a[n..])
  {
    assert (a + b)[n..] == a[n..] + b;
  }

  lemma {:induction false} LinesBeforeLineFeed(a: string)
    requires a != "" && a[|a| - 1] == '\r'
    ensures SplitLines(a + "\n") == SplitLines(a)
    decreases |a|
  {
    hide SplitLines, NoBreaks;
    var n, rest := FirstLine(a);
    assert (a + "\n")[..n] == a[..n];
    LinesStep(a + "\n", n);
    assert (a + "\n")[n..] == a[n..] + "\n";
    if rest != "" {
      LinesBeforeLineFeed(rest);
      assert (a + "\n")[n + BreakLength(a[n..])..] == rest + "\n";
    } else {
      assert n == |a| - 1;
      assert (a + "\n")[|a| + 1..] == "";
    }
  }

  /** Parsing two texts on end is parsing the second with the headers the first one left. */
  lemma ConcatenationCarriesHeaders(st: State, a: string, b: string, toFloat: ToFloat)
    requires EndsLine(a)
    ensures Parse(st, a + b, toFloat) == Parse(Parse(st, a, toFloat), b, toFloat)
  {
    hide ParseLine, SplitLines;
    if SplitsBreak(a, b) {
      SeamIsBlankLine(st, a, b, toFloat);
    } else {
      LinesOfJoin(a, b);
      LinesInTurn(st, SplitLines(a), SplitLines(b), toFloat);
    }
  }

  lemma LineFeedFirst(b: string)
    requires b != "" && b[0] == '\n'
    ensures SplitLines(b) == [""] + SplitLines(b[1..])
  {
    hide SplitLines;
    assert b[..0] == "";
    LinesStep(b, 0);
    assert b[0..] == b;
  }

  lemma SeamIsBlankLine(st: State, a: string, b: string, toFloat: ToFloat)
    requires SplitsBreak(a, b)
    ensures Parse(st, a + b, toFloat) == Parse(Parse(st, a, toFloat), b, toFloat)
  {
    hide SplitLines;
    var head, tail := SplitLines(a), SplitLines(b[1..]);
    LineFeedFirst(b);
    LinesBeforeLineFeed(a);
    assert a + b == (a + "\n") + b[1..];
    LinesOfJoin(a + "\n", b[1..]);
    LinesInTurn(st, head, tail, toFloat);
    var mid := ParseLines(st, head, toFloat);
    LinesInTurn(mid, [""], tail, toFloat);
    assert ParseLine(mid, "", toFloat) == mid;
    assert [""][..0] == [];
    assert ParseLines(mid, [], toFloat) == mid;
  }

  // ---------------------------------------------------------------- documents

  /** A column as printed, with padding on either side. */
  datatype Column = Column(left: string, text: string, right: string)
  {
    function Print(): string {
      left + text + right
    }
  }

  /** What a fund's NAV column says: nothing, no number, or a number, the text being `plain` but for commas. */
  datatype Quote = Missing | Unreadable(plain: string) | Price(plain: string, number: Number)

  datatype Block =
    | Category(kind: Kind, category: string)
    | Amc(amc: string)
    | Fund(code: Column, payout: Column, growth: Column, scheme: Column, navText: Column, date: Column,
           more: seq<Column>, quote: Quote)
    | Short(columns: seq<Column>)
    | Heading(titles: string)
    | Blank

  /** A block on its line: indented, padded and ended. */
  datatype Line = Line(indent: string, block: Block, padding: string, ending: string)

  function Join(parts: seq<string>, sep: char): string {
    if parts == [] then "" else if |parts| == 1 then parts[0] else parts[0] + [sep] + Join(parts[1..], sep)
  }

  function Columns(b: Block): seq<Column>
    requires b.Fund?
  {
    [b.code, b.payout, b.growth, b.scheme, b.navText, b.date] + b.more
  }

  function Printed(columns: seq<Column>): (r: seq<string>)
    ensures |r| == |columns|
  {
    seq(|columns|, i requires 0 <= i < |columns| => columns[i].Print())
  }

  function Texts(columns: seq<Column>): (r: seq<string>)
    ensures |r| == |columns|
  {
    seq(|columns|, i requires 0 <= i < |columns| => columns[i].text)
  }

  function CategoryText(kind: Kind, name: string): string {
    match kind
    case OpenEnded => "Open Ended Schemes(" + name + ")"
    case CloseEnded => "Close Ended Schemes(" + name + ")"
    case Interval => "Interval Fund Schemes(" + name + ")"
  }

  function Text(b: Block): string {
    match b
    case Category(kind, name) => CategoryText(kind, name)
    case Amc(name) => name
    case Fund(_, _, _, _, _, _, _, _) => Join(Printed(Columns(b)), ';')
    case Short(columns) => Join(Printed(columns), ';')
    case Heading(titles) => "Scheme Code" + titles
    case Blank => ""
  }

  function LineText(line: Line): string {
    line.indent + Text(line.block) + line.padding
  }

  function Print(doc: seq<Line>): string {
    if doc == [] then "" else LineText(doc[0]) + doc[0].ending + Print(doc[1..])
  }

  predicate Cell(s: string) {
    NoBreaks(s) && Trimmed(s) && ';' !in s
  }

  predicate Padding(s: string) {
    NoBreaks(s) && forall i | 0 <= i < |s| :: IsSpace(s[i])
  }

  predicate WellFormedColumn(c: Column) {
    Padding(c.left) && Cell(c.text) && Padding(c.right)
  }

  predicate MissingText(text: string) {
    text == "N.A." || text == "N/A" || text == "-"
  }

  /** What a NAV column with this text says. */
  predicate Says(text: string, quote: Quote, toFloat: ToFloat) {
    match quote
    case Missing => MissingText(text)
    case Unreadable(plain) => !MissingText(text) && CommasIn(plain, text) && toFloat(plain).None?
    case Price(plain, number) => !MissingText(text) && CommasIn(plain, text) && toFloat(plain) == Some(number)
  }

  ghost predicate WellFormed(b: Block, toFloat: ToFloat) {
    match b
    case Category(_, name) => name != "" && NoBreaks(name) && ';' !in name
    case Amc(name) =>
      && name != "" && Cell(name) && !("Scheme Code" <= name)
      && forall kind, category | category != "" :: name != CategoryText(kind, category)
    case Fund(_, _, _, _, navText, _, _, quote) =>
      && Says(navText.text, quote, toFloat)
      && forall i | 0 <= i < |Columns(b)| :: WellFormedColumn(Columns(b)[i])
    case Short(columns) => 2 <= |columns| < 6 && forall i | 0 <= i < |columns| :: WellFormedColumn(columns[i])
    case Heading(titles) => NoBreaks(titles) && Trimmed("Scheme Code" + titles)
    case Blank => true
  }

  predicate LineEnding(s: string) {
    s == "" || s == "\r\n" || (|s| == 1 && s[0] != '\r' && IsBreak(s[0]))
  }

  ghost predicate WellFormedLine(line: Line, toFloat: ToFloat) {
    && Padding(line.indent) && Padding(line.padding) && LineEnding(line.ending)
    && WellFormed(line.block, toFloat)
  }

  /** Only the last line may lack an ending. */
  ghost predicate WellFormedDoc(doc: seq<Line>, toFloat: ToFloat) {
    forall i | 0 <= i < |doc| ::
      WellFormedLine(doc[i], toFloat) && (doc[i].ending == "" ==> i == |doc| - 1 && LineText(doc[i]) != "")
  }

  // ---------------------------------------------------------------- what the document says

  /** The nearest AMC header above line `i`. */
  function NearestAmc(doc: seq<Line>, i: nat): (r: Option<string>)
    requires i <= |doc|
    ensures r.None? ==> forall j | 0 <= j < i :: !doc[j].block.Amc?
    ensures r.Some? ==> exists j: nat | j < i :: doc[j].block == Amc(r.value)
                                                 && forall k | j < k < i :: !doc[k].block.Amc?
  {
    if i == 0 then None
    else if doc[i - 1].block.Amc? then Some(doc[i - 1].block.amc)
    else NearestAmc(doc, i - 1)
  }

  /** The nearest category header above line `i`. */
  function NearestCategory(doc: seq<Line>, i: nat): (r: Option<string>)
    requires i <= |doc|
    ensures r.None? ==> forall j | 0 <= j < i :: !doc[j].block.Category?
    ensures r.Some? ==> exists j: nat | j < i :: doc[j].block.Category? && doc[j].block.category == r.value
                                                 && forall k | j < k < i :: !doc[k].block.Category?
  {
    if i == 0 then None
    else if doc[i - 1].block.Category? then Some(doc[i - 1].block.category)
    else NearestCategory(doc, i - 1)
  }

  /** The words "scheme code" in any mix of capitals. */
  predicate TitleText(s: string) {
    |s| == 11 && forall i | 0 <= i < 11 :: s[i] == "scheme code"[i] || s[i] == "SCHEME CODE"[i]
  }

  /** A fund row with a code and a number. */
  predicate Holding(b: Block) {
    b.Fund? && b.quote.Price? && b.code.text != "" && !TitleText(b.code.text) && !("Scheme Code" <= b.code.text)
  }

  predicate Usable(doc: seq<Line>, i: nat)
    requires i < |doc|
  {
    Holding(doc[i].block)
  }

  /** The rows with a usable NAV: all of them, in order. */
  function UsableRows(doc: seq<Line>, n: nat): (r: seq<nat>)
    requires n <= |doc|
    ensures forall p | 0 <= p < |r| :: r[p] < n && Usable(doc, r[p])
    ensures forall p, q | 0 <= p < q < |r| :: r[p] < r[q]
    ensures forall i | 0 <= i < n && Usable(doc, i) :: i in r
  {
    if n == 0 then []
    else UsableRows(doc, n - 1) + if Usable(doc, n - 1) then [n - 1] else []
  }

  /** The row's own texts and number; an ISIN is None exactly when its column is empty. */
  function RecordFrom(b: Block, amc: Option<string>, category: Option<string>): Record
    requires Holding(b)
  {
    Record(b.code.text,
           if b.payout.text == "" then None else Some(b.payout.text),
           if b.growth.text == "" then None else Some(b.growth.text),
           b.scheme.text, b.quote.number, b.date.text, amc, category)
  }

  function RecordOf(doc: seq<Line>, i: nat): Record
    requires i < |doc| && Usable(doc, i)
  {
    RecordFrom(doc[i].block, NearestAmc(doc, i), NearestCategory(doc, i))
  }

  function Records(doc: seq<Line>, n: nat): seq<Record>
    requires n <= |doc|
  {
    var rows := UsableRows(doc, n);
    seq(|rows|, p requires 0 <= p < |rows| => RecordOf(doc, rows[p]))
  }

  // ---------------------------------------------------------------- reading back one line

  lemma {:induction false} TrimLeftPadding(pad: string, s: string)
    requires Padding(pad)
    ensures TrimLeft(pad + s) == TrimLeft(s)
  {
    hide IsSpace, IsBreak;
    if pad == "" {
      assert pad + s == s;
    } else {
      assert (pad + s)[1..] == pad[1..] + s;
      TrimLeftPadding(pad[1..], s);
    }
  }

  lemma {:induction false} TrimRightPadding(s: string, pad: string)
    requires Padding(pad)
    ensures TrimRight(s + pad) == TrimRight(s)
  {
    hide IsSpace, IsBreak;
    if pad == "" {
      assert s + pad == s;
    } else {
      assert (s + pad)[..|s + pad| - 1] == s + pad[..|pad| - 1];
      TrimRightPadding(s, pad[..|pad| - 1]);
    }
  }

  lemma {:induction false} TrimAfterPadding(s: string, pad: string)
    requires Padding(pad)
    ensures TrimRight(TrimLeft(s + pad)) == TrimRight(TrimLeft(s))
  {
    hide IsSpace, IsBreak;
    if s == "" {
      assert s + pad == pad + "";
      TrimLeftPadding(pad, "");
    } else if IsSpace(s[0]) {
      assert (s + pad)[1..] == s[1..] + pad;
      TrimAfterPadding(s[1..], pad);
    } else {
      TrimRightPadding(s, pad);
    }
  }

  /** Padding on either side makes no difference to what is stripped. */
  lemma StripPadding(indent: string, s: string, pad: string)
    requires Padding(indent) && Padding(pad)
    ensures Strip(indent + s + pad) == Strip(s)
  {
    hide TrimLeft, TrimRight, Padding;
    JoinThree(indent, s, pad);
    TrimLeftPadding(indent, s + pad);
    TrimAfterPadding(s, pad);
  }

  // ---------------------------------------------------------------- columns of a stripped line

  lemma StripSpaces(c: char, s: string)
    requires IsSpace(c) && !IsBreak(c)
    ensures Strip([c] + s) == Strip(s) && Strip(s + [c]) == Strip(s)
  {
    hide Strip;
    StripPadding([c], s, "");
    assert [c] + s + "" == [c] + s;
    StripPadding("", s, [c]);
    assert "" + s + [c] == s + [c];
  }

  lemma StripTail(parts: seq<string>, first: string)
    requires parts != [] && Strip(first) == Strip(parts[0])
    ensures StripAll([first] + parts[1..]) == StripAll(parts)
  {
  }

  lemma StripFront(parts: seq<string>, last: string)
    requires parts != [] && Strip(last) == Strip(parts[|parts| - 1])
    ensures StripAll(parts[..|parts| - 1] + [last]) == StripAll(parts)
  {
  }

  lemma {:induction false} ColumnsAfterTrimLeft(s: string)
    requires NoBreaks(s)
    ensures StripAll(Split(TrimLeft(s), ';')) == StripAll(Split(s, ';'))
  {
    hide Strip, StripAll, IsSpace, IsBreak;
    if s != "" && IsSpace(s[0]) {
      Semicolon();
      ColumnsAfterTrimLeft(s[1..]);
      var later := Split(s[1..], ';');
      StripSpaces(s[0], later[0]);
      StripTail(later, [s[0]] + later[0]);
    }
  }

  function ExtendFirst(c: char, parts: seq<string>): seq<string>
    requires parts != []
  {
    [[c] + parts[0]] + parts[1..]
  }

  function ExtendLast(parts: seq<string>, c: char): seq<string>
    requires parts != []
  {
    parts[..|parts| - 1] + [parts[|parts| - 1] + [c]]
  }

  lemma SplitCons(c: char, s: string, sep: char)
    ensures Split([c] + s, sep) == if c == sep then [""] + Split(s, sep) else ExtendFirst(c, Split(s, sep))
    ensures Split("", sep) == [""]
  {
    assert ([c] + s)[1..] == s;
  }

  lemma ExtendBoth(c: char, parts: seq<string>, d: char)
    requires parts != []
    ensures ExtendLast(ExtendFirst(c, parts), d) == ExtendFirst(c, ExtendLast(parts, d))
    ensures ExtendLast([""] + parts, d) == [""] + ExtendLast(parts, d)
  {
    if |parts| == 1 {
      assert [c] + (parts[0] + [d]) == [c] + parts[0] + [d];
    }
  }

  lemma {:induction false} SplitSnoc(s: string, sep: char, c: char)
    requires c != sep
    ensures Split(s + [c], sep) == ExtendLast(Split(s, sep), c)
  {
    hide Split, ExtendFirst, ExtendLast;
    if s == "" {
      SplitCons(c, "", sep);
      OneChar(c);
      assert s + [c] == [c] + "";
    } else {
      var rest := s[1..];
      SplitSnoc(rest, sep, c);
      SplitCons(s[0], rest + [c], sep);
      SplitCons(s[0], rest, sep);
      ExtendBoth(s[0], Split(rest, sep), c);
      assert s == [s[0]] + rest && s + [c] == [s[0]] + (rest + [c]);
    }
  }

  lemma OneChar(c: char)
    ensures ExtendFirst(c, [""]) == ExtendLast([""], c) == [[c]]
  {
    assert [c] + "" == [c] && "" + [c] == [c];
  }

  lemma {:induction false} ColumnsAfterTrimRight(s: string)
    requires NoBreaks(s)
    ensures StripAll(Split(TrimRight(s), ';')) == StripAll(Split(s, ';'))
  {
    hide Strip, StripAll, IsSpace, IsBreak, Split;
    if s != "" && IsSpace(s[|s| - 1]) {
      var front, c := s[..|s| - 1], s[|s| - 1];
      Semicolon();
      ColumnsAfterTrimRight(front);
      assert s == front + [c];
      SplitSnoc(front, ';', c);
      var parts := Split(front, ';');
      StripSpaces(c, parts[|parts| - 1]);
      StripFront(parts, parts[|parts| - 1] + [c]);
    }
  }

  lemma {:induction false} TrimLeftFacts(s: string)
    ensures NoBreaks(s) ==> NoBreaks(TrimLeft(s))
    ensures forall c | c in s && !IsSpace(c) :: c in TrimLeft(s)
  {
    hide IsSpace, IsBreak;
    if s != "" && IsSpace(s[0]) {
      TrimLeftFacts(s[1..]);
    }
  }

  lemma {:induction false} TrimRightFacts(s: string)
    ensures TrimRight(s) <= s
    ensures forall c | c in s && !IsSpace(c) :: c in TrimRight(s)
  {
    hide IsSpace, IsBreak;
    if s != "" && IsSpace(s[|s| - 1]) {
      TrimRightFacts(s[..|s| - 1]);
      assert s == s[..|s| - 1] + [s[|s| - 1]];
    }
  }

  /** Stripping the line first makes no difference to its stripped columns. */
  lemma ColumnsAfterStrip(s: string)
    requires NoBreaks(s)
    ensures StripAll(Split(Strip(s), ';')) == StripAll(Split(s, ';'))
    ensures ';' in s ==> ';' in Strip(s)
  {
    hide TrimLeft, TrimRight, IsSpace, IsBreak, Split, StripAll, NoBreaks;
    Semicolon();
    TrimLeftFacts(s);
    TrimRightFacts(TrimLeft(s));
    ColumnsAfterTrimLeft(s);
    ColumnsAfterTrimRight(TrimLeft(s));
  }

  lemma {:induction false} SplitCell(s: string, sep: char)
    requires sep !in s
    ensures Split(s, sep) == [s]
  {
    if s != "" {
      SplitCell(s[1..], sep);
      assert s == [s[0]] + s[1..];
    }
  }

  lemma {:induction false} SplitAfterCell(s: string, sep: char, rest: string)
    requires sep !in s
    ensures Split(s + [sep] + rest, sep) == [s] + Split(rest, sep)
  {
    if s == "" {
      assert s + [sep] + rest == [sep] + rest;
    } else {
      var t := s + [sep] + rest;
      assert t[0] == s[0] && t[1..] == s[1..] + [sep] + rest;
      SplitAfterCell(s[1..], sep, rest);
      assert s == [s[0]] + s[1..];
    }
  }

  lemma {:induction false} SplitJoined(parts: seq<string>, sep: char)
    requires parts != [] && forall i | 0 <= i < |parts| :: sep !in parts[i]
    ensures Split(Join(parts, sep), sep) == parts
    decreases |parts|
  {
    hide Split;
    if |parts| == 1 {
      SplitCell(parts[0], sep);
    } else {
      SplitAfterCell(parts[0], sep, Join(parts[1..], sep));
      SplitJoined(parts[1..], sep);
    }
  }

  lemma {:induction false} JoinedNoBreaks(parts: seq<string>, sep: char)
    requires !IsBreak(sep) && forall i | 0 <= i < |parts| :: NoBreaks(parts[i])
    ensures NoBreaks(Join(parts, sep))
    decreases |parts|
  {
    hide IsBreak;
    if |parts| > 1 {
      JoinedNoBreaks(parts[1..], sep);
    }
  }

  lemma PrintedColumn(c: Column)
    requires WellFormedColumn(c)
    ensures NoBreaks(c.Print()) && ';' !in c.Print() && Strip(c.Print()) == c.text
  {
    hide Strip, IsSpace, IsBreak;
    Semicolon();
    StripPadding(c.left, c.text, c.right);
    StripCell(c.text);
  }

  lemma PrintedColumns(columns: seq<Column>)
    requires columns != [] && forall i | 0 <= i < |columns| :: WellFormedColumn(columns[i])
    ensures NoBreaks(Join(Printed(columns), ';'))
    ensures StripAll(Split(Join(Printed(columns), ';'), ';')) == Texts(columns)
  {
    hide Strip, IsSpace, IsBreak, NoBreaks, WellFormedColumn, Split, Join;
    Semicolon();
    forall i | 0 <= i < |columns|
      ensures NoBreaks(Printed(columns)[i]) && ';' !in Printed(columns)[i]
      ensures Strip(Printed(columns)[i]) == columns[i].text
    {
      PrintedColumn(columns[i]);
    }
    JoinedNoBreaks(Printed(columns), ';');
    SplitJoined(Printed(columns), ';');
  }

  /** A padded code is no more a heading than the code itself. */
  lemma PaddedCode(code: string, right: string)
    requires !(HEADING <= code) && Padding(right)
    ensures !(HEADING <= code + right)
  {
    hide IsBreak;
    Semicolon();
    var line := code + right;
    if |HEADING| <= |code| {
      assert line[..|HEADING|] == code[..|HEADING|];
    } else if |HEADING| <= |line| {
      assert IsSpace(line[10]) && !IsSpace(HEADING[10]);
    }
  }

  lemma JoinedCons(columns: seq<Column>)
    requires |columns| > 1
    ensures Join(Printed(columns), ';') == columns[0].Print() + [';'] + Join(Printed(columns[1..]), ';')
  {
    assert Printed(columns)[1..] == Printed(columns[1..]);
  }

  lemma VisibleStart(left: string, text: string, rest: string)
    requires Padding(left) && text != "" && Trimmed(text)
    ensures TrimLeft(left + (text + rest)) == text + rest
  {
    TrimLeftPadding(left, text + rest);
  }

  lemma EmptyCode(code: Column, rest: string)
    requires WellFormedColumn(code) && code.text == ""
    ensures TrimLeft(code.Print() + [';'] + rest) == [';'] + rest
  {
    hide IsSpace, IsBreak, TrimLeft, Padding;
    Semicolon();
    assert code.Print() + [';'] + rest == code.left + (code.right + ([';'] + rest));
    TrimLeftPadding(code.left, code.right + ([';'] + rest));
    TrimLeftPadding(code.right, [';'] + rest);
    NothingToTrim([';'] + rest);
  }

  lemma NothingToTrim(s: string)
    requires s != "" && !IsSpace(s[0])
    ensures TrimLeft(s) == s
  {
  }

  /** The stripped row starts like its first column. */
  lemma HeadingColumn(code: Column, rest: string)
    requires WellFormedColumn(code)
    ensures HEADING <= Strip(code.Print() + [';'] + rest) <==> HEADING <= code.text
  {
    hide IsSpace, IsBreak, TrimLeft, TrimRight, Padding, Trimmed, NoBreaks;
    Semicolon();
    if code.text == "" {
      EmptyCode(code, rest);
      TrimRightFacts([';'] + rest);
      assert HEADING[0] in HEADING;
    } else {
      var line := code.text + code.right + [';'] + rest;
      assert code.Print() + [';'] + rest == code.left + (code.text + (code.right + [';'] + rest));
      assert line == code.text + (code.right + [';'] + rest);
      VisibleStart(code.left, code.text, code.right + [';'] + rest);
      TrimRightFacts(line);
      if HEADING <= code.text {
        LongPrefix(TrimRight(line), code.text, ';', line);
      } else {
        PaddedCode(code.text, code.right);
        PrefixBeforeSep(HEADING, code.text + code.right, ';', rest);
      }
    }
  }

  /** A prefix that reaches the separator has all of the text before it. */
  lemma LongPrefix(p: string, s: string, sep: char, line: string)
    requires p <= line && s <= line && sep in p && sep !in s
    ensures s <= p
  {
    assert forall i | 0 <= i < |p| && i < |s| :: p[i] == s[i];
  }

  lemma RowLine(columns: seq<Column>)
    requires |columns| >= 2 && forall i | 0 <= i < |columns| :: WellFormedColumn(columns[i])
    ensures var text := Join(Printed(columns), ';');
            && NoBreaks(text) && Strip(text) != "" && ';' in Strip(text)
            && StripAll(Split(Strip(text), ';')) == Texts(columns)
            && (HEADING <= Strip(text) <==> HEADING <= columns[0].text)
  {
    hide Split, StripAll, Strip, WellFormedColumn, Join, NoBreaks, Printed, Texts;
    PrintedColumns(columns);
    ColumnsAfterStrip(Join(Printed(columns), ';'));
    JoinedCons(columns);
    assert WellFormedColumn(columns[0]);
    HeadingColumn(columns[0], Join(Printed(columns[1..]), ';'));
  }

  lemma Semicolon()
    ensures !IsSpace(';') && !IsBreak(';') && ';' !in HEADING && |HEADING| == 11 && !IsSpace(HEADING[10])
  {
  }

  lemma PrefixBeforeSep(p: string, s: string, sep: char, rest: string)
    requires sep !in p
    ensures p <= s + [sep] + rest <==> p <= s
  {
    var line := s + [sep] + rest;
    if |p| > |s| {
      assert line[|s|] == sep && p[|s|] in p;
    } else {
      assert line[..|p|] == s[..|p|];
    }
  }

  lemma CategoryLine(kind: Kind, name: string)
    requires name != "" && NoBreaks(name) && ';' !in name
    ensures var line := CategoryText(kind, name);
            && Trimmed(line) && NoBreaks(line) && line != "" && !(HEADING <= line)
            && ';' !in line && CategoryName(line) == Some(name)
  {
    var line := CategoryText(kind, name);
    assert line == Opening(kind) + name + ")";
    OpeningFacts(kind);
    assert line[..|Opening(kind)|] == Opening(kind);
    assert line[|Opening(kind)|..|line| - 1] == name;
    assert line[0] == Opening(kind)[0];
    OtherOpening(kind, line);
  }

  /** The header pattern matches nothing but the three kinds of category lines. */
  lemma AmcLine(line: string)
    requires forall kind, category | category != "" :: line != CategoryText(kind, category)
    ensures CategoryName(line).None?
  {
    hide Opening, CategoryText, InBrackets;
    InBracketsMeaning(OpenEnded, line);
    InBracketsMeaning(CloseEnded, line);
    InBracketsMeaning(Interval, line);
  }

  lemma InBracketsMeaning(kind: Kind, line: string)
    ensures InBrackets(kind, line) ==> exists name :: name != "" && line == CategoryText(kind, name)
  {
    if InBrackets(kind, line) {
      var name := line[|Opening(kind)|..|line| - 1];
      assert line == Opening(kind) + name + ")";
      assert name != "" && line == CategoryText(kind, name);
    }
  }

  /** Printable ASCII, and no semicolon. */
  predicate Plain(c: char) {
    ' ' <= c <= '~' && c != ';'
  }

  lemma PlainFacts(s: string)
    requires forall i | 0 <= i < |s| :: Plain(s[i])
    ensures NoBreaks(s) && ';' !in s
  {
  }

  lemma PlainOpen()
    ensures forall i | 0 <= i < |Opening(OpenEnded)| :: Plain(Opening(OpenEnded)[i])
  {
  }

  lemma PlainClose()
    ensures forall i | 0 <= i < |Opening(CloseEnded)| :: Plain(Opening(CloseEnded)[i])
  {
  }

  lemma PlainInterval()
    ensures forall i | 0 <= i < |Opening(Interval)| :: Plain(Opening(Interval)[i])
  {
  }

  lemma PlainOpening(kind: Kind)
    ensures forall i | 0 <= i < |Opening(kind)| :: Plain(Opening(kind)[i])
  {
    hide Opening;
    match kind {
      case OpenEnded => PlainOpen();
      case CloseEnded => PlainClose();
      case Interval => PlainInterval();
    }
  }

  lemma OpeningFacts(kind: Kind)
    ensures NoBreaks(Opening(kind)) && ';' !in Opening(kind) && !IsSpace(Opening(kind)[0]) && !IsSpace(')')
    ensures Opening(kind)[0] != HEADING[0]
  {
    hide NoBreaks;
    PlainOpening(kind);
    PlainFacts(Opening(kind));
  }

  lemma OtherOpening(kind: Kind, line: string)
    requires line != "" && line[0] == Opening(kind)[0]
    ensures forall k | k != kind :: !InBrackets(k, line)
  {
    forall k | k != kind ensures !InBrackets(k, line) {
      assert Opening(k)[0] != Opening(kind)[0];
    }
  }

  // ---------------------------------------------------------------- codes and quotes

  lemma TitleLetters(i: nat)
    requires i < 11
    ensures "SCHEME CODE"[i] as int == "scheme code"[i] as int - if i == 6 then 0 else 32
    ensures i != 6 ==> 97 <= "scheme code"[i] as int <= 122
    ensures i == 6 ==> "scheme code"[i] as int == 32
  {
  }

  lemma TitleMeaning(s: string)
    ensures Lower(s) == "scheme code" <==> TitleText(s)
  {
    hide Lower;
    if |s| == 11 {
      forall i | 0 <= i < 11
        ensures Lower(s)[i] == "scheme code"[i] <==> s[i] == "scheme code"[i] || s[i] == "SCHEME CODE"[i]
      {
        LowerAt(s, i);
        TitleLetters(i);
      }
    }
  }

  lemma QuoteMeaning(text: string, quote: Quote, toFloat: ToFloat)
    requires Says(text, quote, toFloat)
    ensures Nav(text, toFloat) == if quote.Price? then Some(quote.number) else None
  {
    hide RemoveCommas, CommasIn;
    if !quote.Missing? {
      RemovingMeaning(quote.plain, text);
    }
  }

  /** Every NAV column says one of the three things. */
  lemma EveryTextIsAQuote(text: string, toFloat: ToFloat)
    ensures exists quote :: Says(text, quote, toFloat)
  {
    hide RemoveCommas, CommasIn;
    var plain := RemoveCommas(text);
    RemovingMeaning(plain, text);
    var quote := if MissingText(text) then Missing
                 else match toFloat(plain) case None => Unreadable(plain) case Some(x) => Price(plain, x);
    assert Says(text, quote, toFloat);
  }

  // ---------------------------------------------------------------- reading back any line

  /** What a well-formed line does to the state. */
  function Effect(st: State, b: Block): State {
    match b
    case Category(_, name) => st.(category := Some(name))
    case Amc(name) => st.(amc := Some(name))
    case Fund(_, _, _, _, _, _, _, _) =>
      if Holding(b) then st.(out := st.out + [RecordFrom(b, st.amc, st.category)]) else st
    case Short(_) => st
    case Heading(_) => st
    case Blank => st
  }

  lemma LineFacts(b: Block, toFloat: ToFloat)
    requires WellFormed(b, toFloat)
    ensures NoBreaks(Text(b)) && (!b.Fund? && !b.Short? ==> Trimmed(Text(b)))
  {
    hide CategoryText, Says;
    match b {
      case Category(kind, name) => CategoryLine(kind, name);
      case Fund(_, _, _, _, _, _, _, _) => RowLine(Columns(b));
      case Short(columns) => RowLine(columns);
      case _ =>
    }
  }

  lemma FundRow(st: State, b: Block, toFloat: ToFloat)
    requires b.Fund? && Says(b.navText.text, b.quote, toFloat) && !(HEADING <= b.code.text)
    ensures ParseRow(st, Texts(Columns(b)), toFloat) == Effect(st, b)
  {
    hide Lower, Nav, Says, TitleText;
    TitleMeaning(b.code.text);
    QuoteMeaning(b.navText.text, b.quote, toFloat);
  }

  lemma LineReadsBack(st: State, line: Line, toFloat: ToFloat)
    requires WellFormedLine(line, toFloat)
    ensures ParseLine(st, LineText(line), toFloat) == Effect(st, line.block)
  {
    hide CategoryName, CategoryText, Strip, Split, StripAll, Nav, IsSpace, IsBreak, Padding, Trimmed, Lower;
    hide Says, TitleText;
    var b := line.block;
    LineFacts(b, toFloat);
    StripPadding(line.indent, Text(b), line.padding);
    match b {
      case Category(kind, name) =>
        StripCell(Text(b));
        CategoryLine(kind, name);
      case Fund(_, _, _, _, _, _, _, _) =>
        RowLine(Columns(b));
        if !(HEADING <= b.code.text) {
          FundRow(st, b, toFloat);
        }
      case Short(columns) =>
        RowLine(columns);
      case Amc(name) =>
        StripCell(Text(b));
        AmcLine(name);
      case _ =>
        StripCell(Text(b));
    }
  }

  // ---------------------------------------------------------------- the round trip

  lemma FirstPrintedLine(line: string, ending: string, rest: string)
    requires NoBreaks(line) && LineEnding(ending) && ending != ""
    ensures SplitLines(line + ending + rest) == [line] + SplitLines(rest)
  {
    hide SplitLines;
    var s := line + ending + rest;
    var n := |line|;
    assert s[..n] == line;
    LinesStep(s, n);
    assert s[n..] == ending + rest;
    assert s[n + BreakLength(s[n..])..] == rest;
  }

  /** A last line without a line break is a line too, unless it is empty. */
  lemma LastPrintedLine(line: string)
    requires NoBreaks(line) && line != ""
    ensures SplitLines(line) == [line]
  {
    hide NoBreaks;
    assert line[..|line|] == line;
    LineLengthIs(line, |line|);
  }

  /** The lines of a printed document. */
  function Lines(doc: seq<Line>): (r: seq<string>)
    ensures |r| == |doc|
  {
    seq(|doc|, i requires 0 <= i < |doc| => LineText(doc[i]))
  }

  lemma {:induction false} PrintedLines(doc: seq<Line>, toFloat: ToFloat)
    requires WellFormedDoc(doc, toFloat)
    ensures SplitLines(Print(doc)) == Lines(doc)
  {
    hide Text, SplitLines, WellFormed, IsBreak, IsSpace, LineEnding;
    NoLines();
    if doc != [] {
      var line := LineText(doc[0]);
      assert WellFormedLine(doc[0], toFloat);
      LineFacts(doc[0].block, toFloat);
      if doc[0].ending == "" {
        assert Print(doc) == line + "" + "" == line;
        LastPrintedLine(line);
      } else {
        FirstPrintedLine(line, doc[0].ending, Print(doc[1..]));
        PrintedLines(doc[1..], toFloat);
        assert Lines(doc) == [line] + Lines(doc[1..]);
      }
    }
  }

  lemma RecordsGrow(doc: seq<Line>, n: nat)
    requires n < |doc|
    ensures Records(doc, n + 1)
            == Records(doc, n) + if Usable(doc, n) then [RecordOf(doc, n)] else []
  {
    hide Usable, RecordOf;
  }

  lemma RecordsStep(doc: seq<Line>, n: nat)
    requires n < |doc|
    ensures Effect(State(NearestCategory(doc, n), NearestAmc(doc, n), Records(doc, n)), doc[n].block)
            == State(NearestCategory(doc, n + 1), NearestAmc(doc, n + 1), Records(doc, n + 1))
  {
    hide Records, TitleText;
    RecordsGrow(doc, n);
  }

  lemma {:induction false} PrefixReadsBack(doc: seq<Line>, n: nat, toFloat: ToFloat)
    requires WellFormedDoc(doc, toFloat) && n <= |doc|
    ensures ParseLines(INITIAL, Lines(doc)[..n], toFloat)
            == State(NearestCategory(doc, n), NearestAmc(doc, n), Records(doc, n))
  {
    hide ParseLine, Effect, Text, WellFormedLine, NearestCategory, NearestAmc, Records;
    if n > 0 {
      PrefixReadsBack(doc, n - 1, toFloat);
      assert Lines(doc)[..n][..n - 1] == Lines(doc)[..n - 1];
      LineReadsBack(ParseLines(INITIAL, Lines(doc)[..n - 1], toFloat), doc[n - 1], toFloat);
      RecordsStep(doc, n - 1);
    } else {
      NothingRead(doc);
    }
  }

  lemma NothingRead(doc: seq<Line>)
    ensures INITIAL == State(NearestCategory(doc, 0), NearestAmc(doc, 0), Records(doc, 0))
  {
  }

  /**
   Print then parse: exactly the rows with a usable NAV, in order, each with its columns and the
   nearest AMC and category headers above it.
   */
  lemma PrintThenParse(doc: seq<Line>, toFloat: ToFloat)
    requires WellFormedDoc(doc, toFloat)
    ensures Parse(INITIAL, Print(doc), toFloat).out == Records(doc, |doc|)
  {
    hide ParseLine, Records, SplitLines, WellFormedDoc;
    PrintedLines(doc, toFloat);
    PrefixReadsBack(doc, |doc|, toFloat);
    assert Lines(doc)[..|doc|] == Lines(doc);
  }
}
