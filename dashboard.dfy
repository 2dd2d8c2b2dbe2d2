/** The dashboard's callbacks and its year dropdown, as functions of the population table:
    the rows behind the choropleth map (`update_map`), the rows behind the line chart
    (`update_line_chart`), the text of the question box (`update_ai_query_output`), and
    the dropdown's options and default value. */
module Dashboard {
  import opened Wrappers
  import opened Digits
  import opened Template
  import opened Table

  /* ---------- Year dropdown ---------- */

  predicate StrictlyDescending(xs: seq<int>) {
    forall i, j :: 0 <= i < j < |xs| ==> xs[i] > xs[j]
  }

  function Elements(xs: seq<int>): set<int> {
    set x | x in xs
  }

  /** The years that occur in the table (`df['year'].unique()` as a set). */
  function Years(t: seq<Record>): set<int> {
    set r | r in t :: r.year
  }

  lemma ConsElements(x: int, ys: seq<int>)
    ensures Elements([x] + ys) == {x} + Elements(ys)
  {
    assert forall z :: z in [x] + ys <==> z == x || z in ys;
  }

  /** Putting a larger year in front of a strictly descending list keeps it so. */
  lemma ConsDescending(x: int, ys: seq<int>)
    requires StrictlyDescending(ys) && forall z :: z in Elements(ys) ==> z < x
    ensures StrictlyDescending([x] + ys)
  {
    var zs := [x] + ys;
    forall i, j | 0 <= i < j < |zs| ensures zs[i] > zs[j] {
      assert zs[j] == ys[j - 1] && ys[j - 1] in Elements(ys);
      if i > 0 {
        assert zs[i] == ys[i - 1];
      }
    }
  }

  /** Every element after the head of a strictly descending list is below the head. */
  lemma TailBelow(xs: seq<int>)
    requires StrictlyDescending(xs) && xs != []
    ensures forall z :: z in Elements(xs[1..]) ==> z < xs[0]
  {
    forall z | z in Elements(xs[1..]) ensures z < xs[0] {
      var k :| 0 <= k < |xs[1..]| && xs[1..][k] == z;
      assert xs[k + 1] == z;
    }
  }

  /** Adds one year to a strictly descending list of distinct years. */
  function InsertDescending(xs: seq<int>, y: int): (r: seq<int>)
    requires StrictlyDescending(xs)
    ensures StrictlyDescending(r)
    ensures Elements(r) == Elements(xs) + {y}
  {
    if xs == [] then [y]
    else if y == xs[0] then xs
    else
      assert xs == [xs[0]] + xs[1..];
      ConsElements(xs[0], xs[1..]);
      TailBelow(xs);
      if y > xs[0] then
        ConsElements(y, xs);
        ConsDescending(y, xs);
        [y] + xs
      else
        var rest := InsertDescending(xs[1..], y);
        ConsElements(xs[0], rest);
        ConsDescending(xs[0], rest);
        [xs[0]] + rest
  }

  /** `sorted(df['year'].unique(), reverse=True)`: the dropdown's options. */
  function YearOptions(t: seq<Record>): (r: seq<int>)
    ensures StrictlyDescending(r)
    ensures Elements(r) == Years(t)
  {
    if t == [] then []
    else
      var p := t[..|t| - 1];
      assert t == p + [t[|t| - 1]];
      assert Years(t) == Years(p) + {t[|t| - 1].year};
      InsertDescending(YearOptions(p), t[|t| - 1].year)
  }

  /** A strictly descending list is determined by its elements. */
  lemma {:induction false} DescendingUnique(a: seq<int>, b: seq<int>)
    requires StrictlyDescending(a) && StrictlyDescending(b) && Elements(a) == Elements(b)
    ensures a == b
  {
    assert a != [] ==> a[0] in Elements(a);
    assert b != [] ==> b[0] in Elements(b);
    if a != [] && b != [] {
      assert a[0] in Elements(b) && b[0] in Elements(a);
      assert a[0] == b[0];
      assert Elements(a[1..]) == Elements(a) - {a[0]} by {
        assert a == [a[0]] + a[1..];
      }
      assert Elements(b[1..]) == Elements(b) - {b[0]} by {
        assert b == [b[0]] + b[1..];
      }
      DescendingUnique(a[1..], b[1..]);
      assert a == [a[0]] + a[1..] && b == [b[0]] + b[1..];
    }
  }

  /** The dropdown lists each year of the table once, newest first, and nothing else:
      any list with those two properties is the option list. */
  lemma YearOptionsUnique(t: seq<Record>, opts: seq<int>)
    requires StrictlyDescending(opts) && Elements(opts) == Years(t)
    ensures opts == YearOptions(t)
  {
    DescendingUnique(opts, YearOptions(t));
  }

  /** `df['year'].max()`: the dropdown's initial value; an empty table has none (pandas gives NaN). */
  function DefaultYear(t: seq<Record>): (r: Option<int>)
    ensures r.None? <==> t == []
    ensures r.Some? ==> r.value in Years(t)
    ensures r.Some? ==> forall k :: 0 <= k < |t| ==> t[k].year <= r.value
  {
    if t == [] then None
    else
      var p, y := t[..|t| - 1], t[|t| - 1].year;
      assert t == p + [t[|t| - 1]];
      match DefaultYear(p)
      case None => Some(y)
      case Some(m) => Some(if m < y then y else m)
  }

  /** The initial value is the first option of the dropdown. */
  lemma DefaultIsFirstOption(t: seq<Record>)
    requires t != []
    ensures |YearOptions(t)| > 0 && YearOptions(t)[0] == DefaultYear(t).value
  {
    var opts, m := YearOptions(t), DefaultYear(t).value;
    assert m in Elements(opts);
    assert |opts| > 0;
    assert opts[0] in Years(t);
    var k :| 0 <= k < |t| && t[k].year == opts[0];
  }

  /* ---------- Map: rows of the selected year ---------- */

  function YearIs(year: int): Record -> bool {
    (r: Record) => r.year == year
  }

  /** `df[df['year'] == selected_year]`: the rows coloured on the map. */
  function MapRows(t: seq<Record>, year: int): seq<Record> {
    Where(t, YearIs(year))
  }

  /** The map shows exactly the rows of the selected year, each once, in table order; a
      year the table lacks gives no rows. */
  lemma MapRowsExact(t: seq<Record>, year: int)
    ensures forall x :: x in MapRows(t, year) <==> x in t && x.year == year
    ensures |MapRows(t, year)| == |Positions(t, YearIs(year))|
    ensures forall j :: 0 <= j < |Positions(t, YearIs(year))| ==>
      Positions(t, YearIs(year))[j] < |t| && MapRows(t, year)[j] == t[Positions(t, YearIs(year))[j]]
    ensures year !in Years(t) ==> MapRows(t, year) == []
  {
    WhereMembers(t, YearIs(year));
    WhereAtPositions(t, YearIs(year));
    assert MapRows(t, year) != [] ==> MapRows(t, year)[0] in MapRows(t, year);
  }

  /* ---------- Line chart: rows of the clicked state ---------- */

  const ClickPrompt := "Click on a state to see its population history"

  /** What the line chart shows: a prompt before any click, else a state's rows. */
  datatype Chart = Prompt(title: string) | History(title: string, rows: seq<Record>)

  function StateIs(state: string): Record -> bool {
    (r: Record) => r.state == state
  }

  /** `update_line_chart`: `click` is the location of the first clicked point, if any. */
  function LineChart(t: seq<Record>, click: Option<string>): (c: Chart)
    ensures click.None? <==> c.Prompt?
    ensures click.None? ==> c == Prompt(ClickPrompt)
    ensures click.Some? ==> c.title == "Population History of " + click.value
  {
    match click
    case None => Prompt(ClickPrompt)
    case Some(state) => History("Population History of " + state, Where(t, StateIs(state)))
  }

  /** After a click the chart holds exactly the clicked state's rows, each once, in table
      order (not re-sorted by year). */
  lemma LineChartExact(t: seq<Record>, state: string)
    ensures LineChart(t, Some(state)).History?
    ensures forall x :: x in LineChart(t, Some(state)).rows <==> x in t && x.state == state
    ensures |LineChart(t, Some(state)).rows| == |Positions(t, StateIs(state))|
    ensures forall j :: 0 <= j < |Positions(t, StateIs(state))| ==>
      Positions(t, StateIs(state))[j] < |t| &&
      LineChart(t, Some(state)).rows[j] == t[Positions(t, StateIs(state))[j]]
  {
    WhereMembers(t, StateIs(state));
    WhereAtPositions(t, StateIs(state));
  }

  /* ---------- Question box ---------- */

  /** "Invalid query format. Please use the format 'What was the population of [ST] in [YYYY]?'" */
  const InvalidFormat := "Invalid query format. " + "Please use the format '" + Phrase + " [ST] in [YYYY]?'"

  function RowIs(state: string, year: int): Record -> bool {
    (r: Record) => r.state == state && r.year == year
  }

  /** The first row of the table with this state and year. */
  ghost predicate FirstRowAt(t: seq<Record>, state: string, year: int, k: nat) {
    k < |t| && t[k].state == state && t[k].year == year &&
    forall j :: 0 <= j < k ==> !(t[j].state == state && t[j].year == year)
  }

  /** `df[(df['state'] == state) & (df['year'] == year)]['population'].values`, first entry. */
  function PopulationOf(t: seq<Record>, state: string, year: int): (r: Option<nat>)
    ensures r.None? <==> forall k :: 0 <= k < |t| ==> !(t[k].state == state && t[k].year == year)
  {
    var rows := Where(t, RowIs(state, year));
    WhereMembers(t, RowIs(state, year));
    assert forall k :: 0 <= k < |t| ==> t[k] in t;
    if |rows| > 0 then
      assert rows[0] in t;
      Some(rows[0].population)
    else
      None
  }

  /** The population reported is the one of the first matching row in table order. */
  lemma PopulationOfFirstRow(t: seq<Record>, state: string, year: int, k: nat)
    requires FirstRowAt(t, state, year, k)
    ensures PopulationOf(t, state, year) == Some(t[k].population)
  {
    FirstKept(t, RowIs(state, year), k);
  }

  function AnswerText(state: string, year: nat, population: nat): string {
    "A: The population of " + state + " in " + Decimal(year) + " was " + Grouped(population)
  }

  function NoDataText(state: string, year: nat): string {
    "No data found for " + state + " in " + Decimal(year) + "."
  }

  /** `update_ai_query_output`: `None` gives the empty string; otherwise the leftmost
      instance of the question template is looked up, or the input is rejected. */
  function QueryOutput(t: seq<Record>, query: Option<string>): (r: string)
    ensures query.None? ==> r == ""
  {
    match query
    case None => ""
    case Some(s) =>
      match Search(s)
      case None => InvalidFormat
      case Some(m) =>
        var state, year := m.captures.state, Value(m.captures.year);
        match PopulationOf(t, state, year)
        case Some(n) => AnswerText(state, year, n)
        case None => NoDataText(state, year)
  }

  /** The input is rejected exactly when it holds no instance of the template anywhere. */
  lemma QueryOutputInvalid(t: seq<Record>, s: string)
    ensures QueryOutput(t, Some(s)) == InvalidFormat <==> forall j: nat :: !MatchesAt(s, j)
  {
    SearchFailsIffNoInstance(s);
    if Search(s).Some? {
      AnsweredIsNotInvalid(t, s);
    }
  }

  lemma AnsweredIsNotInvalid(t: seq<Record>, s: string)
    requires Search(s).Some?
    ensures QueryOutput(t, Some(s)) != InvalidFormat
  {
    assert InvalidFormat[0] == 'I';
    var m := Search(s).value;
    var state, year := m.captures.state, Value(m.captures.year);
    var r := QueryOutput(t, Some(s));
    match PopulationOf(t, state, year)
    case Some(n) =>
      assert r == AnswerText(state, year, n);
      assert r[0] == 'A';
    case None =>
      assert r == NoDataText(state, year);
      assert r[0] == 'N';
  }

  /** With a matching row, the answer names the captured state, the captured year as an
      integer (leading zeros dropped) and the population of the first such row, grouped
      by thousands. */
  lemma QueryOutputAnswer(t: seq<Record>, s: string, i: nat, st: string, yr: string, k: nat)
    requires Leftmost(s, i, st, yr) && |yr| == 4 && AllDigits(yr)
    requires FirstRowAt(t, st, Value(yr), k)
    ensures QueryOutput(t, Some(s)) ==
      "A: The population of " + st + " in " + StripZeros(yr) + " was " + Grouped(t[k].population)
  {
    SearchFindsLeftmost(s, i, st, yr);
    assert Search(s) == Some(Match(i, Captures(st, yr)));
    PopulationOfFirstRow(t, st, Value(yr), k);
    PrintedValue(yr);
    assert QueryOutput(t, Some(s)) == AnswerText(st, Value(yr), t[k].population);
  }

  /** Without a matching row, the answer is the no-data message for the captured state
      and the captured year as an integer. */
  lemma QueryOutputNoData(t: seq<Record>, s: string, i: nat, st: string, yr: string)
    requires Leftmost(s, i, st, yr) && |yr| == 4 && AllDigits(yr)
    requires forall k :: 0 <= k < |t| ==> !(t[k].state == st && t[k].year == Value(yr))
    ensures QueryOutput(t, Some(s)) == "No data found for " + st + " in " + StripZeros(yr) + "."
  {
    SearchFindsLeftmost(s, i, st, yr);
    assert Search(s) == Some(Match(i, Captures(st, yr)));
    assert PopulationOf(t, st, Value(yr)).None?;
    PrintedValue(yr);
    assert QueryOutput(t, Some(s)) == NoDataText(st, Value(yr));
  }
}
