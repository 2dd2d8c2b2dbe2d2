# US State Historic Population Dashboard — a Dafny model of its query logic

The dashboard loads a table of `(state, year, population)` rows from a CSV file once at
start-up. It then answers three kinds of request against that read-only table:

- the choropleth map shows the rows of the year picked in a dropdown;
- the line chart shows the rows of the state last clicked on the map, or a prompt before any click;
- a text box answers one fixed question, "What was the population of [ST] in [YYYY]?". It
  answers by matching a regular expression and looking the value up in the table. No
  language model is involved.

The dropdown offers the table's distinct years, newest first. Its initial value is the
newest year.

This project models all of that as pure functions over `seq<Record>` and `string`, because
the source changes no state after loading. It proves what each function returns:

- `wrappers.dfy`: `Option`, for Python's `None` and for absent results.
- `digits.dfy`: how Python prints a non-negative int (`Decimal`), how `int` reads a digit
  string (`Value`), and the thousands-grouped text of `f"{n:,}"` (`Grouped`).
- `template.dfy`: the regular expression
  `What was the population of\s*([A-Z]{2})\s*in\s*(\d{4})\?`, stated twice. The
  specification `InstanceAt` says the input holds a concatenation of the pattern's pieces
  at a position. The scanner `ScanAt` reads the pieces left to right, with greedy
  whitespace runs; `Search` tries each start position in turn, like `re.search`. The lemmas
  prove that the scanner reports exactly the leftmost instance.
- `table.dfy`: the `Record` row and the boolean-mask selection `df[mask]` (`Where`). The
  selection is proved to keep exactly the rows the mask accepts, in table order.
- `dashboard.dfy`: the callbacks `update_map`, `update_line_chart` and
  `update_ai_query_output`, and the dropdown's options and default value.

Three details of the code shape what the model promises:

- `update_line_chart` keeps the clicked state's rows in table order and does not sort them
  by year (app.py:84).
- The pattern's `\s*` lets the whitespace between its tokens be empty (app.py:109).
- The table may hold several rows with the same state and year. The answer uses the first
  of them in table order (app.py:115-117).

## Model

| member | source | states |
|---|---|---|
| `Digits.Decimal` | app.py:117 | the printed form of an int is a canonical numeral: only digits, and no leading zero unless the number is 0 |
| `Digits.ValueOfDecimal` | app.py:112 | round trip: `int` of the printed form of `n` gives `n` back (`Digits.Value` models `int(ds)` on a digit string) |
| `Digits.DecimalOfValue` | app.py:112 | a canonical numeral is the printed form of its own value, so printing is one-to-one |
| `Digits.PrintedValue` | app.py:112 | printing `int(ds)` for a digit string `ds` gives `ds` without its leading zeros (`0099` prints as `99`) |
| `Digits.StripZerosValue` | app.py:112 | dropping leading zeros keeps the value and leaves a canonical numeral |
| `Digits.GroupedDigits` | app.py:117 | deleting the commas of `f"{n:,}"` (modelled by `Digits.Grouped`) gives the plain decimal text of `n` |
| `Digits.GroupedLayout` | app.py:117 | in `f"{n:,}"` the first group has one to three digits; counting from the right, every fourth character is a comma and all others are digits, so each later group has exactly three digits |
| `Digits.DecimalSplit` | app.py:117 | the decimal text of a number of 1000 or more is the text of `n / 1000` followed by its last three digits, zero-padded |
| `Template.SkipSpace` | app.py:109 | greedy `\s*`: the result ends the maximal whitespace run starting at the position |
| `Template.ScanAt` | app.py:109 | a capture read at one position has two capital letters `A`-`Z` and four ASCII digits |
| `Template.ScanAtSound` | app.py:109 | what the scanner reads at a position is an instance of the pattern there |
| `Template.ScanAtComplete` | app.py:109 | every instance of the pattern at a position is what the scanner reads there, with the same captures |
| `Template.ScanAtExact` | app.py:109 | the scanner returns captures `(st, yr)` at `i` if and only if the input holds an instance with those captures at `i` |
| `Template.MatchesAtExact` | app.py:109 | the pattern matches at `i` if and only if the scanner succeeds at `i` |
| `Template.InstanceUnique` | app.py:109 | two instances at one position have the same captures |
| `Template.FirstHit` | app.py:109 | trying start positions in turn, a reported position lies in the range tried and the matcher succeeds there with the reported captures |
| `Template.FirstHitFirst` | app.py:109 | the reported position is the first in the range where the matcher succeeds; nothing is reported only if it fails at every position of the range |
| `Template.Search` | app.py:109 | a reported match starts inside the input, at a position where the scanner succeeds with the reported captures |
| `Template.SearchFirst` | app.py:109 | the search reports the first position of the input where the scanner succeeds, and reports nothing only if it fails at every position |
| `Template.SearchFindsLeftmost` | app.py:109-111 | the search over the whole input returns `(i, st, yr)` if and only if the leftmost instance of the pattern starts at `i` and captures `st` and `yr` |
| `Template.SearchFailsIffNoInstance` | app.py:109-110 | the search fails if and only if no position of the input holds an instance of the pattern |
| `Template.OccursAppend` | app.py:109 | proof helper for the pattern's pieces, not a behaviour of the code: a concatenation occurs at `i` if and only if its first part occurs at `i` and its second part occurs right after it |
| `Table.WhereMembers` | app.py:48 | `Table.Where` models `df[mask]`: a row is selected if and only if it is in the table and the mask accepts it |
| `Table.PositionsExact` | app.py:84 | the positions of the accepted rows, each accepted row's position once, in increasing order |
| `Table.WhereAtPositions` | app.py:84 | the selection has one entry per accepted position, the row at that position, in table order |
| `Table.FirstKept` | app.py:115-117 | the first entry of the selection is the accepted row of smallest position |
| `Dashboard.InsertDescending` | app.py:30 | inserting a year into a strictly descending list gives a strictly descending list holding the old elements and the year |
| `Dashboard.YearOptions` | app.py:30 | the dropdown's options are strictly descending (so have no duplicates) and their set is the set of years in the table |
| `Dashboard.DescendingUnique` | app.py:30 | two strictly descending lists with the same elements are equal |
| `Dashboard.YearOptionsUnique` | app.py:30 | any strictly descending list of exactly the table's years is the option list, as `sorted(unique, reverse=True)` |
| `Dashboard.DefaultYear` | app.py:31 | the initial value exists if and only if the table is non-empty; it is a year of the table and no row has a later year |
| `Dashboard.DefaultIsFirstOption` | app.py:30-31 | for a non-empty table the initial value is the first option |
| `Dashboard.MapRowsExact` | app.py:48 | `Dashboard.MapRows` models `df[df['year'] == selected_year]`; the map's rows are exactly the rows of the selected year, one per position, in table order; a year not in the table gives no rows |
| `Dashboard.LineChart` | app.py:80-90 | the chart is the prompt if and only if nothing has been clicked; the prompt reads `Click on a state to see its population history`, and after a click the title is `Population History of {state}` |
| `Dashboard.LineChartExact` | app.py:83-84 | after a click the chart's rows are exactly the clicked state's rows, one per position, in table order, with no sort by year |
| `Dashboard.PopulationOf` | app.py:115-116 | the lookup finds nothing if and only if no row has the state and the year |
| `Dashboard.PopulationOfFirstRow` | app.py:115-117 | the lookup reports the population of the first row, in table order, with the state and the year |
| `Dashboard.QueryOutput` | app.py:103-104 | a `None` query gives the empty string, whatever the table holds |
| `Dashboard.QueryOutputInvalid` | app.py:120-121 | the invalid-format message is returned if and only if the input holds no instance of the pattern anywhere |
| `Dashboard.AnsweredIsNotInvalid` | app.py:116-121 | a found question never yields the invalid-format message |
| `Dashboard.QueryOutputAnswer` | app.py:110-117 | `Dashboard.AnswerText` models the f-string at app.py:117; given a leftmost instance capturing `st`, `yr` and a first matching row `k`, the answer is `A: The population of {st} in {yr without leading zeros} was {population of row k, grouped}` |
| `Dashboard.QueryOutputNoData` | app.py:110-119 | `Dashboard.NoDataText` models the f-string at app.py:119; given a leftmost instance capturing `st`, `yr` and no row with that state and year, the answer is `No data found for {st} in {yr without leading zeros}.` |

## Left out

- Loading the CSV file named by the `DATA_URL` environment variable, `load_dotenv`, and the column renaming. These are I/O. The table is a parameter of every function.
- The Gemini client configuration. It is never called.
- The Dash layout, the callback decorators and `run_server`. These are framework wiring and an event loop.
- Plotly figure construction: the choropleth, the line chart, their titles other than the line chart's, hover templates and colour scales. The model gives the rows each figure is built from.
- The `html.H3` element and its style. Only the text it holds is modelled.
- The `except Exception` branch (`Error: {e}`). Over ASCII input nothing in the `try` block can raise, so the model has no error outcome.
- Non-ASCII input. `\s` is modelled as Python's whitespace below 128 (tab through carriage return, 0x1C-0x1F and space), and `\d` as the ten ASCII digits. Python's Unicode whitespace and digits, which `int` also accepts, are not modelled.
- The click event's structure. `clickData['points'][0]['location']` is modelled as the clicked location string, or `None` before any click.
- A cleared dropdown. Its value `None` would select no rows. `MapRows` takes an int year.
- Negative or missing (NaN) populations. `Record.population` is a `nat`, and `Grouped` covers only non-negative numbers.
