/** The forum statistics page: normalisation of the `years` rows of the payload, the
    latest-year pick, the descending year tabs and their selection, the metric buttons
    with the chart they drive, the counts line and the error path of `load`. */
module ForumStats {
  import opened Wrappers
  import opened Strings
  import opened JsValues
  import Seqs

  const DataUrl: String := "assets/data/forum-stats.json"

  /** The text `load` shows when anything before rendering fails. */
  const LoadErrorText: String :=
    "Не удалось загрузить данные форума. Откройте сайт через локальный сервер и проверьте файл "
    + DataUrl + "."

  /** One row after the mapping step of the normalisation. */
  datatype Row = Row(
    year: Number,
    participants: Number,
    applications: Number,
    speakers: Number,
    capital: Number,
    partners: Number,
    notes: String)

  // ---------------------------------------------------------------- normalisation

  /** A metric of the raw row `r`: `Number(r[name]) || 0`. */
  function Metric(rt: Runtime, r: JsValue, name: String): (n: Number)
    requires Get(r, name).Some?
    ensures n != NaN
    ensures Get(r, name) == Some(Undefined) ==> n == Finite(0.0)
  {
    OrZero(ToNumber(rt, Get(r, name).value))
  }

  /** Reading a property of `r` throws a `TypeError`. */
  predicate Throws(r: JsValue) {
    r == Undefined || r == Null
  }

  /** No metric of `r` is `NaN`, as `|| 0` guarantees. */
  predicate MetricsSet(r: Row) {
    && r.participants != NaN && r.applications != NaN && r.speakers != NaN
    && r.capital != NaN && r.partners != NaN
  }

  /** The mapping step for one element of `years` that does not throw. */
  function NormalizeRow(rt: Runtime, r: JsValue): (row: Row)
    requires !Throws(r)
    ensures row.year == ToNumber(rt, Get(r, "year").value)
    ensures Trimmed(row.notes)
    ensures MetricsSet(row)
  {
    Row(
      ToNumber(rt, Get(r, "year").value),
      Metric(rt, r, "participants"),
      Metric(rt, r, "applications"),
      Metric(rt, r, "speakers"),
      Metric(rt, r, "speaker_capital_bln_rub"),
      Metric(rt, r, "partners"),
      SafeText(rt, Get(r, "notes").value))
  }

  /** `years.map(...)`: it throws as soon as one element does, and otherwise maps each
      element in place. */
  function MapRows(rt: Runtime, items: seq<JsValue>): (r: Option<seq<Row>>)
    ensures r.None? <==> exists i | 0 <= i < |items| :: Throws(items[i])
    ensures r.Some? ==> |r.value| == |items|
    ensures r.Some? ==> forall i | 0 <= i < |items| :: MetricsSet(r.value[i]) && Trimmed(r.value[i].notes)
  {
    if exists i | 0 <= i < |items| :: Throws(items[i]) then None
    else Some(seq(|items|, i requires 0 <= i < |items| => NormalizeRow(rt, items[i])))
  }

  /** The filter of the normalisation: `Number.isFinite(r.year) && r.year > 0`. */
  predicate ValidYear(r: Row) {
    IsFinite(r.year) && r.year.value > 0.0
  }

  /** The year as the sort comparators see it; they only ever meet finite years. */
  function YearValue(r: Row): real {
    if r.year.Finite? then r.year.value else 0.0
  }

  /** `(a, b) => a.year - b.year`. */
  function AscendingYear(): (Row, Row) -> bool {
    (a: Row, b: Row) => YearValue(a) <= YearValue(b)
  }

  /** `(a, b) => b.year - a.year`. */
  function DescendingYear(): (Row, Row) -> bool {
    (a: Row, b: Row) => YearValue(a) >= YearValue(b)
  }

  lemma YearOrdersArePreorders()
    ensures Seqs.IsTotalPreorder(AscendingYear())
    ensures Seqs.IsTotalPreorder(DescendingYear())
  {
  }

  /** `Array.isArray(payload.years) ? payload.years : []`; `None` when the payload is
      `null`, where reading `years` throws. */
  function YearItems(payload: JsValue): (r: Option<seq<JsValue>>)
    ensures r.None? <==> payload == Undefined || payload == Null
  {
    match Get(payload, "years")
    case None => None
    case Some(Arr(items)) => Some(items)
    case Some(_) => Some([])
  }

  /** The mapped rows before filtering, when the mapping does not throw. */
  function Mapped(rt: Runtime, payload: JsValue): Option<seq<Row>> {
    match YearItems(payload)
    case None => None
    case Some(items) => MapRows(rt, items)
  }

  /** The normalised rows `load` works with, or `None` when it throws before rendering:
      a `null` payload or element, or nothing left after the filter. */
  function Normalize(rt: Runtime, payload: JsValue): (r: Option<seq<Row>>)
    ensures r.Some? ==> r.value != []
  {
    match Mapped(rt, payload)
    case None => None
    case Some(mapped) =>
      var kept := Seqs.Sort(Seqs.Filter(mapped, ValidYear), AscendingYear());
      if kept == [] then None else Some(kept)
  }

  /** Normalisation keeps exactly the rows with a finite positive year, each as often as
      it occurs, in ascending year order, rows of one year in their original order. */
  lemma NormalizeSpec(rt: Runtime, payload: JsValue)
    requires Normalize(rt, payload).Some?
    ensures Mapped(rt, payload).Some?
    ensures multiset(Normalize(rt, payload).value)
         == multiset(Seqs.Filter(Mapped(rt, payload).value, ValidYear))
    ensures forall i | 0 <= i < |Normalize(rt, payload).value| :: ValidYear(Normalize(rt, payload).value[i])
    ensures Seqs.Sorted(Normalize(rt, payload).value, AscendingYear())
    ensures forall k ::
      Seqs.TiesWith(Normalize(rt, payload).value, k, AscendingYear())
      == Seqs.TiesWith(Seqs.Filter(Mapped(rt, payload).value, ValidYear), k, AscendingYear())
  {
    var kept := Seqs.Filter(Mapped(rt, payload).value, ValidYear);
    var rows := Normalize(rt, payload).value;
    YearOrdersArePreorders();
    Seqs.SortSorted(kept, AscendingYear());
    Seqs.FilterSatisfies(Mapped(rt, payload).value, ValidYear);
    forall i | 0 <= i < |rows| ensures ValidYear(rows[i]) {
      assert rows[i] in multiset(kept);
    }
    forall k ensures Seqs.TiesWith(rows, k, AscendingYear()) == Seqs.TiesWith(kept, k, AscendingYear()) {
      Seqs.SortStable(kept, k, AscendingYear());
    }
  }

  /** `load` fails before rendering exactly when the payload or one element is `null`, or
      no row has a finite positive year. */
  lemma NormalizeFails(rt: Runtime, payload: JsValue)
    ensures Normalize(rt, payload).None? <==>
      || Mapped(rt, payload).None?
      || forall r | r in Mapped(rt, payload).value :: !ValidYear(r)
  {
    match Mapped(rt, payload)
    case None =>
    case Some(mapped) =>
      var kept := Seqs.Filter(mapped, ValidYear);
      assert Normalize(rt, payload).None? <==> kept == [] by {
        assert |Seqs.Sort(kept, AscendingYear())| == |kept|;
      }
      Seqs.FilterEmpty(mapped, ValidYear);
  }

  /** A metric the raw row does not define, or defines as a non-numeric string, becomes
      zero, and notes are trimmed. */
  lemma MissingMetricsAreZero(rt: Runtime, r: JsValue, name: String)
    requires r.Obj? && name !in r.fields
    ensures Metric(rt, r, name) == Finite(0.0)
    ensures "notes" in r.fields && r.fields["notes"].Str?
      ==> NormalizeRow(rt, r).notes == Trim(r.fields["notes"].s)
  {
  }

  // ---------------------------------------------------------------- latest year

  /** `pickLatestYear`: a left fold keeping the accumulator unless the current row has a
      strictly greater year. */
  function PickLatest(rows: seq<Row>): (r: Option<Row>)
    ensures r.None? <==> rows == []
    decreases |rows|
  {
    if rows == [] then None
    else
      var acc := PickLatest(rows[..|rows| - 1]);
      var cur := rows[|rows| - 1];
      if acc.None? || Greater(cur.year, acc.value.year) then Some(cur) else acc
  }

  predicate AllFinite(rows: seq<Row>) {
    forall i | 0 <= i < |rows| :: IsFinite(rows[i].year)
  }

  /** Row `i` has the greatest year and no earlier row has it. */
  predicate FirstGreatest(rows: seq<Row>, i: nat) {
    && i < |rows|
    && (forall j | 0 <= j < |rows| :: YearValue(rows[j]) <= YearValue(rows[i]))
    && (forall j | 0 <= j < i :: YearValue(rows[j]) < YearValue(rows[i]))
  }

  /** Over finite years the pick is the earliest row carrying the greatest year. */
  lemma {:induction false} PickLatestSpec(rows: seq<Row>) returns (i: nat)
    requires rows != [] && AllFinite(rows)
    ensures FirstGreatest(rows, i) && PickLatest(rows) == Some(rows[i])
    decreases |rows|
  {
    var init, cur := rows[..|rows| - 1], rows[|rows| - 1];
    if init == [] {
      i := 0;
    } else {
      assert AllFinite(init) by {
        forall j | 0 <= j < |init| ensures IsFinite(init[j].year) { assert init[j] == rows[j]; }
      }
      var k := PickLatestSpec(init);
      assert IsFinite(cur.year) && IsFinite(init[k].year);
      FiniteComparisons(cur.year, init[k].year);
      if YearValue(cur) > YearValue(init[k]) {
        i := |rows| - 1;
        forall j | 0 <= j < |rows| ensures YearValue(rows[j]) <= YearValue(rows[i]) {
          if j < |init| { assert rows[j] == init[j]; }
        }
        forall j | 0 <= j < i ensures YearValue(rows[j]) < YearValue(rows[i]) {
          assert rows[j] == init[j];
        }
      } else {
        i := k;
        assert rows[i] == init[k];
        forall j | 0 <= j < |rows| ensures YearValue(rows[j]) <= YearValue(rows[i]) {
          if j < |init| { assert rows[j] == init[j]; }
        }
        forall j | 0 <= j < i ensures YearValue(rows[j]) < YearValue(rows[i]) {
          assert rows[j] == init[j];
        }
      }
    }
  }

  // ---------------------------------------------------------------- year tabs

  /** `rows.find(r => r.year === y)`. */
  function FindYear(rows: seq<Row>, y: Number): (r: Option<Row>)
    ensures r.Some? ==> r.value in rows && StrictEquals(r.value.year, y)
    ensures r.None? <==> forall i | 0 <= i < |rows| :: !StrictEquals(rows[i].year, y)
    decreases |rows|
  {
    if rows == [] then None
    else if StrictEquals(rows[0].year, y) then Some(rows[0])
    else
      assert forall i | 1 <= i < |rows| :: rows[i] == rows[1..][i - 1];
      FindYear(rows[1..], y)
  }

  /** The find returns the first matching row. */
  lemma {:induction false} FindYearFirst(rows: seq<Row>, y: Number, i: nat)
    requires i < |rows| && StrictEquals(rows[i].year, y)
    requires forall j | 0 <= j < i :: !StrictEquals(rows[j].year, y)
    ensures FindYear(rows, y) == Some(rows[i])
    decreases i
  {
    if i > 0 {
      assert forall j | 0 <= j < i - 1 :: rows[1..][j] == rows[j + 1];
      FindYearFirst(rows[1..], y, i - 1);
    }
  }

  /** A year button: its label and `data-year` are `String(year)`, which reads back as the
      same number; `active` is the "is-active" class and `pressed` is `aria-pressed`. */
  datatype Tab = Tab(year: Number, active: bool, pressed: bool)

  /** One button of the `forEach` in `selectYear`. */
  function Toggled(t: Tab, y: Number): Tab {
    var hit := StrictEquals(t.year, y);
    t.(active := hit, pressed := hit)
  }

  /** The buttons after `selectYear` found a row for `y`: exactly those of year `y` are
      active, and `aria-pressed` agrees with the class. */
  function Selected(tabs: seq<Tab>, y: Number): (r: seq<Tab>)
    ensures |r| == |tabs|
    ensures forall i | 0 <= i < |r| :: r[i].year == tabs[i].year
    ensures forall i | 0 <= i < |r| :: (r[i].active <==> StrictEquals(tabs[i].year, y)) && r[i].pressed == r[i].active
  {
    seq(|tabs|, i requires 0 <= i < |tabs| => Toggled(tabs[i], y))
  }

  /** The buttons `buildYearTabs` leaves: one per row, in descending year order; only the
      first is active, once `selectYear` finds a row for its year. */
  function YearTabs(rows: seq<Row>): (tabs: seq<Tab>)
    ensures |tabs| == |rows|
    ensures forall i | 0 <= i < |tabs| :: tabs[i].year == Seqs.Sort(rows, DescendingYear())[i].year
  {
    var sorted := Seqs.Sort(rows, DescendingYear());
    TabsFor(sorted, sorted != [] && FindYear(rows, sorted[0].year).Some?)
  }

  /** A fresh button per row of `sorted`, the first active when `first`. */
  function TabsFor(sorted: seq<Row>, first: bool): (tabs: seq<Tab>)
    ensures |tabs| == |sorted|
    ensures forall i | 0 <= i < |tabs| :: tabs[i] == Tab(sorted[i].year, i == 0 && first, i == 0 && first)
  {
    seq(|sorted|, i requires 0 <= i < |sorted| => Tab(sorted[i].year, i == 0 && first, i == 0 && first))
  }

  /** The row the year detail shows after `buildYearTabs`. */
  function DefaultDetail(rows: seq<Row>): Option<Row> {
    var sorted := Seqs.Sort(rows, DescendingYear());
    if sorted == [] then None else FindYear(rows, sorted[0].year)
  }

  /** The `forEach` of `selectYear` over the buttons. */
  method ToggleTabs(tabs: seq<Tab>, y: Number) returns (r: seq<Tab>)
    ensures r == Selected(tabs, y)
  {
    r := tabs;
    var i := 0;
    while i < |r|
      invariant 0 <= i <= |r| == |tabs|
      invariant forall k | 0 <= k < i :: r[k] == Toggled(tabs[k], y)
      invariant forall k | i <= k < |r| :: r[k] == tabs[k]
    {
      r := r[i := Toggled(r[i], y)];
      i := i + 1;
    }
  }

  /** `selectYear(rows, y)` on the buttons `tabs`: nothing changes when no row has year
      `y`; otherwise the buttons are toggled and the detail shows the found row. */
  method SelectIn(rows: seq<Row>, tabs: seq<Tab>, y: Number) returns (r: seq<Tab>, shown: Option<Row>)
    ensures FindYear(rows, y).None? ==> r == tabs && shown == None
    ensures FindYear(rows, y).Some? ==> r == Selected(tabs, y) && shown == FindYear(rows, y)
  {
    var row := FindYear(rows, y);
    if row.None? {
      return tabs, None;
    }
    r := ToggleTabs(tabs, y);
    shown := row;
  }

  /** `selectYear` on the single button just appended. */
  method SelectFirst(rows: seq<Row>, tabs: seq<Tab>) returns (r: seq<Tab>, shown: Option<Row>)
    requires |tabs| == 1 && !tabs[0].active && !tabs[0].pressed
    ensures var found := FindYear(rows, tabs[0].year);
      r == [Tab(tabs[0].year, found.Some?, found.Some?)] && shown == found
  {
    r, shown := SelectIn(rows, tabs, tabs[0].year);
  }

  /** `buildYearTabs`: the buttons are appended one by one in descending year order, and
      `selectYear` runs right after the first is appended, so it toggles that one only. */
  method BuildYearTabs(rows: seq<Row>) returns (tabs: seq<Tab>, detail: Option<Row>)
    ensures tabs == YearTabs(rows)
    ensures detail == DefaultDetail(rows)
  {
    var sorted := Seqs.Sort(rows, DescendingYear());
    tabs, detail := AppendTabs(rows, sorted);
  }

  /** The loop of `buildYearTabs` over the rows in the order they are shown. */
  method AppendTabs(rows: seq<Row>, sorted: seq<Row>) returns (tabs: seq<Tab>, detail: Option<Row>)
    ensures tabs == TabsFor(sorted, sorted != [] && FindYear(rows, sorted[0].year).Some?)
    ensures detail == if sorted == [] then None else FindYear(rows, sorted[0].year)
  {
    var found := if sorted == [] then None else FindYear(rows, sorted[0].year);
    var first := found.Some?;
    tabs, detail := [], None;
    var i := 0;
    while i < |sorted|
      invariant 0 <= i <= |sorted| && |tabs| == i
      invariant forall k | 0 <= k < i :: tabs[k] == Tab(sorted[k].year, k == 0 && first, k == 0 && first)
      invariant detail == if i == 0 then None else found
    {
      tabs := tabs + [Tab(sorted[i].year, false, false)];
      if i == 0 {
        tabs, detail := SelectFirst(rows, tabs);
      }
      i := i + 1;
    }
    assert tabs == TabsFor(sorted, first);
  }

  /** Valid rows sorted by descending year are still valid rows of the input. */
  lemma SortedDescending(rows: seq<Row>)
    requires forall i | 0 <= i < |rows| :: ValidYear(rows[i])
    ensures Seqs.Sorted(Seqs.Sort(rows, DescendingYear()), DescendingYear())
    ensures forall i | 0 <= i < |Seqs.Sort(rows, DescendingYear())| ::
      Seqs.Sort(rows, DescendingYear())[i] in rows && ValidYear(Seqs.Sort(rows, DescendingYear())[i])
    ensures forall r | r in rows :: r in Seqs.Sort(rows, DescendingYear())
  {
    var sorted := Seqs.Sort(rows, DescendingYear());
    YearOrdersArePreorders();
    Seqs.SortSorted(rows, DescendingYear());
    Seqs.PermutationElements(rows, sorted);
    forall i | 0 <= i < |sorted| ensures sorted[i] in rows && ValidYear(sorted[i]) {
      assert sorted[i] in sorted;
    }
  }

  /** Over valid rows the tabs carry finite years in descending order. */
  lemma YearTabsDescending(rows: seq<Row>)
    requires forall i | 0 <= i < |rows| :: ValidYear(rows[i])
    ensures forall i | 0 <= i < |YearTabs(rows)| :: IsFinite(YearTabs(rows)[i].year)
    ensures forall i, j | 0 <= i < j < |YearTabs(rows)| ::
      IsFinite(YearTabs(rows)[i].year) && IsFinite(YearTabs(rows)[j].year)
      && YearTabs(rows)[i].year.value >= YearTabs(rows)[j].year.value
  {
    var sorted := Seqs.Sort(rows, DescendingYear());
    var tabs := YearTabs(rows);
    SortedDescending(rows);
    forall i, j | 0 <= i < j < |tabs| ensures tabs[i].year.value >= tabs[j].year.value {
      assert DescendingYear()(sorted[i], sorted[j]);
    }
  }

  /** Over valid rows exactly the first tab, of the greatest year, is active, and
      `aria-pressed` agrees. */
  lemma YearTabsActive(rows: seq<Row>)
    requires rows != [] && forall i | 0 <= i < |rows| :: ValidYear(rows[i])
    ensures forall i | 0 <= i < |YearTabs(rows)| ::
      (YearTabs(rows)[i].active <==> i == 0) && YearTabs(rows)[i].pressed == YearTabs(rows)[i].active
  {
    var sorted := Seqs.Sort(rows, DescendingYear());
    SortedDescending(rows);
    assert sorted[0] in rows && StrictEquals(sorted[0].year, sorted[0].year);
    assert FindYear(rows, sorted[0].year).Some?;
  }

  /** Every tab carries the year of some row. */
  lemma TabsFromRows(rows: seq<Row>)
    ensures forall i | 0 <= i < |YearTabs(rows)| :: exists r | r in rows :: r.year == YearTabs(rows)[i].year
  {
    var sorted := Seqs.Sort(rows, DescendingYear());
    var tabs := YearTabs(rows);
    forall i | 0 <= i < |tabs| ensures exists r | r in rows :: r.year == tabs[i].year {
      assert sorted[i] in multiset(rows);
      assert sorted[i].year == tabs[i].year;
    }
  }

  /** Every row's year has a tab. */
  lemma RowsHaveTabs(rows: seq<Row>)
    ensures forall r | r in rows :: exists i | 0 <= i < |YearTabs(rows)| :: YearTabs(rows)[i].year == r.year
  {
    var sorted := Seqs.Sort(rows, DescendingYear());
    var tabs := YearTabs(rows);
    forall r | r in rows ensures exists i | 0 <= i < |tabs| :: tabs[i].year == r.year {
      assert r in multiset(sorted);
      var i :| 0 <= i < |sorted| && sorted[i] == r;
      assert tabs[i].year == r.year;
    }
  }

  /** The first row in descending order has the greatest year. */
  lemma HeadHasGreatestYear(rows: seq<Row>)
    requires rows != [] && forall i | 0 <= i < |rows| :: ValidYear(rows[i])
    ensures Seqs.Sort(rows, DescendingYear())[0] in rows
    ensures ValidYear(Seqs.Sort(rows, DescendingYear())[0])
    ensures forall j | 0 <= j < |rows| :: YearValue(rows[j]) <= YearValue(Seqs.Sort(rows, DescendingYear())[0])
  {
    var sorted := Seqs.Sort(rows, DescendingYear());
    SortedDescending(rows);
    forall j | 0 <= j < |rows| ensures YearValue(rows[j]) <= YearValue(sorted[0]) {
      assert rows[j] in sorted;
      var n :| 0 <= n < |sorted| && sorted[n] == rows[j];
      if n > 0 {
        assert DescendingYear()(sorted[0], sorted[n]);
      }
    }
  }

  /** Looking up the greatest year finds its first row. */
  lemma FindGreatest(rows: seq<Row>, i: nat, y: Number)
    requires AllFinite(rows) && FirstGreatest(rows, i)
    requires IsFinite(y) && y.value == YearValue(rows[i])
    ensures FindYear(rows, y) == Some(rows[i])
  {
    assert StrictEquals(rows[i].year, y);
    forall j | 0 <= j < i ensures !StrictEquals(rows[j].year, y) {
      assert YearValue(rows[j]) < YearValue(rows[i]);
    }
    FindYearFirst(rows, y, i);
  }

  /** The detail the tabs open on is the row `pickLatestYear` picks. */
  lemma DefaultDetailIsLatest(rows: seq<Row>)
    requires rows != [] && forall i | 0 <= i < |rows| :: ValidYear(rows[i])
    ensures DefaultDetail(rows) == PickLatest(rows)
  {
    var sorted := Seqs.Sort(rows, DescendingYear());
    assert AllFinite(rows);
    var i := PickLatestSpec(rows);
    HeadHasGreatestYear(rows);
    var m :| 0 <= m < |rows| && rows[m] == sorted[0];
    assert YearValue(sorted[0]) == YearValue(rows[i]);
    FindGreatest(rows, i, sorted[0].year);
  }

  // ---------------------------------------------------------------- metrics and chart

  datatype MetricKind = Participants | Applications | Speakers | Capital

  /** `METRICS[key] || METRICS.participants`. */
  function MetricFor(key: String): (m: MetricKind)
    ensures key == "participants" ==> m == Participants
  {
    if key == "applications" then Applications
    else if key == "speakers" then Speakers
    else if key == "speaker_capital_bln_rub" then Capital
    else Participants
  }

  /** The property names of a normalised row object. */
  predicate IsRowKey(key: String) {
    key in {"year", "participants", "applications", "speakers", "speaker_capital_bln_rub", "partners", "notes"}
  }

  /** A property of a normalised row object. */
  function RowField(r: Row, key: String): (v: JsValue)
    ensures !IsRowKey(key) ==> v == Undefined
  {
    if key == "year" then Num(r.year)
    else if key == "participants" then Num(r.participants)
    else if key == "applications" then Num(r.applications)
    else if key == "speakers" then Num(r.speakers)
    else if key == "speaker_capital_bln_rub" then Num(r.capital)
    else if key == "partners" then Num(r.partners)
    else if key == "notes" then Str(r.notes)
    else Undefined
  }

  /** The values `renderChart(rows, key)` plots, one per row: `Number(r[key]) || 0` of the
      raw key, while the caption is that of `MetricFor(key)`. The geometry is not
      modelled. */
  function ChartValues(rt: Runtime, rows: seq<Row>, key: String): (values: seq<Number>)
    ensures |values| == |rows|
  {
    seq(|rows|, i requires 0 <= i < |rows| => OrZero(ToNumber(rt, RowField(rows[i], key))))
  }

  /** A known metric key plots that metric of every row; a key no row carries plots zeros
      under the participants caption. */
  lemma ChartSeries(rt: Runtime, rows: seq<Row>, key: String)
    requires forall i | 0 <= i < |rows| :: MetricsSet(rows[i])
    ensures key == "participants" ==> forall i | 0 <= i < |rows| ::
      ChartValues(rt, rows, key)[i] == rows[i].participants
    ensures key == "speaker_capital_bln_rub" ==> forall i | 0 <= i < |rows| ::
      ChartValues(rt, rows, key)[i] == rows[i].capital
    ensures !IsRowKey(key) ==> MetricFor(key) == Participants
    ensures !IsRowKey(key) ==> forall i | 0 <= i < |rows| :: ChartValues(rt, rows, key)[i] == Finite(0.0)
  {
  }

  /** A metric button: `metric` is its `data-metric`, `active` the class, `pressed`
      `aria-pressed`. */
  datatype MetricButton = MetricButton(metric: String, active: bool, pressed: bool)

  /** The buttons after `setActiveMetric(key)`: exactly those for `key` are active. */
  function Activated(buttons: seq<MetricButton>, key: String): (r: seq<MetricButton>)
    ensures |r| == |buttons|
    ensures forall i | 0 <= i < |r| :: r[i].metric == buttons[i].metric
    ensures forall i | 0 <= i < |r| :: (r[i].active <==> buttons[i].metric == key) && r[i].pressed == r[i].active
  {
    seq(|buttons|, i requires 0 <= i < |buttons| =>
      buttons[i].(active := buttons[i].metric == key, pressed := buttons[i].metric == key))
  }

  /** The `forEach` of `setActiveMetric`. */
  method ToggleMetrics(buttons: seq<MetricButton>, key: String) returns (r: seq<MetricButton>)
    ensures r == Activated(buttons, key)
  {
    r := buttons;
    var i := 0;
    while i < |r|
      invariant 0 <= i <= |r| == |buttons|
      invariant forall k | 0 <= k < i :: r[k] == buttons[k].(active := buttons[k].metric == key, pressed := buttons[k].metric == key)
      invariant forall k | i <= k < |r| :: r[k] == buttons[k]
    {
      var hit := r[i].metric == key;
      r := r[i := r[i].(active := hit, pressed := hit)];
      i := i + 1;
    }
  }

  /** The key a click on a button passes: its `data-metric`, or participants when empty. */
  function ClickedKey(b: MetricButton): (key: String)
    ensures key != ""
    ensures b.metric != "" ==> key == b.metric
  {
    if b.metric != "" then b.metric else "participants"
  }

  // ---------------------------------------------------------------- counts line

  const DemoNotice: String := "⚠️ Данные демонстрационные. "
  const SourceNotice: String := "Источник данных: " + DataUrl

  /** `payload && payload.is_demo`, as a condition. */
  predicate IsDemo(payload: JsValue) {
    Truthy(payload) && Get(payload, "is_demo").Some? && Truthy(Get(payload, "is_demo").value)
  }

  /** The year clause, present when there is a latest row with a truthy year. */
  function YearClause(rt: Runtime, latest: Option<Row>): (s: String)
    ensures latest.None? ==> s == ""
  {
    if latest.Some? && Truthy(Num(latest.value.year)) then
      "Текущий акцент: " + rt.numberText(latest.value.year) + " год. "
    else ""
  }

  /** What `updateMeta` is given: whether the payload is a demo and the latest row. */
  datatype Meta = Meta(demo: bool, latest: Option<Row>)

  /** The text `updateMeta` writes. */
  function MetaText(rt: Runtime, m: Meta): (t: String)
    ensures IsSuffix(SourceNotice, t)
    ensures m.demo ==> IsPrefix(DemoNotice, t)
    ensures !m.demo ==> IsPrefix(YearClause(rt, m.latest), t)
  {
    (if m.demo then DemoNotice else "") + YearClause(rt, m.latest) + SourceNotice
  }

  /** The first letters of the three parts of the counts line differ. */
  lemma LeadingLetters(rt: Runtime, latest: Option<Row>)
    ensures |DemoNotice| > 0 && DemoNotice[0] == '⚠'
    ensures |SourceNotice| > 0 && SourceNotice[0] == 'И'
    ensures YearClause(rt, latest) != "" ==> YearClause(rt, latest)[0] == 'Т'
    ensures latest.Some? && ValidYear(latest.value) ==> YearClause(rt, latest) != ""
  {
  }

  /** The demo warning leads the line only for a demo payload, and without a latest row
      the line is the source notice alone. */
  lemma MetaTextCases(rt: Runtime, demo: bool, latest: Option<Row>)
    ensures IsPrefix(DemoNotice, MetaText(rt, Meta(demo, latest))) <==> demo
    ensures !demo && latest.None? ==> MetaText(rt, Meta(demo, latest)) == SourceNotice
    ensures latest.Some? && ValidYear(latest.value) ==>
      Contains(MetaText(rt, Meta(demo, latest)), YearClause(rt, latest)) && YearClause(rt, latest) != ""
  {
    var pre := if demo then DemoNotice else "";
    var clause := YearClause(rt, latest);
    var t := pre + clause + SourceNotice;
    assert MetaText(rt, Meta(demo, latest)) == t;
    LeadingLetters(rt, latest);
    if !demo {
      assert t[0] != DemoNotice[0] by {
        if clause != [] {
          assert t[0] == clause[0];
        } else {
          assert t[0] == SourceNotice[0];
        }
      }
    }
    if latest.Some? && ValidYear(latest.value) {
      ContainsAt(t, clause, |pre|);
    }
  }

  // ---------------------------------------------------------------- the page

  /** The normalised rows of a fetched payload, `None` when `load` ends in its error path
      (the request or the JSON parse failed, or the normalisation threw). */
  function Outcome(rt: Runtime, payload: Option<JsValue>): (n: Option<seq<Row>>)
    ensures payload.None? ==> n.None?
    ensures payload.Some? ==> n == Normalize(rt, payload.value)
  {
    if payload.Some? then Normalize(rt, payload.value) else None
  }

  /** The metric the chart opens on. */
  const DefaultMetric: String := "participants"

  /** What the page shows besides the rows and the error text: the row of the counters,
      the year tabs, the row of the year detail, the metric buttons, the key the chart
      was last drawn for and what the counts line was written from. */
  datatype View = View(
    stats: Option<Row>, tabs: seq<Tab>, detail: Option<Row>, buttons: seq<MetricButton>,
    chartKey: Option<String>, meta: Option<Meta>)

  /** What a successful `load` draws from the normalised rows `n`: the counters from the
      latest row, the year tabs, the participants chart with its buttons and the counts
      line. */
  function Drawing(payload: JsValue, n: seq<Row>, before: seq<MetricButton>): View {
    View(PickLatest(n), YearTabs(n), DefaultDetail(n), Activated(before, DefaultMetric),
         Some(DefaultMetric), Some(Meta(IsDemo(payload), PickLatest(n))))
  }

  /** The drawing steps of a successful `load` on the rows `n`, with the metric buttons
      as they were before. */
  method Render(payload: JsValue, n: seq<Row>, before: seq<MetricButton>) returns (v: View)
    ensures v == Drawing(payload, n, before)
  {
    var stats := PickLatest(n);
    var tabs, detail := BuildYearTabs(n);
    var buttons := ToggleMetrics(before, DefaultMetric);
    v := View(stats, tabs, detail, buttons, Some(DefaultMetric), Some(Meta(IsDemo(payload), stats)));
  }

  class ForumPage {
    const rt: Runtime
    /** The normalised rows the click handlers hold; empty before a successful load. */
    var rows: seq<Row>
    /** The row whose figures the counters show. */
    var stats: Option<Row>
    var tabs: seq<Tab>
    /** The row the year detail shows. */
    var detail: Option<Row>
    var metricButtons: seq<MetricButton>
    /** The key the chart was last drawn for from `rows`: its caption is that of
        `MetricFor(key)` and it plots `ChartValues(rt, rows, key)`. */
    var chartKey: Option<String>
    /** What the counts line was written from, `None` while it holds the page's initial
        text; its text is `MetaText(rt, meta.value)`. */
    var meta: Option<Meta>
    var error: String

    constructor(rt: Runtime, buttons: seq<MetricButton>)
      ensures this.rt == rt && metricButtons == buttons
      ensures rows == [] && stats == None && tabs == [] && detail == None
      ensures chartKey == None && meta == None && error == ""
    {
      this.rt := rt;
      metricButtons := buttons;
      rows, stats, tabs, detail, chartKey, meta, error := [], None, [], None, None, None, "";
    }

    /** `load` on the parsed payload, `None` when the request or the JSON parse failed: on
        failure only the error text changes; otherwise the counters, tabs, chart and
        counts line are drawn from the normalised rows. */
    method Load(payload: Option<JsValue>)
      modifies this
      ensures Outcome(rt, payload).None? ==>
        && error == LoadErrorText && rows == old(rows) && stats == old(stats)
        && tabs == old(tabs) && detail == old(detail) && metricButtons == old(metricButtons)
        && chartKey == old(chartKey) && meta == old(meta)
      ensures Outcome(rt, payload).Some? ==>
        && error == "" && rows == Outcome(rt, payload).value
        && View(stats, tabs, detail, metricButtons, chartKey, meta) == Drawing(payload.value, rows, old(metricButtons))
    {
      var n := Outcome(rt, payload);
      if n.None? {
        error := LoadErrorText;
        return;
      }
      Show(payload.value, n.value);
    }

    /** The rendering half of a successful `load`, in its order: the counters,
        `buildYearTabs`, `setActiveMetric("participants")` and the counts line. */
    method Show(payload: JsValue, n: seq<Row>)
      modifies this
      ensures error == "" && rows == n
      ensures View(stats, tabs, detail, metricButtons, chartKey, meta) == Drawing(payload, n, old(metricButtons))
    {
      var v := Render(payload, n, metricButtons);
      rows, error := n, "";
      stats, tabs, detail, metricButtons, chartKey, meta := v.stats, v.tabs, v.detail, v.buttons, v.chartKey, v.meta;
    }

    /** `setActiveMetric(key, rows)`: the buttons for `key` become active and the chart is
        redrawn for it. */
    method SetActiveMetric(key: String)
      modifies this`metricButtons, this`chartKey
      ensures metricButtons == Activated(old(metricButtons), key)
      ensures chartKey == Some(key)
    {
      var buttons := ToggleMetrics(metricButtons, key);
      metricButtons, chartKey := buttons, Some(key);
    }

    /** `selectYear(rows, y)`. */
    method SelectYear(y: Number)
      modifies this`tabs, this`detail
      ensures FindYear(rows, y).None? ==> tabs == old(tabs) && detail == old(detail)
      ensures FindYear(rows, y).Some? ==> tabs == Selected(old(tabs), y) && detail == FindYear(rows, y)
    {
      var newTabs, shown := SelectIn(rows, tabs, y);
      if shown.Some? {
        tabs, detail := newTabs, shown;
      }
    }

    /** A click on year tab `i`. */
    method ClickTab(i: nat)
      requires i < |tabs|
      modifies this`tabs, this`detail
      ensures FindYear(rows, old(tabs[i].year)).None? ==> tabs == old(tabs) && detail == old(detail)
      ensures FindYear(rows, old(tabs[i].year)).Some? ==>
        tabs == Selected(old(tabs), old(tabs[i].year)) && detail == FindYear(rows, old(tabs[i].year))
    {
      SelectYear(tabs[i].year);
    }

    /** A click on metric button `i`, once `load` has attached the handlers:
        `setActiveMetric(btn.dataset.metric || "participants", rows)`. */
    method ClickMetric(i: nat)
      requires i < |metricButtons|
      modifies this`metricButtons, this`chartKey
      ensures rows == [] ==> metricButtons == old(metricButtons) && chartKey == old(chartKey)
      ensures rows != [] ==>
        && metricButtons == Activated(old(metricButtons), ClickedKey(old(metricButtons[i])))
        && chartKey == Some(ClickedKey(old(metricButtons[i])))
    {
      if rows != [] {
        SetActiveMetric(ClickedKey(metricButtons[i]));
      }
    }
  }

  /** After a successful load the year detail and the counters show the same row, the
      latest one, and the first tab is the only active one. */
  lemma LoadedDetailIsLatest(rt: Runtime, payload: JsValue)
    requires Normalize(rt, payload).Some?
    ensures DefaultDetail(Normalize(rt, payload).value) == PickLatest(Normalize(rt, payload).value)
    ensures forall i | 0 <= i < |YearTabs(Normalize(rt, payload).value)| ::
      YearTabs(Normalize(rt, payload).value)[i].active <==> i == 0
  {
    NormalizeSpec(rt, payload);
    DefaultDetailIsLatest(Normalize(rt, payload).value);
    YearTabsActive(Normalize(rt, payload).value);
  }
}
