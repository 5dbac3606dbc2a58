/**
 * The grouping inside the `LineChartCategory` component: the month labels of
 * the x-axis and one line (dataset) per category, holding that category's
 * quantities in input order.
 */
module LineChartCategory {
  import opened Sequences

  /** One point of the monthly-by-category feed. */
  datatype DataPoint = DataPoint(month: string, category: string, totalQuantity: real)

  /** One line of the chart: its legend label (Chart.js `label`) and its y-values. */
  datatype Dataset = Dataset(name: string, data: seq<real>)

  /** What the chart is given: the x-axis labels and the lines. */
  datatype ChartData = ChartData(labels: seq<string>, datasets: seq<Dataset>)

  /** `data.map((item) => item.category)` */
  function CategoryNames(data: seq<DataPoint>): seq<string>
  {
    seq(|data|, i requires 0 <= i < |data| => data[i].category)
  }

  /** `data.map((item) => item.month)` */
  function MonthNames(data: seq<DataPoint>): seq<string>
  {
    seq(|data|, i requires 0 <= i < |data| => data[i].month)
  }

  /** `categories`: every category of the data, once each, in first-seen order. */
  function Categories(data: seq<DataPoint>): (categories: seq<string>)
    ensures NoDuplicates(categories)
    ensures forall c :: c in categories <==> exists i :: 0 <= i < |data| && data[i].category == c
  {
    var cs := CategoryNames(data);
    assert forall i :: 0 <= i < |data| ==> cs[i] == data[i].category;
    Distinct(cs)
  }

  /** `monthLabels`: every month of the data, once each, in first-seen order. */
  function MonthLabels(data: seq<DataPoint>): (labels: seq<string>)
    ensures NoDuplicates(labels)
    ensures forall m :: m in labels <==> exists i :: 0 <= i < |data| && data[i].month == m
  {
    var ms := MonthNames(data);
    assert forall i :: 0 <= i < |data| ==> ms[i] == data[i].month;
    Distinct(ms)
  }

  lemma CategoriesFirstSeenOrder(data: seq<DataPoint>, i: nat, j: nat)
    requires i < j < |Categories(data)|
    ensures var categories := Categories(data);
      IndexOf(CategoryNames(data), categories[i]) < IndexOf(CategoryNames(data), categories[j])
  {
    DistinctFirstSeenOrder(CategoryNames(data), i, j);
  }

  lemma MonthLabelsFirstSeenOrder(data: seq<DataPoint>, i: nat, j: nat)
    requires i < j < |MonthLabels(data)|
    ensures var labels := MonthLabels(data);
      IndexOf(MonthNames(data), labels[i]) < IndexOf(MonthNames(data), labels[j])
  {
    DistinctFirstSeenOrder(MonthNames(data), i, j);
  }

  /** Every pair of month labels is in first-seen order. */
  lemma MonthLabelsInOrder(data: seq<DataPoint>)
    ensures var labels := MonthLabels(data);
      forall i, j :: 0 <= i < j < |labels| ==> IndexOf(MonthNames(data), labels[i]) < IndexOf(MonthNames(data), labels[j])
  {
    var labels := MonthLabels(data);
    forall i, j | 0 <= i < j < |labels|
      ensures IndexOf(MonthNames(data), labels[i]) < IndexOf(MonthNames(data), labels[j])
    {
      MonthLabelsFirstSeenOrder(data, i, j);
    }
  }

  /** The positions of the items of one category. */
  ghost function ItemsOf(data: seq<DataPoint>, category: string): set<int>
  {
    set i | 0 <= i < |data| && data[i].category == category
  }

  /** One more item adds its own position to the positions of its category, and to no other. */
  lemma ItemsOfLast(data: seq<DataPoint>, category: string)
    requires |data| > 0
    ensures |ItemsOf(data, category)| ==
      |ItemsOf(data[..|data| - 1], category)| + (if data[|data| - 1].category == category then 1 else 0)
  {
    var n := |data|;
    var front := ItemsOf(data[..n - 1], category);
    assert ItemsOf(data, category) == front + (if data[n - 1].category == category then {n - 1} else {});
    assert n - 1 !in front;
  }

  /**
   * `categoryData`: `data.filter((item) => item.category === category).map((item) => item.totalQuantity)`.
   * Every value comes from an item of the category, every such item gives its
   * value, and there is one value per such item.
   */
  function CategoryData(data: seq<DataPoint>, category: string): (values: seq<real>)
    ensures |values| == |ItemsOf(data, category)|
    ensures forall v :: v in values ==> exists i :: 0 <= i < |data| && data[i].category == category && data[i].totalQuantity == v
    ensures forall i :: 0 <= i < |data| && data[i].category == category ==> data[i].totalQuantity in values
  {
    if |data| == 0 then
      assert ItemsOf(data, category) == {};
      []
    else
      var n := |data|;
      var front := data[..n - 1];
      ItemsOfLast(data, category);
      assert forall i :: 0 <= i < n - 1 ==> front[i] == data[i];
      CategoryData(front, category) + (if data[n - 1].category == category then [data[n - 1].totalQuantity] else [])
  }

  /** The values of a concatenation are those of each part, in order. */
  lemma {:induction false} CategoryDataAppend(a: seq<DataPoint>, b: seq<DataPoint>, category: string)
    ensures CategoryData(a + b, category) == CategoryData(a, category) + CategoryData(b, category)
    decreases |b|
  {
    if |b| == 0 {
      assert a + b == a;
    } else {
      var b' := b[..|b| - 1];
      assert (a + b)[..|a + b| - 1] == a + b';
      CategoryDataAppend(a, b', category);
    }
  }

  /** One dataset per category, labelled with it. */
  function Series(data: seq<DataPoint>, categories: seq<string>): (datasets: seq<Dataset>)
    ensures |datasets| == |categories|
  {
    seq(|categories|, i requires 0 <= i < |categories| => Dataset(categories[i], CategoryData(data, categories[i])))
  }

  /** A new item adds its value at the end of the dataset of its category, and changes no other dataset. */
  lemma SeriesAppendItem(data: seq<DataPoint>, x: DataPoint, categories: seq<string>)
    ensures forall i :: 0 <= i < |categories| ==>
      && Series(data + [x], categories)[i].name == Series(data, categories)[i].name
      && Series(data + [x], categories)[i].data ==
           Series(data, categories)[i].data + (if x.category == categories[i] then [x.totalQuantity] else [])
  {
    forall i | 0 <= i < |categories|
      ensures Series(data + [x], categories)[i].data ==
        Series(data, categories)[i].data + (if x.category == categories[i] then [x.totalQuantity] else [])
    {
      CategoryDataAppendItem(data, x, categories[i]);
    }
  }

  /**
   * The labels and datasets handed to the chart: the x-axis has every month of
   * the data once, and there is one line per category of the data, once each.
   */
  function BuildChart(data: seq<DataPoint>): (chart: ChartData)
    ensures NoDuplicates(chart.labels)
    ensures forall m :: m in chart.labels <==> exists i :: 0 <= i < |data| && data[i].month == m
    ensures forall m :: m in chart.labels ==> m in MonthNames(data)
    ensures forall i, j :: 0 <= i < j < |chart.labels| ==>
      IndexOf(MonthNames(data), chart.labels[i]) < IndexOf(MonthNames(data), chart.labels[j])
    ensures NoDuplicates(Names(chart.datasets))
    ensures forall c :: c in Names(chart.datasets) <==> exists i :: 0 <= i < |data| && data[i].category == c
  {
    var labels, datasets := MonthLabels(data), Series(data, Categories(data));
    assert Names(datasets) == Categories(data);
    MonthLabelsInOrder(data);
    ChartData(labels, datasets)
  }

  /** All datasets' values, one dataset after the other. */
  function AllValues(datasets: seq<Dataset>): seq<real>
  {
    if |datasets| == 0 then [] else AllValues(datasets[..|datasets| - 1]) + datasets[|datasets| - 1].data
  }

  /** The sum of the datasets' lengths. */
  function TotalLength(datasets: seq<Dataset>): nat
  {
    if |datasets| == 0 then 0 else TotalLength(datasets[..|datasets| - 1]) + |datasets[|datasets| - 1].data|
  }

  /** `data.map((item) => item.totalQuantity)` */
  function Quantities(data: seq<DataPoint>): seq<real>
  {
    seq(|data|, i requires 0 <= i < |data| => data[i].totalQuantity)
  }

  /** The datasets' lengths add up to the number of values they hold together. */
  lemma {:induction false} TotalLengthOfAllValues(datasets: seq<Dataset>)
    ensures TotalLength(datasets) == |AllValues(datasets)|
    decreases |datasets|
  {
    if |datasets| > 0 {
      TotalLengthOfAllValues(datasets[..|datasets| - 1]);
    }
  }

  lemma QuantitiesLast(data: seq<DataPoint>, x: DataPoint)
    ensures Quantities(data + [x]) == Quantities(data) + [x.totalQuantity]
  {
  }

  /** The values of the given categories, one category after the other. */
  function ValuesByCategory(data: seq<DataPoint>, categories: seq<string>): seq<real>
  {
    if |categories| == 0 then []
    else ValuesByCategory(data, categories[..|categories| - 1]) + CategoryData(data, categories[|categories| - 1])
  }

  /** The datasets hold the categories' values, in category order. */
  lemma {:induction false} AllValuesOfSeries(data: seq<DataPoint>, categories: seq<string>)
    ensures AllValues(Series(data, categories)) == ValuesByCategory(data, categories)
    decreases |categories|
  {
    if |categories| > 0 {
      var front := categories[..|categories| - 1];
      assert Series(data, categories)[..|categories| - 1] == Series(data, front);
      AllValuesOfSeries(data, front);
    }
  }

  lemma CategoryDataAppendItem(data: seq<DataPoint>, x: DataPoint, category: string)
    ensures CategoryData(data + [x], category) ==
      CategoryData(data, category) + (if x.category == category then [x.totalQuantity] else [])
  {
    assert (data + [x])[..|data|] == data;
  }

  /** How one more item changes the values of the listed categories, split at the last category. */
  lemma ValuesByCategoryLast(data: seq<DataPoint>, x: DataPoint, categories: seq<string>)
    requires |categories| > 0
    ensures var front, c := categories[..|categories| - 1], categories[|categories| - 1];
      && multiset(ValuesByCategory(data + [x], categories)) ==
           multiset(ValuesByCategory(data + [x], front)) + multiset(CategoryData(data, c)) +
           (if x.category == c then multiset{x.totalQuantity} else multiset{})
      && multiset(ValuesByCategory(data, categories)) ==
           multiset(ValuesByCategory(data, front)) + multiset(CategoryData(data, c))
  {
    CategoryDataAppendItem(data, x, categories[|categories| - 1]);
  }

  /** Bookkeeping for one more value that lands in at most one of two parts. */
  lemma AddToOneBucket<T>(now: multiset<T>, was: multiset<T>, nowFront: multiset<T>, wasFront: multiset<T>,
                          last: multiset<T>, v: T, inFront: bool, inLast: bool, inAll: bool)
    requires now == nowFront + last + (if inLast then multiset{v} else multiset{})
    requires was == wasFront + last
    requires nowFront == wasFront + (if inFront then multiset{v} else multiset{})
    requires inAll <==> inFront || inLast
    requires !(inFront && inLast)
    ensures now == was + (if inAll then multiset{v} else multiset{})
  {
  }

  /** A new item adds its value to the one category it belongs to, if that category is listed. */
  lemma {:induction false} ValuesByCategoryAppendItem(data: seq<DataPoint>, x: DataPoint, categories: seq<string>)
    requires NoDuplicates(categories)
    ensures multiset(ValuesByCategory(data + [x], categories)) ==
      multiset(ValuesByCategory(data, categories)) +
      (if x.category in categories then multiset{x.totalQuantity} else multiset{})
    decreases |categories|
  {
    if |categories| > 0 {
      var front, c := categories[..|categories| - 1], categories[|categories| - 1];
      ValuesByCategoryLast(data, x, categories);
      NoDuplicatesFront(categories);
      ValuesByCategoryAppendItem(data, x, front);
      InFrontOrLast(categories, x.category);
      AddToOneBucket(
        multiset(ValuesByCategory(data + [x], categories)), multiset(ValuesByCategory(data, categories)),
        multiset(ValuesByCategory(data + [x], front)), multiset(ValuesByCategory(data, front)),
        multiset(CategoryData(data, c)), x.totalQuantity,
        x.category in front, x.category == c, x.category in categories);
    }
  }

  /** Distinct categories that cover every item share out the items' values: each value once. */
  lemma {:induction false} ValuesPartition(data: seq<DataPoint>, categories: seq<string>)
    requires NoDuplicates(categories)
    requires forall i :: 0 <= i < |data| ==> data[i].category in categories
    ensures multiset(ValuesByCategory(data, categories)) == multiset(Quantities(data))
    decreases |data|
  {
    if |data| == 0 {
      NoValuesOfNoData(categories);
    } else {
      var n := |data|;
      var front, x := data[..n - 1], data[n - 1];
      assert data == front + [x];
      assert forall i :: 0 <= i < n - 1 ==> front[i] == data[i];
      ValuesPartition(front, categories);
      ValuesByCategoryAppendItem(front, x, categories);
      QuantitiesLast(front, x);
    }
  }

  /**
   * With distinct categories that cover every item, the datasets partition the
   * data: together they hold each item's value exactly once.
   */
  lemma SeriesPartition(data: seq<DataPoint>, categories: seq<string>)
    requires NoDuplicates(categories)
    requires forall i :: 0 <= i < |data| ==> data[i].category in categories
    ensures multiset(AllValues(Series(data, categories))) == multiset(Quantities(data))
  {
    AllValuesOfSeries(data, categories);
    ValuesPartition(data, categories);
  }

  lemma {:induction false} NoValuesOfNoData(categories: seq<string>)
    ensures ValuesByCategory([], categories) == []
    decreases |categories|
  {
    if |categories| > 0 {
      NoValuesOfNoData(categories[..|categories| - 1]);
    }
  }

  /** No item is dropped or counted twice: the datasets' lengths add up to the number of items. */
  lemma ChartPartitionsData(data: seq<DataPoint>)
    ensures multiset(AllValues(BuildChart(data).datasets)) == multiset(Quantities(data))
    ensures TotalLength(BuildChart(data).datasets) == |data|
  {
    var categories := Categories(data);
    forall i | 0 <= i < |data|
      ensures data[i].category in categories
    {
    }
    SeriesPartition(data, categories);
    TotalLengthOfAllValues(BuildChart(data).datasets);
    assert |multiset(AllValues(BuildChart(data).datasets))| == |AllValues(BuildChart(data).datasets)|;
  }

  /** The legend labels of the lines, in order. */
  function Names(datasets: seq<Dataset>): seq<string>
  {
    seq(|datasets|, i requires 0 <= i < |datasets| => datasets[i].name)
  }

  /**
   * The chart has one line per category of the data, lines are named after
   * their category in first-seen order, and each holds that category's values.
   */
  lemma ChartLines(data: seq<DataPoint>)
    ensures var datasets := BuildChart(data).datasets;
      && NoDuplicates(Names(datasets))
      && (forall c :: c in Names(datasets) <==> exists j :: 0 <= j < |data| && data[j].category == c)
      && (forall i, j :: 0 <= i < j < |datasets| ==>
            IndexOf(CategoryNames(data), datasets[i].name) < IndexOf(CategoryNames(data), datasets[j].name))
      && forall i :: 0 <= i < |datasets| ==> datasets[i].data == CategoryData(data, datasets[i].name)
  {
    var categories, datasets := Categories(data), BuildChart(data).datasets;
    assert Names(datasets) == categories;
    forall i, j | 0 <= i < j < |datasets|
      ensures IndexOf(CategoryNames(data), datasets[i].name) < IndexOf(CategoryNames(data), datasets[j].name)
    {
      CategoriesFirstSeenOrder(data, i, j);
    }
  }
}
