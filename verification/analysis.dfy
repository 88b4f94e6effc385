/** The analysis step of question2_data_analysis (3_analysis.py): the cleaned table
    is loaded and checked, then summarised (price aggregates, average price of the
    most frequent categories, rating counts) and tested (IQR outliers, the
    significance rule of the correlation and of the Fiction/Nonfiction t-test). The
    p-values themselves come from a statistics library and are inputs here. */
module Analysis {
  import opened Outcomes
  import opened Seqs
  import Text
  import opened Cleaning
  import opened Stats

  /** The columns load_data insists on. */
  const RequiredColumns: set<string> := {"title", "price_gbp", "rating", "category", "availability"}

  /** One row kept for analysis: price and rating are numbers, the category is
      present. */
  datatype Item = Item(title: Value, price: real, rating: real, category: Value, availability: Value)

  /** What load_data gives: the error raised for absent columns, or the rows. */
  datatype Loaded = MissingColumns(missing: set<string>) | Table(items: seq<Item>)

  /** A row survives the reload when its price and rating parse as numbers and its
      category is present. */
  predicate Keep(r: Row) {
    ToNumeric(r.price).Num? && ToNumeric(r.rating).Num? && !r.category.Missing?
  }

  /** The row with its price and rating parsed. */
  function ItemOf(r: Row): Item
    requires Keep(r)
  {
    Item(r.title, ToNumeric(r.price).x, ToNumeric(r.rating).x, r.category, r.availability)
  }

  /** Rows that all survive, parsed one by one. */
  function Parse(kept: seq<Row>): (items: seq<Item>)
    requires forall i :: 0 <= i < |kept| ==> Keep(kept[i])
    ensures |items| == |kept| && forall i :: 0 <= i < |kept| ==> items[i] == ItemOf(kept[i])
  {
    seq(|kept|, i requires 0 <= i < |kept| => ItemOf(kept[i]))
  }

  lemma ParseConcat(a: seq<Row>, b: seq<Row>)
    requires forall i :: 0 <= i < |a| ==> Keep(a[i])
    requires forall i :: 0 <= i < |b| ==> Keep(b[i])
    ensures Parse(a + b) == Parse(a) + Parse(b)
  {
    assert forall i :: 0 <= i < |a + b| ==> Keep((a + b)[i]);
    forall i | 0 <= i < |a + b| ensures Parse(a + b)[i] == (Parse(a) + Parse(b))[i] {
      if i < |a| {
        assert (a + b)[i] == a[i];
      } else {
        assert (a + b)[i] == b[i - |a|];
      }
    }
  }

  /** to_numeric on price and rating followed by dropna on price, rating and
      category: one item per kept row, in row order. */
  function Items(rows: seq<Row>): (items: seq<Item>)
    ensures |items| == |Filter(rows, Keep)| <= |rows|
    ensures forall i :: 0 <= i < |items| ==>
      Filter(rows, Keep)[i] in rows && Keep(Filter(rows, Keep)[i]) && items[i] == ItemOf(Filter(rows, Keep)[i])
  {
    Parse(Filter(rows, Keep))
  }

  /** The load works block by block, so the kept rows stay in their order. */
  lemma ItemsConcat(a: seq<Row>, b: seq<Row>)
    ensures Items(a + b) == Items(a) + Items(b)
  {
    FilterConcat(a, b, Keep);
    ParseConcat(Filter(a, Keep), Filter(b, Keep));
  }

  /** A row whose price and rating parse and whose category is present is loaded. */
  lemma KeptRowLoaded(rows: seq<Row>, j: nat)
    requires j < |rows| && Keep(rows[j])
    ensures ItemOf(rows[j]) in Items(rows)
  {
    var kept := Filter(rows, Keep);
    assert rows[j] in kept;
    var i :| 0 <= i < |kept| && kept[i] == rows[j];
    assert Items(rows)[i] == ItemOf(rows[j]);
  }

  /** load_data: the required columns are checked first; when any is absent the
      error names exactly the absent ones, otherwise the rows are parsed and
      filtered. */
  function LoadData(columns: set<string>, rows: seq<Row>): (r: Loaded)
    ensures r.MissingColumns? <==> !(RequiredColumns <= columns)
    ensures r.MissingColumns? ==> r.missing == RequiredColumns - columns && r.missing != {}
    ensures r.Table? ==> r.items == Items(rows)
  {
    if RequiredColumns <= columns then Table(Items(rows))
    else
      var missing := RequiredColumns - columns;
      assert missing != {} by {
        var c :| c in RequiredColumns && c !in columns;
        assert c in missing;
      }
      MissingColumns(missing)
  }

  /** The price column. */
  function Prices(items: seq<Item>): (p: seq<real>)
    ensures |p| == |items| && forall i :: 0 <= i < |items| ==> p[i] == items[i].price
  {
    seq(|items|, i requires 0 <= i < |items| => items[i].price)
  }

  /** The rating column. */
  function Ratings(items: seq<Item>): (p: seq<real>)
    ensures |p| == |items| && forall i :: 0 <= i < |items| ==> p[i] == items[i].rating
  {
    seq(|items|, i requires 0 <= i < |items| => items[i].rating)
  }

  /** The printed price aggregates; std is the square root of `variance`. */
  datatype Summary = Summary(mean: real, median: real, mode: real, variance: Option<real>,
                             min: real, max: real, range: real)

  /** descriptive_stats on the prices: pandas gives NaN for an empty column, so an
      empty table has no summary. Mean and median lie between the minimum and the
      maximum, the range is their non-negative difference, and the mode is a price
      of highest count. */
  function Describe(items: seq<Item>): (d: Option<Summary>)
    ensures d.Some? <==> items != []
    ensures d.Some? ==>
      var s, p := d.value, Prices(items);
      && s.min in p && s.max in p
      && (forall i :: 0 <= i < |p| ==> s.min <= p[i] <= s.max)
      && s.min <= s.mean <= s.max && s.min <= s.median <= s.max
      && s.range == s.max - s.min >= 0.0
      && s.mode in p && (forall i :: 0 <= i < |p| ==> Count(p, p[i]) <= Count(p, s.mode))
      && (s.variance.Some? <==> |p| >= 2)
  {
    if items == [] then None
    else
      var p := Prices(items);
      Some(Summary(Mean(p), Median(p), Mode(p), SampleVariance(p), Min(p), Max(p), Range(p)))
  }

  /** value_counts().sort_index() on the ratings: ascending ratings, each with the
      number of rows holding it, the counts adding up to the number of rows. */
  function RatingCounts(items: seq<Item>): (t: Table)
    ensures KeysAscending(t) && Total(t) == |items|
    ensures forall i :: 0 <= i < |t| ==> t[i].0 in Ratings(items) && t[i].1 == Count(Ratings(items), t[i].0)
    ensures forall i :: 0 <= i < |items| ==> CountIn(t, items[i].rating) > 0
  {
    var r := Ratings(items);
    TallyCounts(r);
    assert forall i :: 0 <= i < |items| ==> items[i].rating == r[i];
    Tally(r)
  }

  /** A category with a number attached: its count of rows, or its average price. */
  type Entry = (Value, real)

  predicate NonIncreasing(s: seq<Entry>) {
    forall i, j :: 0 <= i < j < |s| ==> s[i].1 >= s[j].1
  }

  lemma NonIncreasingCons(h: Entry, rest: seq<Entry>)
    requires NonIncreasing(rest) && (rest != [] ==> h.1 >= rest[0].1)
    ensures NonIncreasing([h] + rest)
  {
    var r := [h] + rest;
    forall i, j | 0 <= i < j < |r| ensures r[i].1 >= r[j].1 {
      if i > 0 {
        assert r[i] == rest[i - 1] && r[j] == rest[j - 1];
      } else {
        assert r[j] == rest[j - 1];
      }
    }
  }

  /** The tail of a non-increasing list is non-increasing. */
  lemma NonIncreasingTail(s: seq<Entry>)
    requires NonIncreasing(s) && s != []
    ensures NonIncreasing(s[1..])
  {
    forall i, j | 0 <= i < j < |s[1..]| ensures s[1..][i].1 >= s[1..][j].1 {
      assert s[1..][i] == s[i + 1] && s[1..][j] == s[j + 1];
    }
  }

  /** x placed after every entry whose number is at least its own. */
  function InsertByValue(s: seq<Entry>, x: Entry): (r: seq<Entry>)
    requires NonIncreasing(s)
    ensures NonIncreasing(r) && multiset(r) == multiset(s) + multiset{x} && |r| == |s| + 1
    ensures r[0] == (if s == [] || x.1 > s[0].1 then x else s[0])
  {
    if s == [] then [x]
    else if x.1 > s[0].1 then
      NonIncreasingCons(x, s);
      [x] + s
    else
      NonIncreasingTail(s);
      var rest := InsertByValue(s[1..], x);
      ConsMultiset(s, rest, x);
      NonIncreasingCons(s[0], rest);
      [s[0]] + rest
  }

  /** sort_values(ascending=False): the entries by decreasing number, a permutation
      of the input; entries with equal numbers keep their order. */
  function SortByValueDesc(s: seq<Entry>): (r: seq<Entry>)
    ensures NonIncreasing(r) && multiset(r) == multiset(s) && |r| == |s|
  {
    if s == [] then []
    else
      var init := s[..|s| - 1];
      assert s == init + [s[|s| - 1]];
      InsertByValue(SortByValueDesc(init), s[|s| - 1])
  }

  /** The category column. */
  function Categories(items: seq<Item>): (c: seq<Value>)
    ensures |c| == |items| && forall i :: 0 <= i < |items| ==> c[i] == items[i].category
  {
    seq(|items|, i requires 0 <= i < |items| => items[i].category)
  }

  /** value_counts() on the categories: each distinct category, in order of first
      appearance, with its number of rows, then ordered by decreasing count. */
  function CategoryCounts(items: seq<Item>): (r: seq<Entry>)
    ensures NonIncreasing(r) && |r| == |Dedup(Categories(items))|
    ensures forall e :: e in multiset(r) <==> e.0 in Categories(items) && e.1 == Count(Categories(items), e.0) as real
  {
    var cats := Categories(items);
    var keys := Dedup(cats);
    var counted := seq(|keys|, i requires 0 <= i < |keys| => (keys[i], Count(cats, keys[i]) as real));
    forall e ensures e in multiset(counted) <==> e.0 in cats && e.1 == Count(cats, e.0) as real {
      if e.0 in cats && e.1 == Count(cats, e.0) as real {
        var i :| 0 <= i < |keys| && keys[i] == e.0;
        assert counted[i] == e;
      }
    }
    SortByValueDesc(counted)
  }

  /** The number of categories value_counts().head(5) keeps. */
  const TopCount: nat := 5

  /** value_counts().head(5): the most frequent categories with their counts. */
  function TopCategories(items: seq<Item>): (top: seq<Entry>)
    ensures |top| <= TopCount && |top| <= |CategoryCounts(items)|
    ensures |CategoryCounts(items)| > TopCount ==> |top| == TopCount
    ensures forall i :: 0 <= i < |top| ==> top[i] == CategoryCounts(items)[i]
  {
    var counts := CategoryCounts(items);
    if |counts| <= TopCount then counts else counts[..TopCount]
  }

  /** The head of the count table holds real categories with their own counts. */
  lemma TopCategoriesCounted(items: seq<Item>, i: nat)
    requires i < |TopCategories(items)|
    ensures var e := TopCategories(items)[i];
      e.0 in Categories(items) && e.1 == Count(Categories(items), e.0) as real
  {
    var counts := CategoryCounts(items);
    assert counts[i] in multiset(counts);
  }

  /** Every chosen category is a category of the table. */
  lemma TopInCategories(items: seq<Item>)
    ensures forall i :: 0 <= i < |TopCategories(items)| ==> TopCategories(items)[i].0 in Categories(items)
  {
    forall i | 0 <= i < |TopCategories(items)| ensures TopCategories(items)[i].0 in Categories(items) {
      TopCategoriesCounted(items, i);
    }
  }

  /** Every category left out of the five has no more rows than any chosen one. */
  lemma TopAreMostFrequent(items: seq<Item>, c: Value, i: nat)
    requires c in Categories(items) && i < |TopCategories(items)|
    requires forall k :: 0 <= k < |TopCategories(items)| ==> TopCategories(items)[k].0 != c
    ensures Count(Categories(items), c) as real <= TopCategories(items)[i].1
  {
    var counts, top := CategoryCounts(items), TopCategories(items);
    var e := (c, Count(Categories(items), c) as real);
    assert e in multiset(counts);
    var j :| 0 <= j < |counts| && counts[j] == e;
    forall k | 0 <= k < |top| ensures counts[k].0 != c {
      assert top[k] == counts[k];
    }
    assert i < j;
  }

  /** The rows of one category. */
  function InCategory(items: seq<Item>, c: Value): (r: seq<Item>)
    ensures forall i :: 0 <= i < |r| ==> r[i] in items && r[i].category == c
    ensures forall i :: 0 <= i < |items| && items[i].category == c ==> items[i] in r
  {
    Filter(items, (it: Item) => it.category == c)
  }

  /** groupby("category")["price_gbp"].mean() for a category that occurs: between
      the cheapest and the dearest book of the category. */
  function CategoryMean(items: seq<Item>, c: Value): (m: real)
    requires c in Categories(items)
    ensures var p := Prices(InCategory(items, c)); p != [] && Min(p) <= m <= Max(p)
  {
    var k := IndexOf(Categories(items), c);
    assert items[k] in InCategory(items, c);
    Mean(Prices(InCategory(items, c)))
  }

  /** The categories of a list of entries. */
  function Keys(s: seq<Entry>): (k: seq<Value>)
    ensures |k| == |s| && forall i :: 0 <= i < |s| ==> k[i] == s[i].0
  {
    seq(|s|, i requires 0 <= i < |s| => s[i].0)
  }

  /** The average price of each chosen category, in the order of the count table. */
  function TopAverages(items: seq<Item>): (r: seq<Entry>)
    ensures |r| == |TopCategories(items)|
    ensures forall i :: 0 <= i < |r| ==>
      (r[i].0 == TopCategories(items)[i].0 && r[i].0 in Categories(items) && r[i].1 == CategoryMean(items, r[i].0))
  {
    var top := TopCategories(items);
    TopInCategories(items);
    seq(|top|, i requires 0 <= i < |top| => (top[i].0, CategoryMean(items, top[i].0)))
  }

  /** Reordered entries name the same categories. */
  lemma SameKeys(s: seq<Entry>, t: seq<Entry>)
    requires multiset(s) == multiset(t)
    ensures forall c :: c in Keys(s) <==> c in Keys(t)
  {
    forall c | c in Keys(s) ensures c in Keys(t) {
      var i :| 0 <= i < |s| && Keys(s)[i] == c;
      assert s[i] in multiset(t);
      var j :| 0 <= j < |t| && t[j] == s[i];
      assert Keys(t)[j] == c;
    }
    forall c | c in Keys(t) ensures c in Keys(s) {
      var j :| 0 <= j < |t| && Keys(t)[j] == c;
      assert t[j] in multiset(s);
      var i :| 0 <= i < |s| && s[i] == t[j];
      assert Keys(s)[i] == c;
    }
  }

  /** The average-price table of descriptive_stats: at most five categories, the
      most frequent ones, each with its average price, dearest first. */
  function AveragePriceTable(items: seq<Item>): (r: seq<Entry>)
    ensures |r| == |TopCategories(items)| <= TopCount && NonIncreasing(r)
    ensures forall c :: c in Keys(r) <==> c in Keys(TopCategories(items))
    ensures forall i :: 0 <= i < |r| ==> r[i].0 in Categories(items) && r[i].1 == CategoryMean(items, r[i].0)
  {
    var avgs := TopAverages(items);
    var r := SortByValueDesc(avgs);
    SameKeys(avgs, r);
    assert Keys(avgs) == Keys(TopCategories(items));
    forall i | 0 <= i < |r| ensures r[i].0 in Categories(items) && r[i].1 == CategoryMean(items, r[i].0) {
      assert r[i] in multiset(avgs);
    }
    r
  }

  /** The quartiles and fences of iqr_outliers. */
  datatype Fences = Fences(q1: real, q3: real, iqr: real, lower: real, upper: real)

  /** The quartiles of the prices and the fences 1.5 IQR beyond them; pandas gives
      NaN quartiles for an empty column, modelled as no fences. */
  function IqrFences(prices: seq<real>): (f: Option<Fences>)
    ensures f.Some? <==> prices != []
    ensures f.Some? ==>
      var b := f.value;
      && b.q1 == Quantile(prices, 0.25) && b.q3 == Quantile(prices, 0.75)
      && b.iqr == b.q3 - b.q1 >= 0.0
      && b.lower == b.q1 - 1.5 * b.iqr && b.upper == b.q3 + 1.5 * b.iqr
      && Min(prices) <= b.q1 && b.q3 <= Max(prices)
      && b.lower <= b.q1 <= b.q3 <= b.upper
  {
    if prices == [] then None
    else
      var q1, q3 := Quantile(prices, 0.25), Quantile(prices, 0.75);
      QuantileMonotone(prices, 0.25, 0.75);
      var iqr := q3 - q1;
      Some(Fences(q1, q3, iqr, q1 - 1.5 * iqr, q3 + 1.5 * iqr))
  }

  /** A price beyond the fences. */
  predicate Outside(b: Fences, price: real) {
    price < b.lower || price > b.upper
  }

  /** iqr_outliers: the rows priced beyond the fences of the whole column, in row
      order; NaN fences select nothing. */
  function Outliers(items: seq<Item>): (r: seq<Item>)
    ensures |r| <= |items|
    ensures IqrFences(Prices(items)).None? ==> r == []
    ensures IqrFences(Prices(items)).Some? ==>
      var b := IqrFences(Prices(items)).value;
      && (forall i :: 0 <= i < |r| ==> r[i] in items && Outside(b, r[i].price))
      && (forall i :: 0 <= i < |items| && Outside(b, items[i].price) ==> items[i] in r)
  {
    match IqrFences(Prices(items))
    case None => []
    case Some(b) => Filter(items, (it: Item) => Outside(b, it.price))
  }

  /** The outliers keep their order: for any split of the rows, they are the
      outliers of the first part followed by those of the second, judged against
      the fences of the whole column. */
  lemma OutliersInOrder(a: seq<Item>, c: seq<Item>)
    requires a + c != []
    ensures var b := IqrFences(Prices(a + c)).value;
      Outliers(a + c) == Filter(a, (it: Item) => Outside(b, it.price)) + Filter(c, (it: Item) => Outside(b, it.price))
  {
    var b := IqrFences(Prices(a + c)).value;
    FilterConcat(a, c, (it: Item) => Outside(b, it.price));
  }

  /** No outlier is priced between the quartiles. */
  lemma OutliersOutsideQuartiles(items: seq<Item>)
    requires items != []
    ensures var b := IqrFences(Prices(items)).value;
      forall i :: 0 <= i < |Outliers(items)| ==> Outliers(items)[i].price < b.q1 || Outliers(items)[i].price > b.q3
  {
  }

  /** The significance level of both tests. */
  const Alpha: real := 0.05

  datatype Conclusion = Significant | NotSignificant

  /** The conclusion printed for the Pearson correlation from its p-value. */
  function PearsonConclusion(pValue: real): (c: Conclusion)
    ensures c == Significant <==> pValue < Alpha
  {
    if pValue < Alpha then Significant else NotSignificant
  }

  /** A smaller p-value never turns a significant result into a non-significant one. */
  lemma SmallerPStaysSignificant(p1: real, p2: real)
    requires p1 <= p2 && PearsonConclusion(p2) == Significant
    ensures PearsonConclusion(p1) == Significant
  {
  }

  /** The t-test groups. */
  datatype Group = Fiction | Nonfiction | OtherGroup

  /** The group of a category after astype(str).str.strip().str.lower(): only text
      that normalises to exactly "fiction" or "nonfiction" belongs to a group; a
      number's text never does. */
  function GroupOf(category: Value): (g: Group)
    ensures g == Fiction <==> category.Str? && Text.StripLower(category.s) == "fiction"
    ensures g == Nonfiction <==> category.Str? && Text.StripLower(category.s) == "nonfiction"
  {
    if category.Str? && Text.StripLower(category.s) == "fiction" then Fiction
    else if category.Str? && Text.StripLower(category.s) == "nonfiction" then Nonfiction
    else OtherGroup
  }

  /** The rows of one group, in row order. */
  function Members(items: seq<Item>, g: Group): (r: seq<Item>)
    ensures |r| <= |items|
    ensures forall i :: 0 <= i < |r| ==> r[i] in items && GroupOf(r[i].category) == g
    ensures forall i :: 0 <= i < |items| && GroupOf(items[i].category) == g ==> items[i] in r
  {
    Filter(items, (it: Item) => GroupOf(it.category) == g)
  }

  /** The prices of one group, in row order. */
  function Sample(items: seq<Item>, g: Group): (p: seq<real>)
    ensures |p| == |Members(items, g)|
  {
    Prices(Members(items, g))
  }

  /** The two groups never share a row, so their sizes add up to at most the
      number of rows. */
  lemma {:induction false} GroupsDisjoint(items: seq<Item>)
    ensures |Sample(items, Fiction)| + |Sample(items, Nonfiction)| <= |items|
    ensures forall i :: 0 <= i < |Members(items, Fiction)| ==> Members(items, Fiction)[i] !in Members(items, Nonfiction)
  {
    if items != [] {
      GroupsDisjoint(items[1..]);
      assert items == [items[0]] + items[1..];
    }
  }

  /** The outcome of the t-test step. */
  datatype TTest = TooFew(fictionSize: nat, nonfictionSize: nat) | Reject | FailToReject

  /** The t-test step given the p-value the library would report: skipped when a
      group has fewer than two rows, otherwise H0 is rejected exactly when p is
      below alpha. */
  function TTestStep(items: seq<Item>, pValue: real): (t: TTest)
    ensures t.TooFew? <==> |Sample(items, Fiction)| < 2 || |Sample(items, Nonfiction)| < 2
    ensures t.TooFew? ==> t.fictionSize == |Sample(items, Fiction)| && t.nonfictionSize == |Sample(items, Nonfiction)|
    ensures t == Reject <==> !t.TooFew? && pValue < Alpha
    ensures t == FailToReject <==> !t.TooFew? && pValue >= Alpha
  {
    var f, n := |Sample(items, Fiction)|, |Sample(items, Nonfiction)|;
    if f < 2 || n < 2 then TooFew(f, n)
    else if pValue < Alpha then Reject
    else FailToReject
  }

  /** With both groups large enough, the t-test concludes as the correlation rule
      would on the same p-value. */
  lemma TTestSharesRule(items: seq<Item>, pValue: real)
    requires !TTestStep(items, pValue).TooFew?
    ensures TTestStep(items, pValue) == Reject <==> PearsonConclusion(pValue) == Significant
  {
  }
}
