/**
 * The spending side: the amounts entered per category (an insertion-ordered
 * dictionary keyed "Category (Subcategory)"), their total, and the value of
 * each amount and of the total in the comparison year, scaled by the ratio
 * of that year's CPI to the latest CPI.
 */
module Spending {
  import opened CpiTypes
  import Series
  import Years

  /** A spending category and the subcategories its selector offers. */
  datatype Category = Category(name: string, subcategories: seq<string>)

  /**
   * The categories in the order their inputs are laid out: the first page
   * column holds Food and Transport, the second Housing and Clothing, the
   * third Education, Health and Electronics.
   */
  const Catalogue: seq<Category> := [
    Category("Food", ["Bag of Rice", "Bread", "Chicken", "Yam", "Beans"]),
    Category("Transport", ["Fuel", "Public Transport", "Taxi"]),
    Category("Housing", ["Rent", "Maintenance", "Mortgage"]),
    Category("Clothing", ["Casual Wear", "Formal Wear", "Shoes"]),
    Category("Education", ["Tuition", "Books", "Stationery"]),
    Category("Health", ["Drugs", "Hospital Bills", "Insurance"]),
    Category("Electronics", ["Phone", "Laptop", "TV", "Tablet"])
  ]

  /** What the two widgets of one category return: the chosen subcategory and the amount entered. */
  datatype Choice = Choice(subcategory: string, amount: real)

  /** The user's answers are ones the widgets can produce: a listed subcategory and an amount of at least 0. */
  predicate WidgetAnswers(choices: seq<Choice>) {
    |choices| == |Catalogue|
    && forall i :: 0 <= i < |choices| ==>
         choices[i].subcategory in Catalogue[i].subcategories && choices[i].amount >= 0.0
  }

  /** One dictionary entry: a label and the amount spent on it. */
  datatype Entry = Entry(key: string, amount: real)

  function Label(category: string, subcategory: string): string {
    category + " (" + subcategory + ")"
  }

  function Labels(d: seq<Entry>): (ls: seq<string>)
    ensures |ls| == |d| && forall i :: 0 <= i < |d| ==> ls[i] == d[i].key
  {
    seq(|d|, i requires 0 <= i < |d| => d[i].key)
  }

  function Amounts(d: seq<Entry>): (xs: seq<real>)
    ensures |xs| == |d| && forall i :: 0 <= i < |d| ==> xs[i] == d[i].amount
  {
    seq(|d|, i requires 0 <= i < |d| => d[i].amount)
  }

  predicate DistinctLabels(d: seq<Entry>) {
    forall i, j :: 0 <= i < j < |d| ==> d[i].key != d[j].key
  }

  /**
   * Dictionary assignment `d[k] = v` on an insertion-ordered dictionary: a
   * present key keeps its place and takes the new value, a new key goes last.
   */
  function Put(d: seq<Entry>, k: string, v: real): (r: seq<Entry>)
    requires DistinctLabels(d)
    ensures DistinctLabels(r)
    ensures k !in Labels(d) ==> r == d + [Entry(k, v)]
    ensures k in Labels(d) ==>
              (|r| == |d| && forall i :: 0 <= i < |d| ==> r[i] == if d[i].key == k then Entry(k, v) else d[i])
  {
    if d == [] then [Entry(k, v)]
    else if d[0].key == k then [Entry(k, v)] + d[1..]
    else [d[0]] + Put(d[1..], k, v)
  }

  /** The first two letters tell the categories apart, so no two of their labels coincide. */
  lemma LabelsOfCategoriesDiffer(i: int, j: int, si: string, sj: string)
    requires 0 <= i < j < |Catalogue|
    ensures Label(Catalogue[i].name, si) != Label(Catalogue[j].name, sj)
  {
    var li := Label(Catalogue[i].name, si);
    var lj := Label(Catalogue[j].name, sj);
    assert li[..2] == Catalogue[i].name[..2];
    assert lj[..2] == Catalogue[j].name[..2];
    assert Catalogue[0].name[..2] == "Fo";
    assert Catalogue[1].name[..2] == "Tr";
    assert Catalogue[2].name[..2] == "Ho";
    assert Catalogue[3].name[..2] == "Cl";
    assert Catalogue[4].name[..2] == "Ed";
    assert Catalogue[5].name[..2] == "He";
    assert Catalogue[6].name[..2] == "El";
  }

  /**
   * Builds the spending dictionary category by category, in layout order:
   * one entry per category, labelled "Category (Subcategory)", holding the
   * amount entered.
   */
  method CollectInputs(choices: seq<Choice>) returns (inputs: seq<Entry>)
    requires WidgetAnswers(choices)
    ensures |inputs| == |Catalogue|
    ensures forall i :: 0 <= i < |inputs| ==>
              inputs[i] == Entry(Label(Catalogue[i].name, choices[i].subcategory), choices[i].amount)
    ensures DistinctLabels(inputs)
    ensures forall i :: 0 <= i < |inputs| ==> inputs[i].amount >= 0.0
  {
    inputs := [];
    for i := 0 to |Catalogue|
      invariant |inputs| == i
      invariant forall k :: 0 <= k < i ==>
                  inputs[k] == Entry(Label(Catalogue[k].name, choices[k].subcategory), choices[k].amount)
      invariant DistinctLabels(inputs)
    {
      var category := Catalogue[i].name;
      var sub := choices[i].subcategory;
      var key := Label(category, sub);
      forall k | 0 <= k < i
        ensures Labels(inputs)[k] != key
      {
        LabelsOfCategoriesDiffer(k, i, choices[k].subcategory, sub);
      }
      inputs := Put(inputs, key, choices[i].amount);
    }
  }

  lemma {:induction false} SumNonNegative(xs: seq<real>)
    ensures (forall i :: 0 <= i < |xs| ==> xs[i] >= 0.0) ==> Sum(xs) >= 0.0
  {
    if xs != [] {
      SumNonNegative(xs[..|xs| - 1]);
    }
  }

  /** Today's total (`sum` of the dictionary's values): 0 for no entries, never negative for amounts of at least 0. */
  function Total(d: seq<Entry>): (t: real)
    ensures d == [] ==> t == 0.0
    ensures (forall i :: 0 <= i < |d| ==> d[i].amount >= 0.0) ==> t >= 0.0
  {
    SumNonNegative(Amounts(d));
    Sum(Amounts(d))
  }

  /** The value in the comparison year of `amount` spent today: scaled by past CPI over latest CPI. */
  function Convert(amount: real, pastCpi: real, latestCpi: real): (r: real)
    requires latestCpi != 0.0
    ensures r * latestCpi == amount * pastCpi
    ensures pastCpi == latestCpi ==> r == amount
    ensures amount >= 0.0 && pastCpi > 0.0 && latestCpi > 0.0 ==> r >= 0.0
  {
    amount * pastCpi / latestCpi
  }

  /** Converting forth and back between two nonzero CPIs returns the amount. */
  lemma ConvertRoundTrip(amount: real, a: real, b: real)
    requires a != 0.0 && b != 0.0
    ensures Convert(Convert(amount, a, b), b, a) == amount
  {
    var x := Convert(amount, a, b);
    assert x * b == amount * a;
    assert Convert(x, b, a) * a == x * b;
  }

  /** Converting a sum is summing the conversions. */
  lemma ConvertAdds(x: real, y: real, pastCpi: real, latestCpi: real)
    requires latestCpi != 0.0
    ensures Convert(x, pastCpi, latestCpi) + Convert(y, pastCpi, latestCpi) == Convert(x + y, pastCpi, latestCpi)
  {
    var cx, cy, cxy := Convert(x, pastCpi, latestCpi), Convert(y, pastCpi, latestCpi), Convert(x + y, pastCpi, latestCpi);
    assert (cx + cy) * latestCpi == cx * latestCpi + cy * latestCpi;
    assert (x + y) * pastCpi == x * pastCpi + y * pastCpi;
    assert (cx + cy - cxy) * latestCpi == 0.0;
  }

  /** The past value of every entry, position for position with the labels. */
  function PastValues(d: seq<Entry>, pastCpi: real, latestCpi: real): (vs: seq<real>)
    requires latestCpi != 0.0
    ensures |vs| == |d| == |Labels(d)|
    ensures forall i :: 0 <= i < |d| ==> vs[i] * latestCpi == d[i].amount * pastCpi
  {
    seq(|d|, i requires 0 <= i < |d| => Convert(d[i].amount, pastCpi, latestCpi))
  }

  /** The per-category past values add up to the past value of the total. */
  lemma {:induction false} PastValuesSumToTotalPast(d: seq<Entry>, pastCpi: real, latestCpi: real)
    requires latestCpi != 0.0
    ensures Sum(PastValues(d, pastCpi, latestCpi)) == Convert(Total(d), pastCpi, latestCpi)
  {
    if d != [] {
      var init := d[..|d| - 1];
      PastValuesSumToTotalPast(init, pastCpi, latestCpi);
      var vs := PastValues(d, pastCpi, latestCpi);
      assert vs[..|vs| - 1] == PastValues(init, pastCpi, latestCpi);
      assert Amounts(d)[..|d| - 1] == Amounts(init);
      var a := d[|d| - 1].amount;
      assert Total(d) == Total(init) + a;
      assert Sum(vs) == Convert(Total(init), pastCpi, latestCpi) + Convert(a, pastCpi, latestCpi);
      ConvertAdds(Total(init), a, pastCpi, latestCpi);
    }
  }

  /** The outcome of one prediction. */
  datatype Comparison = Comparison(
    latestCpi: real,
    pastCpi: real,
    totalToday: real,
    totalPast: real,
    labels: seq<string>,
    pastValues: seq<real>)

  /**
   * The prediction for one set of entries: today's total and its past value,
   * and the past value of every entry next to its label.
   */
  function Predict(inputs: seq<Entry>, pastCpi: real, latestCpi: real): (c: Comparison)
    requires latestCpi != 0.0
    ensures c.latestCpi == latestCpi && c.pastCpi == pastCpi && c.totalToday == Total(inputs)
    ensures c.totalPast * latestCpi == c.totalToday * pastCpi
    ensures Sum(c.pastValues) == c.totalPast
    ensures c.labels == Labels(inputs) && |c.pastValues| == |inputs|
    ensures forall i :: 0 <= i < |inputs| ==> c.pastValues[i] * latestCpi == inputs[i].amount * pastCpi
    ensures (forall i :: 0 <= i < |inputs| ==> inputs[i].amount >= 0.0) && pastCpi > 0.0 && latestCpi > 0.0
            ==> c.totalToday >= 0.0 && c.totalPast >= 0.0
  {
    var totalToday := Total(inputs);
    PastValuesSumToTotalPast(inputs, pastCpi, latestCpi);
    Comparison(latestCpi, pastCpi, totalToday, Convert(totalToday, pastCpi, latestCpi),
               Labels(inputs), PastValues(inputs, pastCpi, latestCpi))
  }

  /**
   * One press of the predict button: the latest CPI and the comparison
   * year's mean CPI are looked up, then the prediction is made.
   */
  function Compare(s: seq<Observation>, year: int, inputs: seq<Entry>): (r: Result<Comparison>)
    ensures r.Ok? <==> |s| > 0 && Years.HasYear(s, year) && s[|s| - 1].cpi != 0.0
    ensures |s| == 0 ==> r == Err(EmptySeries)
    ensures |s| > 0 && !Years.HasYear(s, year) ==> r == Err(YearNotFound)
    ensures r.Ok? ==> r.value == Predict(inputs, Years.YearCpi(s, year).value, s[|s| - 1].cpi)
  {
    var latest := Series.Latest(s);
    if latest.Err? then Err(latest.fault)
    else
      var past := Years.YearCpi(s, year);
      if past.Err? then Err(past.fault)
      else if latest.value.cpi == 0.0 then Err(ZeroDivisor)
      else Ok(Predict(inputs, past.value, latest.value.cpi))
  }

  /** Spending 60000 today, with CPI 400 now and 100 in the past year, was worth 15000 then. */
  lemma ConvertScenario()
    ensures Convert(60000.0, 100.0, 400.0) == 15000.0
  {
  }

  /** No entries total 0; entries of 5 and 3 total 8. */
  lemma TotalScenario()
    ensures Total([]) == 0.0
    ensures Total([Entry("x", 5.0), Entry("y", 3.0)]) == 8.0
  {
    assert Amounts([Entry("x", 5.0), Entry("y", 3.0)]) == [5.0, 3.0];
    assert [5.0, 3.0][..1] == [5.0];
  }
}
