/** The cleaning step of question2_data_analysis (2_data_cleaning.py): the raw book
    table is cleaned column by column, rows with a missing value and repeated rows
    are dropped, and two derived columns are added. A table is a sequence of rows;
    each cell is missing, text or a number, as pandas holds it. */
module Cleaning {
  import opened Outcomes
  import opened Seqs
  import Text
  import Numbers

  /** One cell: NaN, a string or a number. */
  datatype Value = Missing | Str(s: string) | Num(x: real)

  /** A row of the book table, by column. */
  datatype Row = Row(title: Value, price: Value, rating: Value, category: Value, availability: Value)

  /** The price text with every pound sign and every stray 'Â' taken out. */
  function StripCurrency(s: string): (r: string)
    ensures '£' !in r && 'Â' !in r && |r| <= |s|
    ensures forall c :: c != '£' && c != 'Â' ==> (c in r <==> c in s)
  {
    Text.RemoveAll(Text.RemoveAll(s, '£'), 'Â')
  }

  /** The removal keeps all other characters in their order: it works piece by piece. */
  lemma StripCurrencyConcat(a: string, b: string)
    ensures StripCurrency(a + b) == StripCurrency(a) + StripCurrency(b)
  {
    Text.RemoveAllConcat(a, b, '£');
    Text.RemoveAllConcat(Text.RemoveAll(a, '£'), Text.RemoveAll(b, '£'), 'Â');
  }

  /** Text made only of the two glyphs vanishes. */
  lemma {:induction false} OnlyGlyphsVanish(s: string)
    requires forall i :: 0 <= i < |s| ==> s[i] == '£' || s[i] == 'Â'
    ensures StripCurrency(s) == []
  {
    if s != [] {
      assert s == [s[0]] + s[1..];
      StripCurrencyConcat([s[0]], s[1..]);
      OnlyGlyphsVanish(s[1..]);
    }
  }

  /** Text with neither glyph is kept whole. */
  lemma NoGlyphsKept(s: string)
    requires '£' !in s && 'Â' !in s
    ensures StripCurrency(s) == s
  {
    Text.RemoveAllAbsent(s, '£');
    Text.RemoveAllAbsent(s, 'Â');
  }

  /** pd.to_numeric(errors="coerce") on one cell: text that does not parse becomes
      missing, and no cell comes out as text. */
  function ToNumeric(v: Value): (r: Value)
    ensures !r.Str?
    ensures v.Missing? ==> r.Missing?
    ensures v.Num? ==> r == v
    ensures v.Str? ==> (r.Num? <==> Numbers.ParseNumber(v.s).Some?)
  {
    match v
    case Missing => Missing
    case Num(_) => v
    case Str(s) =>
      match Numbers.ParseNumber(s)
      case None => Missing
      case Some(x) => Num(x)
  }

  /** clean_price on one cell: the text without its currency glyphs, parsed. A
      missing cell, turned into the text "nan" by astype(str), parses to missing
      again; a number is kept. */
  function CleanPriceCell(v: Value): (r: Value)
    ensures !r.Str?
    ensures v.Missing? ==> r.Missing?
    ensures v.Num? ==> r == v
    ensures v.Str? ==> r == ToNumeric(Str(StripCurrency(v.s)))
  {
    match v
    case Missing => Missing
    case Num(_) => v
    case Str(s) => ToNumeric(Str(StripCurrency(s)))
  }

  /** A price written as pound signs (possibly mis-decoded as "Â£") before the digits
      of a whole number cleans to that number. */
  lemma PriceWithGlyphs(glyphs: string, n: nat)
    requires forall i :: 0 <= i < |glyphs| ==> glyphs[i] == '£' || glyphs[i] == 'Â'
    ensures CleanPriceCell(Str(glyphs + Numbers.NatToString(n))) == Num(n as real)
  {
    var digits := Numbers.NatToString(n);
    StripCurrencyConcat(glyphs, digits);
    OnlyGlyphsVanish(glyphs);
    assert '£' !in digits && 'Â' !in digits by {
      assert forall i :: 0 <= i < |digits| ==> Numbers.IsDigit(digits[i]);
    }
    NoGlyphsKept(digits);
    assert StripCurrency(glyphs + digits) == digits;
    Numbers.ParseNatString(n);
  }

  /** A price written as pound signs before a decimal, the form the scraped prices
      take ("£51.77"), cleans to the whole part plus the fraction over its power of
      ten. */
  lemma {:induction false} PriceDecimalWithGlyphs(glyphs: string, w: nat, f: string)
    requires forall i :: 0 <= i < |glyphs| ==> glyphs[i] == '£' || glyphs[i] == 'Â'
    requires Numbers.AllDigits(f)
    ensures CleanPriceCell(Str(glyphs + (Numbers.NatToString(w) + "." + f)))
      == Num(w as real + Numbers.DigitsValue(f) as real / Numbers.Pow10(|f|) as real)
  {
    var decimal := Numbers.NatToString(w) + "." + f;
    GlyphsBeforeDecimalVanish(glyphs, w, f);
    Numbers.ParseDecimalString(w, f);
  }

  /** Removing the currency glyphs from pound signs before a decimal leaves the
      decimal. */
  lemma GlyphsBeforeDecimalVanish(glyphs: string, w: nat, f: string)
    requires forall i :: 0 <= i < |glyphs| ==> glyphs[i] == '£' || glyphs[i] == 'Â'
    requires Numbers.AllDigits(f)
    ensures StripCurrency(glyphs + (Numbers.NatToString(w) + "." + f))
      == Numbers.NatToString(w) + "." + f
  {
    var d := Numbers.NatToString(w);
    var decimal := d + "." + f;
    StripCurrencyConcat(glyphs, decimal);
    OnlyGlyphsVanish(glyphs);
    assert '£' !in d && 'Â' !in d by {
      assert forall i :: 0 <= i < |d| ==> Numbers.IsDigit(d[i]);
    }
    assert '£' !in f && 'Â' !in f;
    assert '£' !in decimal && 'Â' !in decimal;
    NoGlyphsKept(decimal);
  }

  /** A price text with no digit left after the glyphs are removed becomes missing. */
  lemma PriceWithoutDigits(s: string)
    requires forall i :: 0 <= i < |s| ==> !Numbers.IsDigit(s[i])
    ensures CleanPriceCell(Str(s)) == Missing
  {
    var r := StripCurrency(s);
    forall i | 0 <= i < |r| ensures !Numbers.IsDigit(r[i]) {
      assert r[i] in r;
    }
    Numbers.ParseNeedsDigit(r);
  }

  /** clean_price: the price column cleaned, every other column as it was. */
  function CleanPrice(rows: seq<Row>): (r: seq<Row>)
    ensures |r| == |rows|
    ensures forall i :: 0 <= i < |rows| ==> r[i] == rows[i].(price := CleanPriceCell(rows[i].price))
  {
    seq(|rows|, i requires 0 <= i < |rows| => rows[i].(price := CleanPriceCell(rows[i].price)))
  }

  /** clean_rating: the rating column parsed, every other column as it was. No range
      is enforced, so a rating of 0 stays 0. */
  function CleanRating(rows: seq<Row>): (r: seq<Row>)
    ensures |r| == |rows|
    ensures forall i :: 0 <= i < |rows| ==> r[i] == rows[i].(rating := ToNumeric(rows[i].rating))
  {
    seq(|rows|, i requires 0 <= i < |rows| => rows[i].(rating := ToNumeric(rows[i].rating)))
  }

  /** The unknown-rating 0 the scraper writes is read as the number 0. */
  lemma ZeroRatingKept()
    ensures ToNumeric(Str(Numbers.NatToString(0))) == Num(0.0)
  {
    Numbers.ParseNatString(0);
  }

  /** A row with no missing cell. */
  predicate Complete(r: Row) {
    !r.title.Missing? && !r.price.Missing? && !r.rating.Missing? && !r.category.Missing?
    && !r.availability.Missing?
  }

  /** handle_missing: dropna() over all columns. */
  function HandleMissing(rows: seq<Row>): (r: seq<Row>)
    ensures forall i :: 0 <= i < |r| ==> Complete(r[i]) && r[i] in rows
    ensures forall i :: 0 <= i < |rows| && Complete(rows[i]) ==> rows[i] in r
  {
    Filter(rows, Complete)
  }

  /** handle_missing keeps the order of the rows it keeps: it works block by block. */
  lemma HandleMissingConcat(a: seq<Row>, b: seq<Row>)
    ensures HandleMissing(a + b) == HandleMissing(a) + HandleMissing(b)
  {
    FilterConcat(a, b, Complete);
  }

  /** remove_duplicates: drop_duplicates() keeping each row's first occurrence. */
  function RemoveDuplicates(rows: seq<Row>): (r: seq<Row>)
    ensures Distinct(r) && |r| <= |rows|
    ensures forall x :: x in r <==> x in rows
  {
    Dedup(rows)
  }

  /** Kept rows appear in the order of their first occurrence. */
  lemma RemoveDuplicatesKeepsOrder(rows: seq<Row>, a: nat, b: nat)
    requires a < b < |RemoveDuplicates(rows)|
    ensures IndexOf(rows, RemoveDuplicates(rows)[a]) < IndexOf(rows, RemoveDuplicates(rows)[b])
  {
    DedupKeepsFirstOrder(rows);
  }

  /** categorize: the three price bands, which do not overlap and leave no gap. */
  function Categorize(price: real): (band: string)
    ensures band == "Budget" <==> price < 20.0
    ensures band == "Mid-range" <==> 20.0 <= price <= 40.0
    ensures band == "Premium" <==> price > 40.0
  {
    if price < 20.0 then "Budget"
    else if 20.0 <= price <= 40.0 then "Mid-range"
    else "Premium"
  }

  /** The bands in increasing order of price. */
  function BandRank(band: string): nat {
    if band == "Budget" then 0 else if band == "Mid-range" then 1 else 2
  }

  /** A dearer book never falls in a cheaper band. */
  lemma CategorizeMonotone(p: real, q: real)
    requires p <= q
    ensures BandRank(Categorize(p)) <= BandRank(Categorize(q))
  {
    assert |"Budget"| != |"Mid-range"| && |"Budget"| != |"Premium"| && |"Mid-range"| != |"Premium"|;
  }

  /** create_in_stock on one cell: whether the availability text contains "In stock"
      in any mix of cases; str.contains gives no truth value for a non-text cell. */
  function InStock(v: Value): (r: Option<bool>)
    ensures r.Some? <==> v.Str?
    ensures v.Str? ==>
      (r == Some(true) <==> exists i :: Text.OccursAt(Text.Lower(v.s), Text.Lower("In stock"), i))
  {
    if v.Str? then Some(Text.ContainsIgnoreCase(v.s, "In stock")) else None
  }

  /** Availability text that starts with "In stock" is in stock. */
  lemma InStockPrefix(rest: string)
    ensures InStock(Str("In stock" + rest)) == Some(true)
  {
    var s := "In stock" + rest;
    assert Text.Lower(s)[..|"In stock"|] == Text.Lower("In stock");
    assert Text.OccursAt(Text.Lower(s), Text.Lower("In stock"), 0);
  }

  /** The flag ignores case: upper-casing the text does not change it. */
  lemma InStockIgnoresCase(s: string)
    ensures InStock(Str(Text.Upper(s))) == InStock(Str(s))
  {
    assert Text.Lower(Text.Upper(s)) == Text.Lower(s);
  }

  /** A cleaned row with its two derived columns. */
  datatype CleanRow = CleanRow(row: Row, priceCategory: string, inStock: Option<bool>)

  /** create_price_category and create_in_stock on one row. */
  function Derive(r: Row): (c: CleanRow)
    requires r.price.Num?
    ensures c.row == r
  {
    CleanRow(r, Categorize(r.price.x), InStock(r.availability))
  }

  /** The rows after the parse, drop-missing and drop-duplicates steps, in main's
      order. */
  function Prepared(raw: seq<Row>): (rows: seq<Row>)
    ensures |rows| <= |raw| && Distinct(rows)
    ensures forall i :: 0 <= i < |rows| ==> Complete(rows[i]) && rows[i].price.Num? && rows[i].rating.Num?
    ensures forall i :: 0 <= i < |rows| ==> rows[i] in CleanRating(CleanPrice(raw))
  {
    var parsed := CleanRating(CleanPrice(raw));
    assert forall i :: 0 <= i < |parsed| ==> !parsed[i].price.Str? && !parsed[i].rating.Str?;
    var kept := HandleMissing(parsed);
    assert forall x :: x in kept ==> x in parsed;
    RemoveDuplicates(kept)
  }

  /** The whole cleaning of main: each output row is a parsed input row, no row is
      repeated, there are no more rows than came in, and each derived column is
      computed from its own row alone. */
  function Clean(raw: seq<Row>): (out: seq<CleanRow>)
    ensures |out| == |Prepared(raw)| <= |raw|
    ensures forall i :: 0 <= i < |out| ==>
      && out[i].row == Prepared(raw)[i]
      && out[i].priceCategory == Categorize(out[i].row.price.x)
      && out[i].inStock == InStock(out[i].row.availability)
  {
    var rows := Prepared(raw);
    seq(|rows|, i requires 0 <= i < |rows| => Derive(rows[i]))
  }

  /** A complete raw row whose price parses survives cleaning, whatever its rating
      number, even one outside 1 to 5. */
  lemma CompleteRowSurvives(raw: seq<Row>, j: nat)
    requires j < |raw| && Complete(raw[j]) && raw[j].rating.Num?
    requires CleanPriceCell(raw[j].price).Num?
    ensures raw[j].(price := CleanPriceCell(raw[j].price)) in Prepared(raw)
  {
    var parsed := CleanRating(CleanPrice(raw));
    assert parsed[j] == raw[j].(price := CleanPriceCell(raw[j].price));
    assert parsed[j] in HandleMissing(parsed);
  }
}
