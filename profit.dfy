/** The valuation loop of pages/1_profit.py: every recorded investment, newest
    first, is priced against the coin's stored series. The purchase price is
    the last stored price dated on or before the investment day, the current
    price the last stored price; an investment that cannot be priced is
    reported as a warning and skipped. The money arithmetic itself (units,
    current value, gain, ROI and their totals) is not modelled. */
module ProfitPage {
  import opened Common
  import opened Frames
  import opened PriceStore
  import opened Investments

  /** The priced part of one entry of `results`. */
  datatype Valuation = Valuation(coin: string, day: Day, amount: real, purchasePrice: real, currentPrice: real)

  /** Why an investment was skipped. */
  datatype Skip =
    | NoPrices        // process_price_data_from_db raised: nothing stored for the coin
    | NoEarlierPrice  // no stored price dated on or before the investment

  /** The warning shown for a skipped investment. */
  datatype Warning = Warning(coin: string, day: Day, reason: Skip)

  /** `df_price[df_price['date'] <= fecha_inversion]`: the investment date is parsed
      to midnight of its day. */
  function OnOrBefore(series: seq<Row>, day: Day): seq<Row>
  {
    Filter(series, (r: Row) => r.date <= StartOf(day))
  }

  /** The body of the loop for one investment row. */
  function ValueOne(t: seq<PriceRow>, inv: Investment): (r: Result<Valuation, Skip>)
    ensures r.Failure? ==> r.error == NoPrices || r.error == NoEarlierPrice
    ensures r.Success? ==> r.value.coin == inv.coin && r.value.day == inv.date && r.value.amount == inv.amount
    // both prices are stored prices of the coin, the purchase price one dated on or
    // before the investment day's midnight
    ensures r.Success? ==> exists d :: d <= StartOf(inv.date) && StoredAt(t, inv.coin, d, r.value.purchasePrice)
    ensures r.Success? ==> exists d :: StoredAt(t, inv.coin, d, r.value.currentPrice)
  {
    var prices := ProcessPriceDataFromDb(t, inv.coin);
    if prices.Failure? then Failure(NoPrices)
    else
      SeriesRows(t, inv.coin);
      ValueSeries(prices.value, inv)
  }

  /** The rest of the loop body, once the coin's series is loaded. */
  function ValueSeries(series: seq<Row>, inv: Investment): (r: Result<Valuation, Skip>)
    // skipped only when every row is dated after the investment day's midnight
    ensures r.Failure? ==> r.error == NoEarlierPrice && forall y :: y in series ==> y.date > StartOf(inv.date)
    ensures r.Success? ==> r.value.coin == inv.coin && r.value.day == inv.date && r.value.amount == inv.amount
    // the purchase price is that of a row on or before the midnight, the current
    // price that of a row of the series
    ensures r.Success? ==> exists x :: x in series && x.date <= StartOf(inv.date) && x.price == r.value.purchasePrice
    ensures r.Success? ==> exists x :: x in series && x.price == r.value.currentPrice
  {
    var hist := OnOrBefore(series, inv.date);
    if hist == [] then Failure(NoEarlierPrice)
    else
      assert hist[|hist| - 1] in hist;
      var purchase := hist[|hist| - 1].price;
      var current := series[|series| - 1].price;
      Success(Valuation(inv.coin, inv.date, inv.amount, purchase, current))
  }

  /** The row of some stored date exists for the coin at the given price. */
  ghost predicate StoredAt(t: seq<PriceRow>, coin: string, d: Instant, price: real)
  {
    PriceRow(coin, d, price) in t
  }

  /** How the loop body ends on a loaded series: skipped exactly when no row is
      dated on or before the investment day's midnight. */
  lemma SeriesOutcome(s: seq<Row>, inv: Investment)
    ensures ValueSeries(s, inv) == Failure(NoEarlierPrice) <==> forall y :: y in s ==> y.date > StartOf(inv.date)
  {
    var hist := OnOrBefore(s, inv.date);
    if hist != [] {
      assert hist[|hist| - 1] in hist;
    }
  }

  /** Why each investment is skipped: no stored prices for its coin at all, or none
      dated on or before its day. */
  lemma ValueOneOutcome(t: seq<PriceRow>, inv: Investment)
    ensures ValueOne(t, inv) == Failure(NoPrices) <==> StoredDates(t, inv.coin) == {}
    ensures ValueOne(t, inv) == Failure(NoEarlierPrice) <==>
              StoredDates(t, inv.coin) != {} && forall d :: d in StoredDates(t, inv.coin) ==> d > StartOf(inv.date)
  {
    if StoredDates(t, inv.coin) != {} {
      var s := ProcessPriceDataFromDb(t, inv.coin).value;
      assert ValueOne(t, inv) == ValueSeries(s, inv);
      SeriesOutcome(s, inv);
      SeriesRows(t, inv.coin);
      if forall y :: y in s ==> y.date > StartOf(inv.date) {
        forall d | d in StoredDates(t, inv.coin) ensures d > StartOf(inv.date) {
          var y :| y in s && y.date == d;
        }
      }
      if forall d :: d in StoredDates(t, inv.coin) ==> d > StartOf(inv.date) {
        forall y | y in s ensures y.date > StartOf(inv.date) {
          assert StoredAt(t, inv.coin, y.date, y.price);
          StoredDateOf(t, inv.coin, y.date, y.price);
        }
      }
    }
  }

  /** A stored row's date is a stored date of its coin. */
  lemma StoredDateOf(t: seq<PriceRow>, coin: string, d: Instant, price: real)
    requires StoredAt(t, coin, d, price)
    ensures d in StoredDates(t, coin)
  {
    var i :| 0 <= i < |t| && t[i] == PriceRow(coin, d, price);
  }

  /** A stored row of the coin carrying a given stored date. */
  lemma StoredRowOf(t: seq<PriceRow>, coin: string, d: Instant) returns (y: Row)
    requires d in StoredDates(t, coin)
    ensures y in CoinRows(t, coin) && y.date == d
  {
    CoinRowsDates(t, coin);
    var k :| 0 <= k < |CoinRows(t, coin)| && DateOf(CoinRows(t, coin)[k]) == d;
    y := CoinRows(t, coin)[k];
  }

  /** In a series sorted by date, the last row dated on or before a day's midnight
      is a row of the series, dated on or before it, and no row of the series dated
      on or before it is later. */
  lemma LastOnOrBefore(s: seq<Row>, day: Day)
    requires SortedBy(s, DateOf)
    requires OnOrBefore(s, day) != []
    ensures var hist := OnOrBefore(s, day);
            var x := hist[|hist| - 1];
            && x in s && x.date <= StartOf(day)
            && forall y :: y in s && y.date <= StartOf(day) ==> y.date <= x.date
  {
    var keep := (r: Row) => r.date <= StartOf(day);
    var hist := OnOrBefore(s, day);
    FilterSorted(s, keep, DateOf);
    var x := hist[|hist| - 1];
    assert x in hist;
    forall y | y in s && y.date <= StartOf(day) ensures y.date <= x.date {
      assert y in hist;
      var k :| 0 <= k < |hist| && hist[k] == y;
      SortedLastIsMax(hist, DateOf, k);
    }
  }

  /** The last row of a series sorted by date is a latest one. */
  lemma LastIsLatest(s: seq<Row>)
    requires SortedBy(s, DateOf) && s != []
    ensures forall y :: y in s ==> y.date <= s[|s| - 1].date
  {
    forall y | y in s ensures y.date <= s[|s| - 1].date {
      var k :| 0 <= k < |s| && s[k] == y;
      SortedLastIsMax(s, DateOf, k);
    }
  }

  /** The sorted series of a coin holds exactly its stored rows. */
  lemma SeriesRows(t: seq<PriceRow>, coin: string)
    requires StoredDates(t, coin) != {}
    ensures var s := ProcessPriceDataFromDb(t, coin).value;
            && (forall x :: x in s ==> StoredAt(t, coin, x.date, x.price))
            && (forall e :: e in StoredDates(t, coin) ==> exists y :: y in s && y.date == e)
  {
    var s := ProcessPriceDataFromDb(t, coin).value;
    forall x | x in s ensures StoredAt(t, coin, x.date, x.price) {
      FromDbRows(t, coin, x);
    }
    forall e | e in StoredDates(t, coin) ensures exists y :: y in s && y.date == e {
      var y := StoredRowOf(t, coin, e);
      assert y in multiset(s);
    }
  }

  /** Over a series sorted by date, the purchase price is that of a latest row on or
      before the investment day's midnight, and the current price that of a latest
      row. */
  lemma SeriesPrices(s: seq<Row>, inv: Investment)
    requires SortedBy(s, DateOf)
    requires ValueSeries(s, inv).Success?
    ensures exists x :: x in s && x.date <= StartOf(inv.date) && x.price == ValueSeries(s, inv).value.purchasePrice &&
              forall y :: y in s && y.date <= StartOf(inv.date) ==> y.date <= x.date
    ensures exists x :: x in s && x.price == ValueSeries(s, inv).value.currentPrice &&
              forall y :: y in s ==> y.date <= x.date
  {
    var hist := OnOrBefore(s, inv.date);
    LastOnOrBefore(s, inv.date);
    LastIsLatest(s);
    assert hist[|hist| - 1] in s;
    assert s[|s| - 1] in s;
  }

  /** The purchase price is the price stored for the coin at the latest date on or
      before midnight of the investment day. */
  lemma PurchaseIsLatestOnOrBefore(t: seq<PriceRow>, inv: Investment)
    requires ValueOne(t, inv).Success?
    ensures exists d :: StoredAt(t, inv.coin, d, ValueOne(t, inv).value.purchasePrice) && d <= StartOf(inv.date) &&
              forall e :: e in StoredDates(t, inv.coin) && e <= StartOf(inv.date) ==> e <= d
  {
    var s := ProcessPriceDataFromDb(t, inv.coin).value;
    assert ValueOne(t, inv) == ValueSeries(s, inv);
    SeriesPrices(s, inv);
    var x :| x in s && x.date <= StartOf(inv.date) && x.price == ValueSeries(s, inv).value.purchasePrice &&
             forall y :: y in s && y.date <= StartOf(inv.date) ==> y.date <= x.date;
    LatestStoredUpTo(t, inv.coin, StartOf(inv.date), x);
  }

  /** A latest row of the sorted series up to a bound is a stored row, and no stored
      date up to the bound is later. */
  lemma LatestStoredUpTo(t: seq<PriceRow>, coin: string, bound: Instant, x: Row)
    requires StoredDates(t, coin) != {}
    requires x in ProcessPriceDataFromDb(t, coin).value && x.date <= bound
    requires forall y :: y in ProcessPriceDataFromDb(t, coin).value && y.date <= bound ==> y.date <= x.date
    ensures StoredAt(t, coin, x.date, x.price)
    ensures forall e :: e in StoredDates(t, coin) && e <= bound ==> e <= x.date
  {
    SeriesRows(t, coin);
    forall e | e in StoredDates(t, coin) && e <= bound ensures e <= x.date {
      var y :| y in ProcessPriceDataFromDb(t, coin).value && y.date == e;
    }
  }

  /** The current price is the price stored for the coin at its latest date. */
  lemma CurrentIsLatest(t: seq<PriceRow>, inv: Investment)
    requires ValueOne(t, inv).Success?
    ensures exists d :: StoredAt(t, inv.coin, d, ValueOne(t, inv).value.currentPrice) &&
              forall e :: e in StoredDates(t, inv.coin) ==> e <= d
  {
    var s := ProcessPriceDataFromDb(t, inv.coin).value;
    assert ValueOne(t, inv) == ValueSeries(s, inv);
    SeriesPrices(s, inv);
    SeriesRows(t, inv.coin);
    var x :| x in s && x.price == ValueSeries(s, inv).value.currentPrice && forall y :: y in s ==> y.date <= x.date;
    assert StoredAt(t, inv.coin, x.date, ValueOne(t, inv).value.currentPrice);
    forall e | e in StoredDates(t, inv.coin) ensures e <= x.date {
      var y :| y in s && y.date == e;
    }
    assert StoredAt(t, inv.coin, x.date, ValueOne(t, inv).value.currentPrice) &&
           forall e :: e in StoredDates(t, inv.coin) ==> e <= x.date;
  }

  /** One pass of the loop body: the valuation, or the warning shown instead. */
  function Outcome(t: seq<PriceRow>, inv: Investment): Result<Valuation, Warning>
  {
    var v := ValueOne(t, inv);
    if v.Success? then Success(v.value) else Failure(Warning(inv.coin, inv.date, v.error))
  }

  /** The loop body's outcome for every row, in iteration order. */
  function Outcomes(invs: seq<Investment>, t: seq<PriceRow>): (rs: seq<Result<Valuation, Warning>>)
    ensures |rs| == |invs|
    ensures forall i :: 0 <= i < |invs| ==> rs[i] == Outcome(t, invs[i])
  {
    seq(|invs|, i requires 0 <= i < |invs| => Outcome(t, invs[i]))
  }

  /** `results` after the loop over the given rows. */
  function Valued(invs: seq<Investment>, t: seq<PriceRow>): seq<Valuation>
  {
    Successes(Outcomes(invs, t))
  }

  /** The warnings shown by the loop over the given rows. */
  function Skipped(invs: seq<Investment>, t: seq<PriceRow>): seq<Warning>
  {
    Failures(Outcomes(invs, t))
  }

  /** Every investment ends up either valued or skipped, never both. */
  lemma ValuedOrSkipped(invs: seq<Investment>, t: seq<PriceRow>)
    ensures |Valued(invs, t)| + |Skipped(invs, t)| == |invs|
  {
    SuccessesOrFailures(Outcomes(invs, t));
  }

  /** The loop body appends a valuation exactly when the investment could be valued. */
  lemma OutcomeSuccess(t: seq<PriceRow>, inv: Investment, v: Valuation)
    ensures Outcome(t, inv) == Success(v) <==> ValueOne(t, inv) == Success(v)
  {
  }

  /** The loop body shows a warning exactly when the investment could not be valued. */
  lemma OutcomeFailure(t: seq<PriceRow>, inv: Investment, w: Warning)
    ensures Outcome(t, inv) == Failure(w) <==>
              ValueOne(t, inv).Failure? && w == Warning(inv.coin, inv.date, ValueOne(t, inv).error)
  {
  }

  /** `results` holds exactly the valuations of the investments that could be valued. */
  lemma ValuedExactly(invs: seq<Investment>, t: seq<PriceRow>, v: Valuation)
    ensures v in Valued(invs, t) <==> exists i :: 0 <= i < |invs| && ValueOne(t, invs[i]) == Success(v)
  {
    SuccessesExactly(Outcomes(invs, t), v);
    if Success(v) in Outcomes(invs, t) {
      var i :| 0 <= i < |invs| && Outcomes(invs, t)[i] == Success(v);
      OutcomeSuccess(t, invs[i], v);
    }
    if exists i :: 0 <= i < |invs| && ValueOne(t, invs[i]) == Success(v) {
      var i :| 0 <= i < |invs| && ValueOne(t, invs[i]) == Success(v);
      OutcomeSuccess(t, invs[i], v);
      assert Outcomes(invs, t)[i] == Success(v);
    }
  }

  /** The warnings are exactly those of the investments that could not be valued. */
  lemma SkippedExactly(invs: seq<Investment>, t: seq<PriceRow>, w: Warning)
    ensures w in Skipped(invs, t) <==>
              exists i :: 0 <= i < |invs| && ValueOne(t, invs[i]).Failure? &&
                          w == Warning(invs[i].coin, invs[i].date, ValueOne(t, invs[i]).error)
  {
    FailuresExactly(Outcomes(invs, t), w);
    if Failure(w) in Outcomes(invs, t) {
      var i :| 0 <= i < |invs| && Outcomes(invs, t)[i] == Failure(w);
      OutcomeFailure(t, invs[i], w);
    }
    if exists i :: 0 <= i < |invs| && ValueOne(t, invs[i]).Failure? &&
                   w == Warning(invs[i].coin, invs[i].date, ValueOne(t, invs[i]).error) {
      var i :| 0 <= i < |invs| && ValueOne(t, invs[i]).Failure? &&
               w == Warning(invs[i].coin, invs[i].date, ValueOne(t, invs[i]).error);
      OutcomeFailure(t, invs[i], w);
      assert Outcomes(invs, t)[i] == Failure(w);
    }
  }

  /** No investment valued means every one was skipped. */
  lemma NothingValuedAllSkipped(invs: seq<Investment>, t: seq<PriceRow>)
    requires Valued(invs, t) == []
    ensures forall i :: 0 <= i < |invs| ==> ValueOne(t, invs[i]).Failure?
  {
    var rs := Outcomes(invs, t);
    forall i | 0 <= i < |invs| ensures ValueOne(t, invs[i]).Failure? {
      if rs[i].Success? {
        SuccessesExactly(rs, rs[i].value);
        assert false;
      }
    }
  }

  /** The `for _, row in df_invest.iterrows()` loop. */
  method ValueInvestments(invs: seq<Investment>, t: seq<PriceRow>) returns (results: seq<Valuation>, warnings: seq<Warning>)
    ensures results == Valued(invs, t)
    ensures warnings == Skipped(invs, t)
  {
    ghost var rs := Outcomes(invs, t);
    results := [];
    warnings := [];
    var i := 0;
    while i < |invs|
      invariant 0 <= i <= |invs|
      invariant results == Successes(rs[..i])
      invariant warnings == Failures(rs[..i])
    {
      var inv := invs[i];
      var v := ValueOne(t, inv);
      assert rs[i] == Outcome(t, inv);
      PrefixStep(rs, i);
      if v.Success? {
        results := results + [v.value];
      } else {
        warnings := warnings + [Warning(inv.coin, inv.date, v.error)];
      }
      i := i + 1;
    }
    assert rs[..i] == rs;
  }

  /** What the page ends with. */
  datatype Page =
    | NoInvestments                                          // the "no investments yet" notice, then st.stop()
    | NothingValued(warnings: seq<Warning>)                  // "could not compute current gains"
    | Report(results: seq<Valuation>, warnings: seq<Warning>) // indicators and tables over `results`

  /** The whole page: load every investment (newest first), value them and decide
      what to show. */
  method ProfitPageRun(ledger: Ledger, t: seq<PriceRow>) returns (page: Page)
    ensures page.NoInvestments? <==> ledger.rows == []
    ensures page.NothingValued? ==>
              page.warnings == Skipped(ListAll(ledger.rows), t) &&
              forall inv :: inv in ledger.rows ==> ValueOne(t, inv).Failure?
    ensures page.Report? ==>
              page.results == Valued(ListAll(ledger.rows), t) != [] && page.warnings == Skipped(ListAll(ledger.rows), t)
    ensures ledger.rows != [] && (exists inv :: inv in ledger.rows && ValueOne(t, inv).Success?) ==> page.Report?
  {
    var invs := ledger.All();
    assert |invs| == |multiset(invs)| == |multiset(ledger.rows)| == |ledger.rows|;
    if invs == [] {
      return NoInvestments;
    }
    var results, warnings := ValueInvestments(invs, t);
    if results == [] {
      NothingValuedAllSkipped(invs, t);
      forall inv | inv in ledger.rows ensures ValueOne(t, inv).Failure? {
        ListAllRows(ledger.rows, inv);
        var i :| 0 <= i < |invs| && invs[i] == inv;
      }
      return NothingValued(warnings);
    }
    return Report(results, warnings);
  }
}
