/** app_streamlit.py: the multi-coin comparator (the guard on the selection,
    the placement of one subplot per coin on a two-column grid, the markers of
    recorded investments over each price line) and the forms that insert,
    import and delete investments. */
module ComparatorApp {
  import opened Common
  import opened Frames
  import opened PriceStore
  import opened Investments

  const Columns: int := 2

  /** `rows = (len(selected_coins) + 1) // 2` (n is a length, so floor and Euclidean
      division agree). */
  function GridRows(n: nat): (rows: nat)
    // room for every coin, and no empty row
    ensures Columns * rows >= n
    ensures Columns * (rows - 1) < n
  {
    (n + 1) / Columns
  }

  /** The subplot (row, col), both from 1, of the coin at position idx. */
  function CellOf(idx: nat): (cell: (int, int))
    // filled row by row, left to right: the cell gives back the position
    ensures cell.0 >= 1 && 1 <= cell.1 <= Columns
    ensures (cell.0 - 1) * Columns + (cell.1 - 1) == idx
  {
    (idx / Columns + 1, idx % Columns + 1)
  }

  /** Every coin gets a cell inside the grid, and no two coins share one. */
  lemma CellsInsideAndDistinct(n: nat)
    ensures forall idx :: 0 <= idx < n ==> 1 <= CellOf(idx).0 <= GridRows(n) && 1 <= CellOf(idx).1 <= Columns
    ensures forall i, j :: 0 <= i < j < n ==> CellOf(i) != CellOf(j)
  {
  }

  /** How the comparator part of the page ends. */
  datatype Comparator =
    | Stopped                                                     // "select at least 2 coins", then st.stop()
    | Figure(rows: nat, height: int, cells: seq<(int, int)>)     // one subplot per selected coin

  /** The guard and the subplot loop: fewer than two coins stops the page before
      anything is fetched; otherwise each coin, in selection order, is drawn in
      its cell of a GridRows-by-2 figure 600 pixels high per row. */
  method Layout(selected: seq<string>) returns (fig: Comparator)
    ensures fig.Stopped? <==> |selected| < 2
    ensures fig.Figure? ==>
              && fig.rows == GridRows(|selected|)
              && fig.height == 600 * fig.rows
              && |fig.cells| == |selected|
              && forall idx :: 0 <= idx < |selected| ==> fig.cells[idx] == CellOf(idx)
  {
    if |selected| < 2 {
      return Stopped;
    }
    var rows := (|selected| + 1) / Columns;
    var cells: seq<(int, int)> := [];
    var idx := 0;
    while idx < |selected|
      invariant 0 <= idx <= |selected|
      invariant |cells| == idx
      invariant forall k :: 0 <= k < idx ==> cells[k] == CellOf(k)
    {
      var row := idx / Columns + 1;
      var col := idx % Columns + 1;
      cells := cells + [(row, col)];
      idx := idx + 1;
    }
    return Figure(rows, 600 * rows, cells);
  }

  /** A point of the "investments in <coin>" trace: the merged row's date, its
      price_usd and the invested amount shown as its label. */
  datatype Marker = Marker(date: Instant, price: real, amount: real)

  function InvestmentDate(c: CoinInvestment): Instant { c.date }

  function MarkerOf(c: CoinInvestment, r: Row): Marker
  {
    Marker(c.date, r.price, c.amount)
  }

  /** `pd.merge(inv_df, df, on="date", how="inner")`, drawn only when the coin has
      investments. */
  function Overlay(invs: seq<CoinInvestment>, series: seq<Row>): (r: Option<seq<Marker>>)
    ensures r.None? <==> invs == []
    // each marker stands at an investment's date and amount, on a point of the series
    ensures r.Some? ==> forall m :: m in r.value ==>
              (exists c :: c in invs && c.date == m.date && c.amount == m.amount) &&
              (exists p :: p in series && p.date == m.date && p.price == m.price)
  {
    if invs == [] then None
    else
      JoinedMarkers(invs, series);
      Some(InnerJoin(invs, series, InvestmentDate, DateOf, MarkerOf))
  }

  /** Every joined marker stands at an investment's date and amount, on a point of the series. */
  lemma JoinedMarkers(invs: seq<CoinInvestment>, series: seq<Row>)
    ensures forall m :: m in InnerJoin(invs, series, InvestmentDate, DateOf, MarkerOf) ==>
              (exists c :: c in invs && c.date == m.date && c.amount == m.amount) &&
              (exists p :: p in series && p.date == m.date && p.price == m.price)
  {
    forall m | m in InnerJoin(invs, series, InvestmentDate, DateOf, MarkerOf)
      ensures (exists c :: c in invs && c.date == m.date && c.amount == m.amount) &&
              (exists p :: p in series && p.date == m.date && p.price == m.price)
    {
      InnerJoinMembership(invs, series, InvestmentDate, DateOf, MarkerOf, m);
      var a, b :| 0 <= a < |invs| && 0 <= b < |series| && InvestmentDate(invs[a]) == DateOf(series[b]) &&
                  m == MarkerOf(invs[a], series[b]);
      assert invs[a] in invs && series[b] in series;
    }
  }

  /** A marker is drawn exactly for an investment whose date is also the date of a
      point of the price series, at that point's price. */
  lemma OverlayExact(invs: seq<CoinInvestment>, series: seq<Row>, m: Marker)
    requires invs != []
    ensures m in Overlay(invs, series).value <==>
              exists c, r :: c in invs && r in series && c.date == r.date && m == Marker(c.date, r.price, c.amount)
  {
    InnerJoinMembership(invs, series, InvestmentDate, DateOf, MarkerOf, m);
    if exists c, r :: c in invs && r in series && c.date == r.date && m == Marker(c.date, r.price, c.amount) {
      var c, r :| c in invs && r in series && c.date == r.date && m == Marker(c.date, r.price, c.amount);
      var i :| 0 <= i < |invs| && invs[i] == c;
      var j :| 0 <= j < |series| && series[j] == r;
      assert InvestmentDate(invs[i]) == DateOf(series[j]) && m == MarkerOf(invs[i], series[j]);
    }
  }

  /** The markers of a coin's investments over its series: every marker sits on a
      point of the series, at an investment's midnight. */
  lemma OverlayOnSeries(t: seq<Investment>, coin: string, series: seq<Row>, m: Marker)
    requires ListByCoin(t, coin) != []
    requires m in Overlay(ListByCoin(t, coin), series).value
    ensures exists r :: r in series && r.date == m.date && r.price == m.price
    ensures exists inv :: inv in t && SameCoin(inv, coin) && StartOf(inv.date) == m.date && inv.amount == m.amount
  {
    OverlayExact(ListByCoin(t, coin), series, m);
    var c, r :| c in ListByCoin(t, coin) && r in series && c.date == r.date && m == Marker(c.date, r.price, c.amount);
    ListByCoinExactly(t, coin, c);
  }

  /** The investment trace of one subplot: the coin's investments read back with
      `get_investments_by_coin` and joined with its price series. */
  method CoinMarkers(ledger: Ledger, coin: string, series: seq<Row>) returns (markers: Option<seq<Marker>>)
    ensures markers.None? <==> ListByCoin(ledger.rows, coin) == []
    ensures markers.Some? ==> forall m :: m in markers.value ==>
              (exists r :: r in series && r.date == m.date && r.price == m.price) &&
              (exists inv :: inv in ledger.rows && SameCoin(inv, coin) && StartOf(inv.date) == m.date && inv.amount == m.amount)
  {
    var invs := ledger.ByCoin(coin);
    markers := Overlay(invs, series);
    if markers.Some? {
      forall m | m in markers.value
        ensures (exists r :: r in series && r.date == m.date && r.price == m.price) &&
                (exists inv :: inv in ledger.rows && SameCoin(inv, coin) && StartOf(inv.date) == m.date && inv.amount == m.amount)
      {
        OverlayOnSeries(ledger.rows, coin, series, m);
      }
    }
  }

  /** The columns an investments CSV must have. */
  const RequiredColumns: set<string> := {"coin_id", "date", "investor", "amount", "note"}

  /** `expected_cols.issubset(df.columns)`. */
  function CsvAccepted(columns: set<string>): (ok: bool)
    // accepted exactly when each required column is present
    ensures ok <==>
              "coin_id" in columns && "date" in columns && "investor" in columns &&
              "amount" in columns && "note" in columns
  {
    RequiredColumns <= columns
  }

  /** Extra columns never make a CSV rejected. */
  lemma CsvExtraColumnsAccepted(columns: set<string>, extra: set<string>)
    ensures CsvAccepted(columns) ==> CsvAccepted(columns + extra)
  {
  }

  /** The message the registration form shows. */
  datatype Submitted = Saved | AlreadyExists

  /** The registration form: insert the investment and report the outcome; a
      duplicate key is an error message, not an exception. */
  method SubmitInvestment(ledger: Ledger, inv: Investment) returns (msg: Submitted)
    requires ledger.Valid()
    modifies ledger
    ensures ledger.Valid()
    ensures msg == Saved <==> KeyOf(inv) !in Keys(old(ledger.rows))
    ensures ledger.rows == if msg == Saved then old(ledger.rows) + [inv] else old(ledger.rows)
  {
    var success := ledger.Insert(inv);
    if success {
      msg := Saved;
    } else {
      msg := AlreadyExists;
    }
  }

  /** The table once each of the given keys has been deleted, in order. */
  function WithoutAll(rows: seq<Investment>, keys: seq<Key>): (r: seq<Investment>)
    // exactly the rows whose key was not selected
    ensures forall x :: x in r <==> x in rows && KeyOf(x) !in keys
  {
    if keys == [] then rows
    else
      var init := keys[..|keys| - 1];
      assert keys == init + [keys[|keys| - 1]];
      Without(WithoutAll(rows, init), keys[|keys| - 1])
  }

  /** "Delete selected": `delete_investment` on each selected row's key. */
  method DeleteSelected(ledger: Ledger, selected: seq<Key>)
    requires ledger.Valid()
    modifies ledger
    ensures ledger.Valid()
    ensures ledger.rows == WithoutAll(old(ledger.rows), selected)
  {
    var i := 0;
    while i < |selected|
      invariant 0 <= i <= |selected|
      invariant ledger.Valid()
      invariant ledger.rows == WithoutAll(old(ledger.rows), selected[..i])
    {
      ledger.Delete(selected[i].coin, selected[i].date, selected[i].investor);
      assert selected[..i + 1][..i] == selected[..i];
      i := i + 1;
    }
    assert selected[..i] == selected;
  }
}
