/** `get_historical_price_dataframe` of processing.py: the cache synchronizer
    that decides how much of a coin's history to fetch from the market API,
    keeps only the points after the stored watermark, merges them without
    repeating a date and saves them. The clock is the parameter `today` (the
    UTC date of `datetime.utcnow()`); the market API, already wrapped in its
    retry policy, is the parameter `remote`. */
module PriceSync {
  import opened Common
  import opened Frames
  import opened PriceStore
  import Api

  /** The JSON body of `/market_chart`, reduced to its 'prices' entry: a list of
      [timestamp in ms, price] pairs, or absent. */
  datatype MarketData = MarketData(prices: Option<seq<(Instant, real)>>)

  /** `fetch_market_chart(coin_id, vs_currency, days)` after its retries: the data,
      or the failure it raised. */
  type Remote = (Coin, string, int) -> Result<MarketData, Api.Failure>

  /** What get_historical_price_dataframe can raise: the fetch's failure, or the
      integrity error of the save. */
  datatype SyncError = RemoteFailed(failure: Api.Failure) | SaveFailed(error: StoreError)

  /** One run of the synchronizer: what it returns or raises, the `days` it asked
      the API for (None when it made no request) and the table afterwards. */
  datatype Sync = Sync(result: Result<seq<Row>, SyncError>, window: Option<int>, table: seq<PriceRow>)

  /** `process_price_data(market_data)`: one row per [timestamp, price] pair, a
      missing 'prices' entry giving an empty frame. */
  function ProcessPriceData(m: MarketData): (df: seq<Row>)
    ensures m.prices.None? ==> df == []
    ensures m.prices.Some? ==> |df| == |m.prices.value|
    ensures m.prices.Some? ==>
              forall i :: 0 <= i < |df| ==> df[i].date == m.prices.value[i].0 && df[i].price == m.prices.value[i].1
  {
    var points := if m.prices.Some? then m.prices.value else [];
    seq(|points|, i requires 0 <= i < |points| => Row(points[i].0, points[i].1))
  }

  /** `df['date'].max()`. */
  function LatestDate(df: seq<Row>): (d: Instant)
    requires df != []
    ensures d in FrameDates(df)
    ensures forall x :: x in df ==> x.date <= d
  {
    if |df| == 1 then df[0].date
    else
      var rest := LatestDate(df[1..]);
      KeysOfConcat([df[0]], df[1..], DateOf);
      assert df == [df[0]] + df[1..];
      assert KeysOf([df[0]], DateOf) == {df[0].date};
      if df[0].date >= rest then df[0].date else rest
  }

  /** `new_df[new_df['date'].dt.date > last_date]`. */
  function LaterThan(df: seq<Row>, last: Day): (r: seq<Row>)
    ensures forall x :: x in r <==> x in df && DayOf(x.date) > last
  {
    Filter(df, (r: Row) => DayOf(r.date) > last)
  }

  /** get_historical_price_dataframe(coin_id, vs_currency, days) as a function of
      the table, the clock and the API. */
  function Synchronize(t: seq<PriceRow>, coin: Coin, vs: string, days: int, today: Day, remote: Remote): (s: Sync)
    // the cache only grows, and only by rows of the coin asked for
    ensures Extends(t, s.table, coin)
    // a raise saves nothing; so does a call that makes no request
    ensures s.result.Failure? || s.window.None? ==> s.table == t
    // after a successful call every point returned is in the cache
    ensures s.result.Success? ==> forall x :: x in s.result.value ==> x.date in StoredDates(s.table, coin)
  {
    var loaded := LoadFromDb(t, coin);
    if loaded.None? then ColdFetch(t, coin, days, remote(coin, vs, days))
    else
      var s := WarmFetch(t, coin, vs, today, remote, loaded.value);
      ExtendsKeepsDates(t, s.table, coin);
      assert forall x :: x in loaded.value ==> x.date in StoredDates(t, coin) by {
        forall x | x in loaded.value ensures x.date in StoredDates(t, coin) {
          var i :| 0 <= i < |t| && t[i] == PriceRow(coin, x.date, x.price);
        }
      }
      s
  }

  /** Warm case: compare the watermark day with today. */
  function WarmFetch(t: seq<PriceRow>, coin: Coin, vs: string, today: Day, remote: Remote, df: seq<Row>): (s: Sync)
    requires df != []
    ensures Extends(t, s.table, coin)
    ensures s.result.Failure? ==> s.table == t
    // no request: the stored series is returned and nothing changes
    ensures s.window.None? ==> s.result == Success(df) && s.table == t
    // a request reaches back to the watermark day and asks for at least two days
    ensures s.window.Some? ==> today - (s.window.value - 1) == DayOf(LatestDate(df)) && s.window.value >= 2
    ensures s.result.Success? ==>
              forall x :: x in s.result.value ==> x in df || x.date in StoredDates(s.table, coin)
  {
    var lastDate := DayOf(LatestDate(df));
    if lastDate < today then
      var window := today - lastDate + 1;
      GapFetch(t, coin, df, lastDate, window, remote(coin, vs, window))
    else Sync(Success(df), None, t)
  }

  /** Cold case: download the whole window, save it, return what was fetched. */
  function ColdFetch(t: seq<PriceRow>, coin: Coin, days: int, raw: Result<MarketData, Api.Failure>): (s: Sync)
    ensures s.window == Some(days)
    ensures Extends(t, s.table, coin)
    ensures s.result.Failure? ==> s.table == t
    ensures s.result.Success? ==> forall x :: x in s.result.value ==> x.date in StoredDates(s.table, coin)
  {
    if raw.Failure? then Sync(Failure(RemoteFailed(raw.error)), Some(days), t)
    else
      var df := ProcessPriceData(raw.value);
      var saved := Append(t, coin, df);
      if saved.Failure? then Sync(Failure(SaveFailed(saved.error)), Some(days), t)
      else
        SavedDates(t, coin, df);
        Sync(Success(df), Some(days), saved.value)
  }

  /** Gap case: keep the fetched points after the watermark day, merge them into the
      stored series without repeating a date and save the merge. */
  function GapFetch(t: seq<PriceRow>, coin: Coin, df: seq<Row>, lastDate: Day, window: int,
                    raw: Result<MarketData, Api.Failure>): (s: Sync)
    ensures s.window == Some(window)
    ensures Extends(t, s.table, coin)
    ensures s.result.Failure? ==> s.table == t
    // what is returned is the given series plus fetched points after the watermark
    // day, and every fetched point returned is now in the cache
    ensures s.result.Success? ==> forall x :: x in s.result.value ==>
              x in df || (DayOf(x.date) > lastDate && x.date in StoredDates(s.table, coin))
  {
    if raw.Failure? then Sync(Failure(RemoteFailed(raw.error)), Some(window), t)
    else
      var newDf := LaterThan(ProcessPriceData(raw.value), lastDate);
      if newDf == [] then Sync(Success(df), Some(window), t)
      else
        var merged := DropDuplicatesBy(df + newDf, DateOf);
        var saved := Append(t, coin, merged);
        if saved.Failure? then Sync(Failure(SaveFailed(saved.error)), Some(window), t)
        else
          SavedDates(t, coin, merged);
          assert forall x :: x in merged ==> x in df + newDf by {
            forall x | x in merged ensures x in df + newDf {
              assert x in multiset(merged);
            }
          }
          Sync(Success(merged), Some(window), saved.value)
  }

  /** Cold case: with nothing stored for the coin the API is asked for `days` days,
      every fetched point is saved and the fetched frame itself is returned; the
      one way the save can raise is a fetched frame that repeats a date. */
  lemma SyncCold(t: seq<PriceRow>, coin: Coin, vs: string, days: int, today: Day, remote: Remote)
    requires KeysUnique(t)
    requires StoredDates(t, coin) == {}
    ensures var s := Synchronize(t, coin, vs, days, today, remote);
            && s.window == Some(days)
            && (remote(coin, vs, days).Failure? ==>
                  s.result == Failure(RemoteFailed(remote(coin, vs, days).error)) && s.table == t)
            && (remote(coin, vs, days).Success? ==>
                  var df := ProcessPriceData(remote(coin, vs, days).value);
                  if RepeatsDate(df) then s.result == Failure(SaveFailed(IntegrityError)) && s.table == t
                  else s.result == Success(df) && s.table == t + Tag(coin, df) && StoredDates(s.table, coin) == FrameDates(df))
  {
    if remote(coin, vs, days).Success? {
      var df := ProcessPriceData(remote(coin, vs, days).value);
      FilterKeepsAll(df, (r: Row) => r.date !in StoredDates(t, coin));
      assert NewRows(t, coin, df) == df;
      AppendFailsIff(t, coin, df);
      RepeatsNewDateIff(df, {});
      if !RepeatsDate(df) {
        AppendAddsExactlyNewDates(t, coin, df, t + Tag(coin, df));
      }
    }
  }

  /** With nothing stored, the synchronizer runs its cold case on the `days` requested. */
  lemma ColdIsColdFetch(t: seq<PriceRow>, coin: Coin, vs: string, days: int, today: Day, remote: Remote)
    requires StoredDates(t, coin) == {}
    ensures Synchronize(t, coin, vs, days, today, remote) == ColdFetch(t, coin, days, remote(coin, vs, days))
  {
    assert LoadFromDb(t, coin).None?;
  }

  /** Cache hit: when the stored watermark is today or later, no request is made and
      the stored series is returned with the table unchanged. */
  lemma SyncCacheHit(t: seq<PriceRow>, coin: Coin, vs: string, days: int, today: Day, remote: Remote)
    requires StoredDates(t, coin) != {}
    requires DayOf(LatestDate(CoinRows(t, coin))) >= today
    ensures Synchronize(t, coin, vs, days, today, remote) == Sync(Success(CoinRows(t, coin)), None, t)
  {
    WarmIsLoaded(t, coin, vs, days, today, remote);
  }

  /** The dates of the fetched points that fall on a day after the watermark. */
  lemma LaterThanDates(df: seq<Row>, last: Day)
    ensures forall x :: x in LaterThan(df, last) <==> x in df && DayOf(x.date) > last
    ensures forall d :: d in FrameDates(LaterThan(df, last)) ==> DayOf(d) > last
  {
    var later := LaterThan(df, last);
    forall d | d in FrameDates(later) ensures DayOf(d) > last {
      var i :| 0 <= i < |later| && DateOf(later[i]) == d;
      assert later[i] in later;
    }
  }

  /** With a watermark day before today, the synchronizer runs its gap case on the
      stored series with a window of (today - last) + 1 days. */
  lemma WarmIsGapFetch(t: seq<PriceRow>, coin: Coin, vs: string, days: int, today: Day, remote: Remote, last: Day)
    requires StoredDates(t, coin) != {}
    requires last == DayOf(LatestDate(CoinRows(t, coin))) && last < today
    ensures Synchronize(t, coin, vs, days, today, remote) ==
            GapFetch(t, coin, CoinRows(t, coin), last, today - last + 1, remote(coin, vs, today - last + 1))
  {
    WarmIsLoaded(t, coin, vs, days, today, remote);
    WarmBeforeToday(t, coin, vs, today, remote, CoinRows(t, coin), last);
  }

  /** The warm case with a watermark day before today requests (today - last) + 1 days. */
  lemma WarmBeforeToday(t: seq<PriceRow>, coin: Coin, vs: string, today: Day, remote: Remote, df: seq<Row>, last: Day)
    requires df != [] && last == DayOf(LatestDate(df)) && last < today
    ensures WarmFetch(t, coin, vs, today, remote, df) == GapFetch(t, coin, df, last, today - last + 1, remote(coin, vs, today - last + 1))
  {
  }

  /** With something stored, the synchronizer runs its warm case on the stored series. */
  lemma WarmIsLoaded(t: seq<PriceRow>, coin: Coin, vs: string, days: int, today: Day, remote: Remote)
    requires StoredDates(t, coin) != {}
    ensures CoinRows(t, coin) != []
    ensures Synchronize(t, coin, vs, days, today, remote) == WarmFetch(t, coin, vs, today, remote, CoinRows(t, coin))
  {
    assert LoadFromDb(t, coin) == Some(CoinRows(t, coin));
  }

  /** Gap case, the request: when the watermark day is before today the API is
      asked for (today - last) + 1 days, a window that reaches back to the
      watermark day itself; a failed request changes nothing. */
  lemma SyncGapWindow(t: seq<PriceRow>, coin: Coin, vs: string, days: int, today: Day, remote: Remote, last: Day)
    requires StoredDates(t, coin) != {}
    requires last == DayOf(LatestDate(CoinRows(t, coin))) && last < today
    ensures var s := Synchronize(t, coin, vs, days, today, remote);
            && s.window == Some(today - last + 1)
            && today - (s.window.value - 1) == last
            && (remote(coin, vs, today - last + 1).Failure? ==>
                  s.result == Failure(RemoteFailed(remote(coin, vs, today - last + 1).error)) && s.table == t)
  {
    WarmIsGapFetch(t, coin, vs, days, today, remote, last);
  }

  /** The gap case after a successful request: the stored series followed by the
      new points without repeated dates, and exactly those points appended. */
  lemma GapFetchSuccess(t: seq<PriceRow>, coin: Coin, last: Day, window: int, m: MarketData)
    requires KeysUnique(t)
    requires StoredDates(t, coin) != {}
    requires last == DayOf(LatestDate(CoinRows(t, coin)))
    ensures var added := DropDuplicatesBy(LaterThan(ProcessPriceData(m), last), DateOf);
            GapFetch(t, coin, CoinRows(t, coin), last, window, Success(m)) ==
            Sync(Success(CoinRows(t, coin) + added), Some(window), t + Tag(coin, added))
  {
    var stored := CoinRows(t, coin);
    var fetched := ProcessPriceData(m);
    var newDf := LaterThan(fetched, last);
    var dd := DropDuplicatesBy(newDf, DateOf);
    if newDf == [] {
      assert dd == [];
      assert stored + dd == stored;
      assert t + Tag(coin, dd) == t;
    } else {
      LaterThanDates(fetched, last);
      MergeAfterWatermark(t, coin, newDf, last);
    }
  }

  /** Merging the stored series with points dated after its watermark day keeps the
      stored series as a prefix, and saving the merge appends exactly the new
      points once each. */
  lemma MergeAfterWatermark(t: seq<PriceRow>, coin: Coin, newDf: seq<Row>, last: Day)
    requires KeysUnique(t)
    requires StoredDates(t, coin) != {}
    requires last == DayOf(LatestDate(CoinRows(t, coin)))
    requires forall x :: x in newDf ==> DayOf(x.date) > last
    ensures var stored := CoinRows(t, coin);
            var added := DropDuplicatesBy(newDf, DateOf);
            && DropDuplicatesBy(stored + newDf, DateOf) == stored + added
            && Append(t, coin, stored + added) == Success(t + Tag(coin, added))
            && FrameDates(newDf) !! StoredDates(t, coin)
  {
    var stored := CoinRows(t, coin);
    var dd := DropDuplicatesBy(newDf, DateOf);
    CoinRowsUnique(t, coin);
    CoinRowsDates(t, coin);
    WatermarkBounds(stored);
    forall d | d in KeysOf(newDf, DateOf) ensures d !in KeysOf(stored, DateOf) {
      var i :| 0 <= i < |newDf| && DateOf(newDf[i]) == d;
      assert newDf[i] in newDf;
    }
    DropDuplicatesAppend(stored, newDf, DateOf);
    AppendStoredThenNew(t, coin, stored, dd);
  }

  /** Gap case, the merge: only fetched points dated after the watermark day are
      kept; the returned series is the stored one followed by those points with
      repeated dates dropped, and exactly those points are appended (the save
      cannot raise). */
  lemma SyncGapMerge(t: seq<PriceRow>, coin: Coin, vs: string, days: int, today: Day, remote: Remote, last: Day, m: MarketData)
    requires KeysUnique(t)
    requires StoredDates(t, coin) != {}
    requires last == DayOf(LatestDate(CoinRows(t, coin))) && last < today
    requires remote(coin, vs, today - last + 1) == Success(m)
    ensures var newDf := LaterThan(ProcessPriceData(m), last);
            var added := DropDuplicatesBy(newDf, DateOf);
            && Synchronize(t, coin, vs, days, today, remote).result == Success(CoinRows(t, coin) + added)
            && Synchronize(t, coin, vs, days, today, remote).table == t + Tag(coin, added)
            && (forall x :: x in added ==> DayOf(x.date) > last)
            && FrameDates(added) == FrameDates(newDf)
            && FrameDates(newDf) !! StoredDates(t, coin)
  {
    var fetched := ProcessPriceData(m);
    var newDf := LaterThan(fetched, last);
    WarmIsGapFetch(t, coin, vs, days, today, remote, last);
    GapFetchSuccess(t, coin, last, today - last + 1, m);
    LaterThanDates(fetched, last);
    DropDuplicatesNew(newDf, last);
    MergeAfterWatermark(t, coin, newDf, last);
  }

  /** Appending new, distinct dates to a coin's stored series: the series stays
      unique by date, the coin's dates grow by exactly the new ones, other coins
      are untouched and the primary key holds. */
  lemma AppendNewDates(t: seq<PriceRow>, coin: Coin, added: seq<Row>)
    requires KeysUnique(t)
    requires UniqueBy(added, DateOf)
    requires FrameDates(added) !! StoredDates(t, coin)
    ensures UniqueBy(CoinRows(t, coin) + added, DateOf)
    ensures StoredDates(t + Tag(coin, added), coin) == StoredDates(t, coin) + FrameDates(added)
    ensures forall other :: other != coin ==> CoinRows(t + Tag(coin, added), other) == CoinRows(t, other)
    ensures KeysUnique(t + Tag(coin, added))
  {
    var stored := CoinRows(t, coin);
    CoinRowsDates(t, coin);
    assert UniqueBy(stored + added, DateOf) by {
      CoinRowsUnique(t, coin);
      UniqueConcat(stored, added, DateOf);
    }
    assert Append(t, coin, stored + added) == Success(t + Tag(coin, added)) by {
      AppendStoredThenNew(t, coin, stored, added);
    }
    AppendAddsExactlyNewDates(t, coin, stored + added, t + Tag(coin, added));
    KeysOfConcat(stored, added, DateOf);
  }

  /** Gap case, the outcome: the returned series has one row per date, the table
      then holds the stored dates plus the new ones, other coins' rows are
      untouched and the primary key still holds. */
  lemma SyncGapOutcome(t: seq<PriceRow>, coin: Coin, vs: string, days: int, today: Day, remote: Remote, last: Day, m: MarketData)
    requires KeysUnique(t)
    requires StoredDates(t, coin) != {}
    requires last == DayOf(LatestDate(CoinRows(t, coin))) && last < today
    requires remote(coin, vs, today - last + 1) == Success(m)
    ensures var s := Synchronize(t, coin, vs, days, today, remote);
            && s.result.Success?
            && UniqueBy(s.result.value, DateOf)
            && StoredDates(s.table, coin) == StoredDates(t, coin) + FrameDates(LaterThan(ProcessPriceData(m), last))
            && (forall other :: other != coin ==> CoinRows(s.table, other) == CoinRows(t, other))
            && KeysUnique(s.table)
  {
    var newDf := LaterThan(ProcessPriceData(m), last);
    var added := DropDuplicatesBy(newDf, DateOf);
    SyncGapMerge(t, coin, vs, days, today, remote, last, m);
    AppendNewDates(t, coin, added);
  }

  /** Every stored date falls on or before the watermark day. */
  lemma WatermarkBounds(stored: seq<Row>)
    requires stored != []
    ensures forall d :: d in KeysOf(stored, DateOf) ==> DayOf(d) <= DayOf(LatestDate(stored))
  {
    forall d | d in KeysOf(stored, DateOf) ensures DayOf(d) <= DayOf(LatestDate(stored)) {
      var i :| 0 <= i < |stored| && DateOf(stored[i]) == d;
      assert stored[i] in stored;
      DayOfMonotone(d, LatestDate(stored));
    }
  }

  /** De-duplicating the new points keeps them after the watermark day. */
  lemma DropDuplicatesNew(newDf: seq<Row>, last: Day)
    requires forall x :: x in newDf ==> DayOf(x.date) > last
    ensures forall x :: x in DropDuplicatesBy(newDf, DateOf) ==> DayOf(x.date) > last
  {
    var dd := DropDuplicatesBy(newDf, DateOf);
    forall x | x in dd ensures DayOf(x.date) > last {
      assert x in multiset(dd);
    }
  }

  /** A failed request propagates: nothing is saved and the failure is returned. */
  lemma SyncRemoteFailurePropagates(t: seq<PriceRow>, coin: Coin, vs: string, days: int, today: Day, remote: Remote)
    requires var s := Synchronize(t, coin, vs, days, today, remote);
             s.window.Some? && remote(coin, vs, s.window.value).Failure?
    ensures var s := Synchronize(t, coin, vs, days, today, remote);
            s.table == t && s.result == Failure(RemoteFailed(remote(coin, vs, s.window.value).error))
  {
    if StoredDates(t, coin) == {} {
      assert Synchronize(t, coin, vs, days, today, remote) == ColdFetch(t, coin, days, remote(coin, vs, days));
    } else {
      WarmIsLoaded(t, coin, vs, days, today, remote);
      WarmRemoteFailure(t, coin, vs, today, remote, CoinRows(t, coin));
    }
  }

  /** In the warm case a failed request changes nothing and is returned. */
  lemma WarmRemoteFailure(t: seq<PriceRow>, coin: Coin, vs: string, today: Day, remote: Remote, df: seq<Row>)
    requires df != []
    ensures var s := WarmFetch(t, coin, vs, today, remote, df);
            s.window.Some? && remote(coin, vs, s.window.value).Failure? ==>
              s.table == t && s.result == Failure(RemoteFailed(remote(coin, vs, s.window.value).error))
  {
  }

  /** `get_historical_price_dataframe(coin_id, vs_currency, days)`, run step by step
      against the store. Returns the frame (or what it raised) and the `days` it
      requested from the API, None when it made no request. */
  method GetHistoricalPriceDataframe(store: Store, coin: Coin, vs: string, days: int, today: Day, remote: Remote)
    returns (df: Result<seq<Row>, SyncError>, window: Option<int>)
    requires store.Valid()
    modifies store
    ensures store.Valid()
    ensures Sync(df, window, store.rows) == Synchronize(old(store.rows), coin, vs, days, today, remote)
  {
    ghost var t := store.rows;
    var loaded := LoadFromDb(store.rows, coin);
    if loaded.None? {
      ColdIsColdFetch(t, coin, vs, days, today, remote);
      window := Some(days);
      var raw := remote(coin, vs, days);
      if raw.Failure? {
        assert Sync(Failure(RemoteFailed(raw.error)), window, store.rows) == Synchronize(t, coin, vs, days, today, remote);
        return Failure(RemoteFailed(raw.error)), window;
      }
      var fetched := ProcessPriceData(raw.value);
      var saved := store.SaveToDb(fetched, coin);
      if saved.Fail? {
        assert Sync(Failure(SaveFailed(saved.error)), window, store.rows) == Synchronize(t, coin, vs, days, today, remote);
        return Failure(SaveFailed(saved.error)), window;
      }
      assert Sync(Success(fetched), window, store.rows) == Synchronize(t, coin, vs, days, today, remote);
      return Success(fetched), window;
    }
    var frame := loaded.value;
    var lastDate := DayOf(LatestDate(frame));
    window := None;
    if lastDate < today {
      WarmIsGapFetch(t, coin, vs, days, today, remote, lastDate);
      var daysMissing := today - lastDate;
      window := Some(daysMissing + 1);
      var raw := remote(coin, vs, daysMissing + 1);
      if raw.Failure? {
        assert Sync(Failure(RemoteFailed(raw.error)), window, store.rows) == Synchronize(t, coin, vs, days, today, remote);
        return Failure(RemoteFailed(raw.error)), window;
      }
      var newFrame := LaterThan(ProcessPriceData(raw.value), lastDate);
      if newFrame != [] {
        frame := DropDuplicatesBy(frame + newFrame, DateOf);
        var saved := store.SaveToDb(frame, coin);
        if saved.Fail? {
          assert Sync(Failure(SaveFailed(saved.error)), window, store.rows) == Synchronize(t, coin, vs, days, today, remote);
          return Failure(SaveFailed(saved.error)), window;
        }
        assert Sync(Success(frame), window, store.rows) == Synchronize(t, coin, vs, days, today, remote);
      } else {
        assert Sync(Success(frame), window, store.rows) == Synchronize(t, coin, vs, days, today, remote);
      }
    } else {
      SyncCacheHit(t, coin, vs, days, today, remote);
    }
    df := Success(frame);
  }
}
