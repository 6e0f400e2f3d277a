# CryptoAI core in Dafny

A model of the logic of CryptoAI, a Streamlit application that compares
cryptocurrency prices, caches their history in SQLite and values recorded
investments. It covers five parts of the system:

- **The price store and its cache synchronizer** (`processing.py`):
  - The `prices` table is modelled as the class `PriceStore.Store`. Its `rows` field holds (coin, instant, price) rows in storage order, and its invariant is the primary key (coin_id, date).
  - `save_to_db` is a gap-filling append. It is all-or-nothing: when the rows it would add repeat a date, `to_sql` raises `IntegrityError` and nothing is added.
  - `load_from_db` and `process_price_data_from_db` read a coin's rows back.
  - `get_historical_price_dataframe` is modelled twice. `PriceSync.Synchronize` is the function that specifies it. `PriceSync.GetHistoricalPriceDataframe` is the method that runs it step by step against a `Store`, and it is proved equal to `Synchronize`.
  - The lemmas cover the three cases: cold (nothing stored), cache hit (watermark day is today or later) and gap (watermark day before today).
- **The investment ledger** (`processing.py`): the `investments` table as the class `Investments.Ledger`, keyed by (coin_id, date, investor). It has insert with duplicate-key rejection, delete by exact key, a listing per coin that ignores ASCII case, and a listing of every row by date descending.
- **The retry decorator** of `api.py`:
  - `Api.Retry` is the `for attempt` loop.
  - The k-th call of the wrapped function is the oracle `call(k)`.
  - The sleeps are returned as a sequence of waits.
  - `fetch_market_chart`'s settings give at most 4 calls with waits 2, 4, 8, 16.
  - The date inner join of `fetch_ohlc_with_volume` is also modelled.
- **The profit page** (`pages/1_profit.py`):
  - Every investment, newest first, is priced against the coin's series sorted by date.
  - The purchase price is the last price dated on or before the investment day's midnight. The current price is the last price.
  - An investment that cannot be priced is skipped with a warning.
  - The page stops early when there are no investments and computes no totals when nothing was valued.
- **The analysis page and the comparator app** (`pages/2_analysis.py`, `app_streamlit.py`):
  - snapping the slider's day count to the nearest accepted value, the first one winning a tie;
  - the volume-bar colours;
  - the minimum-coins guard and the two-column subplot grid;
  - the overlay of investments on a price line, as an inner join on date;
  - the required-column check of the CSV import;
  - the handling of the insert and delete results.

Time is an integer number of milliseconds (`Common.Instant`). A calendar date is a day number (`Common.Day`). `DayOf` is the UTC date of an instant, and `StartOf` the midnight that starts a day. Three things outside the model become parameters:

- the clock is `today`;
- the market API, already wrapped in its retry policy, is `remote: (coin, vs_currency, days) -> Result`;
- each HTTP call is `call(k)`.

Modules: `Common` (results, calendar), `Frames` (generic data-frame operations), `Api`, `PriceStore`, `PriceSync`, `Investments`, `ProfitPage`, `AnalysisPage`, `ComparatorApp`.

### Behaviour worth noting

- **Price key.** Prices are keyed by (coin_id, full datetime), not by calendar date. Two points on the same UTC day are both stored, such as the daily midnight point and the intraday latest point. `drop_duplicates(subset=['date'])` also compares full datetimes. Only the watermark filter compares calendar days (`.dt.date > last_date`).
- **Storage order.** `load_from_db` has no `ORDER BY`, so the model returns storage order. On a warm call the result is the stored frame followed by the new points, not re-sorted. Only `process_price_data_from_db` sorts.
- **Append errors.** `save_to_db` drops the points whose date is already stored. Its `to_sql` append raises `IntegrityError` when the new rows themselves repeat a date (`PriceStore.AppendFailsIff`). In the gap case the merge is de-duplicated, so the model never raises there (`PriceSync.SyncGapMerge`). That relies on the text assumption stated under "## Left out".
- **Gaps.** The synchronizer guarantees one row per datetime (`PriceSync.SyncGapOutcome`), not a gap-free series. Whether the API returns every day is outside the program.

## Model

| member | source | states |
|---|---|---|
| Common.DayOf | processing.py:97 | the calendar day of an instant is the day whose midnight-to-midnight span contains it (floor division, also before 1970) |
| Frames.Filter | processing.py:56 | boolean-mask selection keeps exactly the rows satisfying the mask and never grows the frame |
| Frames.SortBy | processing.py:176-181 | `ORDER BY` ascending: the result is sorted by the column and is a permutation of the input |
| Frames.DropDuplicatesBy | processing.py:113 | `drop_duplicates(subset=[col])` leaves one row per key, loses no key and only removes rows |
| Frames.KeptAreFirst | processing.py:113 | keep='first': every kept row is the first row of the input with its key |
| Frames.FirstsAreKept | processing.py:113 | keep='first': every row that is the first of its key in the input is kept |
| Frames.DropDuplicatesAppend | processing.py:113 | concatenating rows with new keys to a duplicate-free frame keeps that frame as a prefix, followed by the de-duplicated new rows |
| Frames.InnerJoinMembership | app_streamlit.py:97 | an inner merge row is exactly the combination of a left row and a right row with equal keys |
| Api.WaitIsPower | api.py:23-32 | the wait before the (k+1)-th retry is delay·backoff^k |
| Api.Backoff | api.py:31-32 | the sequence of waits slept: its k-th entry is the k-th wait of the geometric schedule |
| Api.Retry | api.py:20-37 | at most max_retries calls; a returned value is returned at once; a non-retriable error, including any non-HTTP exception, is re-raised right after its call with no wait; every wait follows a retriable failure and they grow geometrically; after max_retries retriable failures the generic failure is raised, with a wait after every attempt including the last |
| Api.FetchMarketChart | api.py:42 | with max_retries=4, delay=2, backoff=2 and statuses 429/502/503: at most 4 calls, waits a prefix of 2, 4, 8, 16, and all four when it gives up |
| Api.MarketChartSchedule | api.py:42 | the first n waits of fetch_market_chart's schedule are the first n of 2, 4, 8, 16 |
| Api.MergeOhlcVolume | api.py:106-107 | every merged candle takes its prices from an OHLC row and its volume from a volume row of the same date |
| Api.MergeOhlcVolumeExact | api.py:106-107 | the merged candles are exactly the combinations of an OHLC row and a volume row of the same date |
| Api.MergedDatesInBoth | api.py:107 | every merged date is present in both the OHLC and the volume data |
| PriceStore.CoinRows | processing.py:62-65 | `SELECT ... WHERE coin_id = ?` returns exactly the coin's stored rows, and is empty exactly when nothing is stored for it |
| PriceStore.Append | processing.py:39-60 | a save only appends: the stored rows stay in front unchanged; the appended rows are rows of the frame, of this coin, at dates not yet stored and all distinct; every row of the frame at a date not yet stored is appended |
| PriceStore.AppendAddsExactlyNewDates | processing.py:49-59 | a successful save appends exactly the frame's rows whose date is not yet stored for the coin; the coin's dates become the old ones plus the frame's; other coins' rows are unchanged; the primary key still holds |
| PriceStore.CoinRowsOfOtherAppend | processing.py:59 | appending rows of one coin leaves every other coin's rows unchanged |
| PriceStore.AppendFailsIff | processing.py:56-59 | the save raises exactly when two of the rows it would add share a date not yet stored, and then the table is unchanged |
| PriceStore.SaveIdempotent | processing.py:50-59 | saving the same frame twice leaves the table as saving it once, and the second save cannot raise if the first did not |
| PriceStore.LoadFromDb | processing.py:62-70 | `load_from_db` is None exactly when the coin has no stored rows, and otherwise holds exactly them |
| PriceStore.ProcessPriceDataFromDb | processing.py:164-191 | fails (the ValueError) exactly when the coin has no rows; otherwise it returns the coin's rows sorted ascending by date, as a permutation of the stored ones |
| PriceStore.FromDbRows | processing.py:176-182 | the sorted series holds exactly the coin's stored rows |
| PriceStore.CoinRowsUnique | processing.py:17-22 | with the primary key holding, a coin's series has one row per date |
| PriceStore.CoinRowsDates | processing.py:62-65 | a coin's series carries exactly the coin's stored dates |
| PriceStore.AppendStoredThenNew | processing.py:56-59 | re-saving stored rows followed by rows of new, distinct dates appends exactly the new rows |
| PriceStore.Store.SaveToDb | processing.py:39-60 | the table afterwards is the functional save's result (unchanged on IntegrityError), the outcome reports whether it raised, and the primary key is kept |
| PriceSync.ProcessPriceData | processing.py:72-76 | one row per [timestamp, price] pair, in order; a missing 'prices' entry gives an empty frame |
| PriceSync.LatestDate | processing.py:97 | `df['date'].max()` is a date of the frame and no row is later |
| PriceSync.LaterThan | processing.py:110 | `new_df[new_df['date'].dt.date > last_date]` keeps exactly the fetched points whose calendar day is after the watermark day |
| PriceSync.Synchronize | processing.py:78-116 | the cache only grows, and only by rows of the coin asked for; a raise, or a call that makes no request, leaves the table unchanged; after a successful call every returned point's date is stored for the coin |
| PriceSync.ColdFetch | processing.py:87-94 | the request asks for `days`; the table only grows by rows of the coin; a raise saves nothing; after success every returned date is stored |
| PriceSync.WarmFetch | processing.py:96-116 | no request means the stored series is returned with nothing changed; a request reaches back to the watermark day and asks for at least two days; a raise saves nothing; every returned point is a stored one or is now stored |
| PriceSync.GapFetch | processing.py:100-114 | the table only grows by rows of the coin; a raise saves nothing; every returned point is a row of the stored series or a fetched point after the watermark day that is now stored |
| PriceSync.SyncCold | processing.py:87-94 | nothing stored: the API is asked for `days`; a failure propagates with nothing saved; otherwise the fetched frame is returned and saved whole, unless it repeats a date, in which case the IntegrityError is returned and nothing is saved |
| PriceSync.SyncCacheHit | processing.py:97-116 | when the watermark day is today or later no request is made, the stored series is returned and the table is unchanged |
| PriceSync.LaterThanDates | processing.py:110 | every date the filter keeps falls on a day after the watermark day |
| PriceSync.SyncGapWindow | processing.py:100-106 | gap case: the requested window is (today - last) + 1 days and so reaches back to the watermark day; a failed request propagates and saves nothing |
| PriceSync.GapFetchSuccess | processing.py:106-114 | after a successful gap request the result is the stored series followed by the de-duplicated new points, and exactly those points are appended |
| PriceSync.MergeAfterWatermark | processing.py:110-114 | merging points dated after the watermark day keeps the stored series as a prefix, the save appends the new points once each, and no new date was stored before |
| PriceSync.SyncGapMerge | processing.py:106-114 | gap case after a successful request: only points after the watermark day are merged; the result is the stored series followed by them with repeated dates dropped; the table gains exactly those points |
| PriceSync.AppendNewDates | processing.py:113-114 | appending new, distinct dates keeps the series unique by date; the coin's dates grow by exactly the new ones; other coins are untouched; the primary key holds |
| PriceSync.SyncGapOutcome | processing.py:110-116 | gap case: the returned series has one row per date; the store holds the stored dates plus the new ones; other coins are untouched; the primary key still holds |
| PriceSync.WatermarkBounds | processing.py:97 | every stored date falls on or before the watermark day |
| PriceSync.DropDuplicatesNew | processing.py:110-113 | de-duplicating the new points keeps them after the watermark day |
| PriceSync.SyncRemoteFailurePropagates | processing.py:87-106 | whenever the request made fails, the failure is returned and the table is unchanged |
| PriceSync.WarmRemoteFailure | processing.py:106 | in the warm branch a failed request is returned and the table is unchanged |
| PriceSync.GetHistoricalPriceDataframe | processing.py:78-116 | the step-by-step run against the store returns the same result and window, and leaves the same table, as the specifying function; the primary key is kept |
| Investments.ListAll | processing.py:137-141 | `ORDER BY date DESC`: dates never increase along the listing, which holds exactly the table's rows |
| Investments.Inserted | processing.py:123-135 | the insert is rejected exactly when a stored row already has the key; otherwise the table has one row more, holding the stored rows and the new one |
| Investments.Without | processing.py:153-161 | the delete keeps exactly the rows whose key differs from the given one, and never adds a row |
| Investments.ListByCoin | processing.py:143-151 | the listing has at most one entry per row, and every listed date is the midnight of its day (`pd.to_datetime` of the date text) |
| Investments.InsertedExactly | processing.py:123-135 | an insert succeeds exactly when the key is not in the table; the keys then gain exactly that key, and the primary key keeps holding |
| Investments.InsertTwiceRejected | processing.py:123-135 | a second insert with the same key is rejected |
| Investments.WithoutExactly | processing.py:153-161 | the keys lose exactly the deleted key; an absent key leaves the table unchanged |
| Investments.WithoutKeepsDistinct | processing.py:153-161 | deleting keeps the primary key |
| Investments.ListByCoinExactly | processing.py:143-151 | the per-coin listing holds exactly the projections (midnight date, amount, note, investor) of the rows whose coin_id equals the argument ignoring ASCII case |
| Investments.ListByCoinIgnoresCase | processing.py:145 | two coin arguments equal under LOWER give the same listing |
| Investments.ListByCoinUpper | processing.py:145 | upper-casing the coin argument does not change the listing |
| Investments.ListAllRows | processing.py:139 | an investment is listed exactly when it is in the table |
| Investments.Ledger.Insert | processing.py:123-135 | True with the row appended exactly when the key is new; otherwise False with the table untouched |
| Investments.Ledger.Delete | processing.py:153-161 | the table loses the rows with exactly that key and nothing else |
| ProfitPage.SeriesOutcome | pages/1_profit.py:39-45 | on a loaded series, an investment is skipped exactly when every price is dated after its day's midnight |
| ProfitPage.ValueOneOutcome | pages/1_profit.py:34-68 | an investment is skipped for no stored prices exactly when its coin has none, and for no earlier price exactly when stored prices exist and every stored date is after its day's midnight |
| ProfitPage.ValueOne | pages/1_profit.py:34-68 | the loop body's outcome: skipped only for no stored prices or no earlier price; a valuation keeps the investment's coin, day and amount; its purchase price is a stored price of the coin dated on or before the day's midnight, and its current price a stored price of the coin |
| ProfitPage.ValueSeries | pages/1_profit.py:39-53 | on a loaded series: skipped only when every row is dated after the day's midnight; a valuation keeps coin, day and amount; the purchase price is that of a row on or before the midnight, the current price that of a row of the series |
| ProfitPage.LastOnOrBefore | pages/1_profit.py:39-42 | in a date-sorted series, the last row dated on or before the midnight is the latest such row |
| ProfitPage.LastIsLatest | pages/1_profit.py:45 | the last row of a date-sorted series is a latest one |
| ProfitPage.SeriesPrices | pages/1_profit.py:39-45 | the purchase price is that of a latest row on or before the investment's midnight, and the current price that of a latest row |
| ProfitPage.PurchaseIsLatestOnOrBefore | pages/1_profit.py:39-42 | the purchase price is the stored price at the latest stored date on or before the investment day's midnight |
| ProfitPage.CurrentIsLatest | pages/1_profit.py:45 | the current price is the stored price at the coin's latest stored date |
| ProfitPage.Outcomes | pages/1_profit.py:29-68 | one loop outcome per investment row, in iteration order |
| ProfitPage.ValuedOrSkipped | pages/1_profit.py:29-68 | every investment ends up either valued or warned about, never both |
| ProfitPage.ValuedExactly | pages/1_profit.py:55-65 | `results` holds exactly the valuations of the investments that could be valued |
| ProfitPage.SkippedExactly | pages/1_profit.py:67-68 | the warnings are exactly those of the investments that could not be valued, with their reason |
| ProfitPage.NothingValuedAllSkipped | pages/1_profit.py:71-115 | no results means every investment was skipped |
| ProfitPage.ValueInvestments | pages/1_profit.py:27-68 | the loop builds `results` and the warnings in iteration order, exactly as the specifying functions say |
| ProfitPage.ProfitPageRun | pages/1_profit.py:18-115 | the investments are read through `get_all_investments`; an empty table stops the page; otherwise the valuations and warnings come from the newest-first listing; totals are reported exactly when some investment could be valued; with nothing valued every investment failed |
| AnalysisPage.FirstClosest | pages/2_analysis.py:33 | `min(xs, key=...)`: an index of a closest element, every earlier element strictly farther |
| AnalysisPage.FirstClosestUnique | pages/2_analysis.py:33 | those two properties single out the index `min` returns |
| AnalysisPage.NearestValidDays | pages/2_analysis.py:31-33 | the chosen day count is an accepted one, and no accepted one is strictly closer to the slider's value |
| AnalysisPage.NearestValidDaysTieBreak | pages/2_analysis.py:33 | ties go to the smaller value: every accepted day count below the choice is strictly farther |
| AnalysisPage.NearestValidDaysFixesValid | pages/2_analysis.py:33 | an accepted day count is kept unchanged |
| AnalysisPage.NearestValidDaysInRange | pages/2_analysis.py:22-33 | the chosen day count lies in 1..365 |
| AnalysisPage.NearestValidDaysTie | pages/2_analysis.py:33 | 22, equally far from 14 and 30, gives 14 |
| AnalysisPage.BarColours | pages/2_analysis.py:66-69 | one colour per row: green exactly when close >= open, red exactly when close < open |
| ComparatorApp.GridRows | app_streamlit.py:47-48 | the 2-column grid has room for every coin and no empty row |
| ComparatorApp.CellOf | app_streamlit.py:51-53 | cells are filled row by row, left to right: the row is at least 1, the column is 1 or 2, and the cell gives back the coin's position |
| ComparatorApp.CellsInsideAndDistinct | app_streamlit.py:51-53 | each coin's (row, col) cell lies in the grid and no two coins share one |
| ComparatorApp.Layout | app_streamlit.py:29-114 | fewer than two coins stops the page; otherwise GridRows rows, height 600 per row and coin idx placed at (idx // 2 + 1, idx % 2 + 1) |
| ComparatorApp.Overlay | app_streamlit.py:95-97 | no trace without investments; every marker stands at an investment's date and amount, on a point of the series at that point's price |
| ComparatorApp.OverlayExact | app_streamlit.py:95-97 | a marker is drawn exactly for an investment whose date is also a date of the price series, at that point's price |
| ComparatorApp.OverlayOnSeries | app_streamlit.py:95-109 | every marker sits on a point of the coin's series, at the midnight and amount of one of the coin's investments |
| ComparatorApp.CoinMarkers | app_streamlit.py:95-109 | the coin's investments are read back ignoring case; no trace exactly when the coin has none; every marker sits on the series, at the midnight and amount of one of the coin's investments |
| ComparatorApp.CsvAccepted | app_streamlit.py:190-191 | a CSV is accepted exactly when all five required columns are present |
| ComparatorApp.CsvExtraColumnsAccepted | app_streamlit.py:190-191 | extra columns never cause rejection |
| ComparatorApp.SubmitInvestment | app_streamlit.py:155-160 | a duplicate key is reported as a message, not raised: Saved exactly when the key was new, and the table changes only then |
| ComparatorApp.WithoutAll | app_streamlit.py:231-236 | deleting the selected keys leaves exactly the rows whose key was not selected |
| ComparatorApp.DeleteSelected | app_streamlit.py:231-236 | each selected row is deleted by its (coin_id, date, investor) key, in order |

## Left out

- **SQLite and pandas I/O** are replaced by the tables as sequences of rows. This covers `sqlite3.connect`, `read_sql_query`, `to_sql` and `create_db` with its schema. The schema's primary keys are kept as the classes' invariants.
- **HTTP and JSON decoding** are replaced by the `remote` and `call` parameters. That means `requests.get`, `raise_for_status` and `response.json()`.
- **`time.sleep`**: the waits are recorded instead of slept. The progress messages (`print`) are not modelled.
- **The clock**: `datetime.utcnow()` is the `today` parameter.
- **Float arithmetic on the profit page** is not modelled: units, current value, gain, ROI and their totals (pages/1_profit.py:48-53, 75-77).
  - A valuation keeps the amount and the two prices as `real`.
  - Under numpy, a zero purchase price or amount gives inf or nan with a warning rather than an exception. The model therefore skips no investment for it.
- **Rendering**: Streamlit and Plotly calls, `plotter.py`, `main.py` and the last-point marker with its annotation (app_streamlit.py:62-92) are presentation code.
- **`bulk_insert_investments`** is imported and called (app_streamlit.py:8, 198-201) but is not defined in any file of this model.
- **The per-coin fetch loop** (app_streamlit.py:34-41) is not modelled. It tolerates a failed fetch, but line 54 then indexes the missing entry, so no tolerance property holds.
- **The connection** `insert_investment` leaves open on its `IntegrityError` path is resource handling, not behaviour.
- **The text form of stored dates** is not modelled. The model compares instants. This assumes that the text `save_to_db`'s filter builds for a date (`df_copy['date'].astype(str)`, processing.py:56) equals the text SQLite stored for that date.
  - pandas formats a datetime column as a whole, for example with fractional seconds on every value once one value has them.
  - The stored texts were written one value at a time.
  - Where the two texts differ, the filter keeps rows that are already stored, and the append at processing.py:59 raises `IntegrityError`. The warm re-save at processing.py:114 always carries the stored rows, so it is exposed to this.
  - The model does not capture that failure.
- **Investment dates** are day numbers. This assumes the canonical "YYYY-MM-DD" text `str(date)` produces, so text order is day order.
- PriceStore.LoadFromDb: returns the coin's rows in storage (insertion) order. SQLite gives no order without `ORDER BY`; this is its usual rowid order.
- Investments.ListAll: fixes one order among rows of equal date, which `ORDER BY date DESC` leaves unspecified; the contract states only the descending dates and the permutation.
- Frames.InnerJoin: orders the rows by left row, then right row. pandas' inner-merge order with duplicate keys is not stated; the lemmas state membership only.
- Api.Retry: waits are unbounded reals, so float overflow of a very long schedule is not modelled.
- AnalysisPage.BarColours: compares reals; NaN prices are not modelled.
- **Keyword defaults**: `get_historical_price_dataframe`'s defaults `vs_currency='usd'` and `days=365` (processing.py:78), which app_streamlit.py:38 relies on, are not modelled. `vs` and `days` are always explicit parameters.
