/** The HTTP-facing helpers of api.py: the retry-with-backoff decorator
    `retry_on_exception` and the date merge of `fetch_ohlc_with_volume`.
    The request itself is not modelled: the k-th call of the wrapped function
    is an oracle `call(k)`, and the sleeps the decorator performs are recorded
    in a sequence instead of being waited out. */
module Api {
  import opened Common
  import Frames

  /** What a call of the wrapped function can raise. */
  datatype CallError =
    | HttpError(status: int)      // requests.exceptions.HTTPError with its response status
    | OtherError(message: string) // any other exception

  /** The outcome of one call of the wrapped function. */
  datatype Attempt<+T> = Returned(value: T) | Raised(error: CallError)

  /** How the decorated function ends when it does not return a value. */
  datatype Failure =
    | Propagated(error: CallError) // re-raised unchanged
    | GaveUp(maxRetries: int)      // the generic "failed after max_retries attempts"

  const DefaultStatuses: set<int> := {429, 502, 503}

  /** The failure the decorator sleeps on and retries. */
  predicate Retriable<T>(a: Attempt<T>, allowed: set<int>)
  {
    a.Raised? && a.error.HttpError? && a.error.status in allowed
  }

  function Pow(b: real, n: nat): real
  {
    if n == 0 then 1.0 else b * Pow(b, n - 1)
  }

  /** The wait before the (k+1)-th retry: `wait` starts at `delay` and is multiplied
      by `backoff` after each retriable failure. */
  function Wait(delay: real, backoff: real, k: nat): real
  {
    if k == 0 then delay else Wait(delay, backoff, k - 1) * backoff
  }

  /** The k-th wait (from 0) is delay * backoff^k. */
  lemma {:induction false} WaitIsPower(delay: real, backoff: real, k: nat)
    ensures Wait(delay, backoff, k) == delay * Pow(backoff, k)
  {
    if k > 0 {
      WaitIsPower(delay, backoff, k - 1);
      assert Wait(delay, backoff, k) == (delay * Pow(backoff, k - 1)) * backoff;
      assert (delay * Pow(backoff, k - 1)) * backoff == delay * (backoff * Pow(backoff, k - 1));
    }
  }

  /** The first n waits of the schedule. */
  function Backoff(delay: real, backoff: real, n: nat): (w: seq<real>)
    ensures |w| == n
    ensures forall k :: 0 <= k < n ==> w[k] == Wait(delay, backoff, k)
  {
    if n == 0 then [] else Backoff(delay, backoff, n - 1) + [Wait(delay, backoff, n - 1)]
  }

  function AttemptBudget(maxRetries: int): nat
  {
    if maxRetries < 0 then 0 else maxRetries
  }

  /** The wrapper built by `retry_on_exception(max_retries, delay, backoff, allowed_statuses)`.
      Returns how it ends, how many times the wrapped function was called and the
      waits slept, in order. */
  method Retry<T>(maxRetries: int, delay: real, backoff: real, allowed: set<int>, call: nat -> Attempt<T>)
    returns (r: Result<T, Failure>, calls: nat, waits: seq<real>)
    ensures calls <= AttemptBudget(maxRetries)
    // every wait follows a retriable failure, and the waits grow geometrically
    ensures forall k :: 1 <= k <= |waits| ==> Retriable(call(k), allowed)
    ensures waits == Backoff(delay, backoff, |waits|)
    ensures r.Success? ==> calls == |waits| + 1 && call(calls) == Returned(r.value)
    ensures r.Failure? && r.error.Propagated? ==>
              calls == |waits| + 1 && call(calls) == Raised(r.error.error) && !Retriable(call(calls), allowed)
    ensures r.Failure? && r.error.GaveUp? ==>
              r.error.maxRetries == maxRetries && calls == |waits| == AttemptBudget(maxRetries)
  {
    var wait := delay;
    waits := [];
    calls := 0;
    var attempt := 1;
    while attempt <= maxRetries
      invariant calls == attempt - 1 <= AttemptBudget(maxRetries)
      invariant |waits| == calls
      invariant forall k :: 1 <= k <= calls ==> Retriable(call(k), allowed)
      invariant waits == Backoff(delay, backoff, calls)
      invariant wait == Wait(delay, backoff, calls)
    {
      var a := call(attempt);
      calls := attempt;
      match a {
        case Returned(v) =>
          return Success(v), calls, waits;
        case Raised(e) =>
          if e.HttpError? && e.status in allowed {
            waits := waits + [wait];
            wait := wait * backoff;
          } else {
            return Failure(Propagated(e)), calls, waits;
          }
      }
      attempt := attempt + 1;
    }
    r := Failure(GaveUp(maxRetries));
  }

  /** `fetch_market_chart` is wrapped with max_retries=4, delay=2.0, backoff=2 and
      the default statuses 429, 502 and 503. */
  method FetchMarketChart<T>(call: nat -> Attempt<T>) returns (r: Result<T, Failure>, calls: nat, waits: seq<real>)
    ensures calls <= 4 && |waits| <= calls
    ensures waits == [2.0, 4.0, 8.0, 16.0][..|waits|]
    ensures forall k :: 1 <= k <= |waits| ==> Retriable(call(k), DefaultStatuses)
    ensures r.Success? ==> call(calls) == Returned(r.value)
    ensures r.Failure? && r.error.GaveUp? ==> calls == 4 && waits == [2.0, 4.0, 8.0, 16.0]
  {
    r, calls, waits := Retry(4, 2.0, 2.0, DefaultStatuses, call);
    MarketChartSchedule(|waits|);
  }

  lemma MarketChartSchedule(n: nat)
    requires n <= 4
    ensures Backoff(2.0, 2.0, n) == [2.0, 4.0, 8.0, 16.0][..n]
  {
    var w := Backoff(2.0, 2.0, n);
    assert Wait(2.0, 2.0, 3) == 16.0;
    forall k | 0 <= k < n ensures w[k] == [2.0, 4.0, 8.0, 16.0][k] {
    }
  }

  /** A row of the `/ohlc` endpoint once its timestamp is converted. */
  datatype OhlcRow = OhlcRow(date: Instant, open: real, high: real, low: real, close: real)

  /** A row of `total_volumes` from `/market_chart`. */
  datatype VolumeRow = VolumeRow(date: Instant, volume: real)

  /** A row of the merged frame: date, open, high, low, close, volume. */
  datatype Candle = Candle(date: Instant, open: real, high: real, low: real, close: real, volume: real)

  function OhlcDate(o: OhlcRow): Instant { o.date }
  function VolumeDate(v: VolumeRow): Instant { v.date }
  function Combine(o: OhlcRow, v: VolumeRow): Candle
  {
    Candle(o.date, o.open, o.high, o.low, o.close, v.volume)
  }

  /** `pd.merge(df_ohlc, df_vol, on='date', how='inner')`. */
  function MergeOhlcVolume(ohlc: seq<OhlcRow>, volumes: seq<VolumeRow>): (r: seq<Candle>)
    // every candle takes its prices from an OHLC row and its volume from a volume
    // row of the same date
    ensures forall c :: c in r ==> exists o, v :: o in ohlc && v in volumes && o.date == v.date && c == Combine(o, v)
  {
    var j := Frames.InnerJoin(ohlc, volumes, OhlcDate, VolumeDate, Combine);
    JoinedCandles(ohlc, volumes);
    j
  }

  /** Every merged candle comes from an OHLC row and a volume row of one date. */
  lemma JoinedCandles(ohlc: seq<OhlcRow>, volumes: seq<VolumeRow>)
    ensures forall c :: c in Frames.InnerJoin(ohlc, volumes, OhlcDate, VolumeDate, Combine) ==>
              exists o, v :: o in ohlc && v in volumes && o.date == v.date && c == Combine(o, v)
  {
    forall c | c in Frames.InnerJoin(ohlc, volumes, OhlcDate, VolumeDate, Combine)
      ensures exists o, v :: o in ohlc && v in volumes && o.date == v.date && c == Combine(o, v)
    {
      Frames.InnerJoinMembership(ohlc, volumes, OhlcDate, VolumeDate, Combine, c);
      var a, b :| 0 <= a < |ohlc| && 0 <= b < |volumes| && OhlcDate(ohlc[a]) == VolumeDate(volumes[b]) &&
                  c == Combine(ohlc[a], volumes[b]);
      assert ohlc[a] in ohlc && volumes[b] in volumes && ohlc[a].date == volumes[b].date;
    }
  }

  /** The merged frame holds exactly the candles of dates present in both inputs:
      each comes from an OHLC row and a volume row of its date, and every such
      pair yields one. */
  lemma MergeOhlcVolumeExact(ohlc: seq<OhlcRow>, volumes: seq<VolumeRow>, c: Candle)
    ensures c in MergeOhlcVolume(ohlc, volumes) <==>
            exists o, v :: o in ohlc && v in volumes && o.date == v.date && c == Combine(o, v)
  {
    Frames.InnerJoinMembership(ohlc, volumes, OhlcDate, VolumeDate, Combine, c);
    if exists o, v :: o in ohlc && v in volumes && o.date == v.date && c == Combine(o, v) {
      var o, v :| o in ohlc && v in volumes && o.date == v.date && c == Combine(o, v);
      var i :| 0 <= i < |ohlc| && ohlc[i] == o;
      var j :| 0 <= j < |volumes| && volumes[j] == v;
      assert OhlcDate(ohlc[i]) == VolumeDate(volumes[j]) && c == Combine(ohlc[i], volumes[j]);
    }
  }

  /** Every merged candle's date appears in both inputs. */
  lemma MergedDatesInBoth(ohlc: seq<OhlcRow>, volumes: seq<VolumeRow>, c: Candle)
    requires c in MergeOhlcVolume(ohlc, volumes)
    ensures exists o :: o in ohlc && o.date == c.date
    ensures exists v :: v in volumes && v.date == c.date
  {
    MergeOhlcVolumeExact(ohlc, volumes, c);
  }
}
