/** The `prices` table of processing.py and the functions that read and append
    to it. The table is the sequence of its rows in storage order, with
    primary key (coin_id, date); the `date` of a row is the full datetime the
    application stored, an `Instant`. */
module PriceStore {
  import opened Common
  import opened Frames

  type Coin = string

  /** A row of a price frame: columns date, price_usd. */
  datatype Row = Row(date: Instant, price: real)

  /** A row of table `prices`: coin_id, date, price_usd. */
  datatype PriceRow = PriceRow(coin: Coin, date: Instant, price: real)

  /** The `sqlite3.IntegrityError` an append raises when it repeats a primary key. */
  datatype StoreError = IntegrityError

  /** The `ValueError` `process_price_data_from_db` raises for a coin with no rows. */
  datatype NoPriceData = NoPriceData(coin: Coin)

  function DateOf(r: Row): Instant { r.date }

  /** The primary key (coin_id, date) holds. */
  ghost predicate KeysUnique(t: seq<PriceRow>)
  {
    forall i, j :: 0 <= i < j < |t| ==> t[i].coin != t[j].coin || t[i].date != t[j].date
  }

  /** `SELECT date FROM prices WHERE coin_id = ?`, as a set. */
  function StoredDates(t: seq<PriceRow>, coin: Coin): set<Instant>
  {
    set i | 0 <= i < |t| && t[i].coin == coin :: t[i].date
  }

  /** `SELECT date, price_usd FROM prices WHERE coin_id = ?`, in storage order. */
  function CoinRows(t: seq<PriceRow>, coin: Coin): (s: seq<Row>)
    ensures forall x :: x in s <==> PriceRow(coin, x.date, x.price) in t
    ensures |s| == 0 <==> StoredDates(t, coin) == {}
  {
    if t == [] then []
    else
      var rest := CoinRows(t[1..], coin);
      assert StoredDates(t, coin) == (if t[0].coin == coin then {t[0].date} else {}) + StoredDates(t[1..], coin) by {
        forall d | d in StoredDates(t, coin)
          ensures d in (if t[0].coin == coin then {t[0].date} else {}) + StoredDates(t[1..], coin)
        {
          var i :| 0 <= i < |t| && t[i].coin == coin && t[i].date == d;
          if i > 0 { assert t[1..][i - 1] == t[i]; }
        }
        forall d | d in StoredDates(t[1..], coin) ensures d in StoredDates(t, coin) {
          var i :| 0 <= i < |t[1..]| && t[1..][i].coin == coin && t[1..][i].date == d;
          assert t[i + 1] == t[1..][i];
        }
      }
      assert forall x: Row :: PriceRow(coin, x.date, x.price) in t <==>
                         PriceRow(coin, x.date, x.price) == t[0] || PriceRow(coin, x.date, x.price) in t[1..];
      if t[0].coin == coin then [Row(t[0].date, t[0].price)] + rest else rest
  }

  /** The rows of a frame whose date is not yet stored for the coin (save_to_db's filter). */
  function NewRows(t: seq<PriceRow>, coin: Coin, frame: seq<Row>): seq<Row>
  {
    var existing := StoredDates(t, coin);
    Filter(frame, (r: Row) => r.date !in existing)
  }

  /** The frame's rows as rows of the table for one coin. */
  function Tag(coin: Coin, frame: seq<Row>): (t: seq<PriceRow>)
    ensures |t| == |frame|
    ensures forall i :: 0 <= i < |frame| ==> t[i] == PriceRow(coin, frame[i].date, frame[i].price)
  {
    seq(|frame|, i requires 0 <= i < |frame| => PriceRow(coin, frame[i].date, frame[i].price))
  }

  /** `save_to_db(df, coin_id)` as a function of the table: rows whose date is
      already stored are dropped, the others appended in one all-or-nothing
      `to_sql` append, which raises if two of them share a date. */
  function Append(t: seq<PriceRow>, coin: Coin, frame: seq<Row>): (r: Result<seq<PriceRow>, StoreError>)
    // the stored rows stay as they were, in front: a save only appends
    ensures r.Success? ==> |t| <= |r.value| && r.value[..|t|] == t
    // what it appends are rows of the frame, for this coin, at dates not yet stored and all distinct
    ensures r.Success? ==> forall i :: |t| <= i < |r.value| ==>
              r.value[i].coin == coin && r.value[i].date !in StoredDates(t, coin) && Row(r.value[i].date, r.value[i].price) in frame
    ensures r.Success? ==> forall i, j :: |t| <= i < j < |r.value| ==> r.value[i].date != r.value[j].date
    // and every row of the frame at a date not yet stored is appended
    ensures r.Success? ==> forall x :: x in frame && x.date !in StoredDates(t, coin) ==> PriceRow(coin, x.date, x.price) in r.value
  {
    var incoming := NewRows(t, coin, frame);
    if forall i, j :: 0 <= i < j < |incoming| ==> incoming[i].date != incoming[j].date
    then
      NewRowsAppended(t, coin, frame);
      Success(t + Tag(coin, incoming))
    else Failure(IntegrityError)
  }

  /** Appending the new rows of a frame: they come from the frame, carry dates not yet
      stored, and every row of the frame with such a date is among them. */
  lemma NewRowsAppended(t: seq<PriceRow>, coin: Coin, frame: seq<Row>)
    ensures forall i :: |t| <= i < |t + Tag(coin, NewRows(t, coin, frame))| ==>
              var y := (t + Tag(coin, NewRows(t, coin, frame)))[i];
              y.coin == coin && y.date !in StoredDates(t, coin) && Row(y.date, y.price) in frame
    ensures forall x :: x in frame && x.date !in StoredDates(t, coin) ==>
              PriceRow(coin, x.date, x.price) in t + Tag(coin, NewRows(t, coin, frame))
  {
    var incoming := NewRows(t, coin, frame);
    var u := t + Tag(coin, incoming);
    forall i | |t| <= i < |u| ensures u[i].coin == coin && u[i].date !in StoredDates(t, coin) && Row(u[i].date, u[i].price) in frame {
      assert u[i] == Tag(coin, incoming)[i - |t|];
      assert incoming[i - |t|] in incoming;
    }
    forall x | x in frame && x.date !in StoredDates(t, coin) ensures PriceRow(coin, x.date, x.price) in u {
      assert x in incoming;
      var k :| 0 <= k < |incoming| && incoming[k] == x;
      assert u[|t| + k] == Tag(coin, incoming)[k];
    }
  }

  /** The table after `save_to_db`, whether it raised or not. */
  function AfterSave(t: seq<PriceRow>, coin: Coin, frame: seq<Row>): seq<PriceRow>
  {
    match Append(t, coin, frame)
    case Success(t') => t'
    case Failure(_) => t
  }

  /** The dates a frame carries. */
  function FrameDates(frame: seq<Row>): set<Instant>
  {
    KeysOf(frame, DateOf)
  }

  /** `t'` is `t` with rows of one coin appended: nothing stored is changed or
      removed, and no other coin gains a row. */
  ghost predicate Extends(t: seq<PriceRow>, t': seq<PriceRow>, coin: Coin)
  {
    |t| <= |t'| && t'[..|t|] == t && forall i :: |t| <= i < |t'| ==> t'[i].coin == coin
  }

  /** After a successful save every date of the frame is stored for the coin, and the
      table only grew by rows of that coin. */
  lemma SavedDates(t: seq<PriceRow>, coin: Coin, frame: seq<Row>)
    requires Append(t, coin, frame).Success?
    ensures Extends(t, Append(t, coin, frame).value, coin)
    ensures forall x :: x in frame ==> x.date in StoredDates(Append(t, coin, frame).value, coin)
  {
    var t' := Append(t, coin, frame).value;
    forall x | x in frame ensures x.date in StoredDates(t', coin) {
      if x.date in StoredDates(t, coin) {
        var i :| 0 <= i < |t| && t[i].coin == coin && t[i].date == x.date;
        assert t'[i] == t'[..|t|][i] == t[i];
      } else {
        var i :| 0 <= i < |t'| && t'[i] == PriceRow(coin, x.date, x.price);
      }
    }
  }

  /** Appending never loses a stored date. */
  lemma ExtendsKeepsDates(t: seq<PriceRow>, t': seq<PriceRow>, coin: Coin)
    requires Extends(t, t', coin)
    ensures StoredDates(t, coin) <= StoredDates(t', coin)
  {
    forall d | d in StoredDates(t, coin) ensures d in StoredDates(t', coin) {
      var i :| 0 <= i < |t| && t[i].coin == coin && t[i].date == d;
      assert t'[i] == t'[..|t|][i] == t[i];
    }
  }

  lemma StoredDatesConcat(a: seq<PriceRow>, b: seq<PriceRow>, coin: Coin)
    ensures StoredDates(a + b, coin) == StoredDates(a, coin) + StoredDates(b, coin)
  {
    var ab := a + b;
    forall d | d in StoredDates(ab, coin) ensures d in StoredDates(a, coin) + StoredDates(b, coin) {
      var i :| 0 <= i < |ab| && ab[i].coin == coin && ab[i].date == d;
      if i < |a| { assert ab[i] == a[i]; } else { assert ab[i] == b[i - |a|]; }
    }
    forall d | d in StoredDates(a, coin) ensures d in StoredDates(ab, coin) {
      var i :| 0 <= i < |a| && a[i].coin == coin && a[i].date == d;
      assert ab[i] == a[i];
    }
    forall d | d in StoredDates(b, coin) ensures d in StoredDates(ab, coin) {
      var i :| 0 <= i < |b| && b[i].coin == coin && b[i].date == d;
      assert ab[|a| + i] == b[i];
    }
  }

  lemma TagDates(coin: Coin, other: Coin, frame: seq<Row>)
    ensures StoredDates(Tag(coin, frame), other) == if other == coin then FrameDates(frame) else {}
  {
    var t := Tag(coin, frame);
    if other == coin {
      forall d | d in FrameDates(frame) ensures d in StoredDates(t, coin) {
        var i :| 0 <= i < |frame| && DateOf(frame[i]) == d;
        assert t[i].coin == coin && t[i].date == d;
      }
    }
  }

  /** save_to_db adds exactly the frame's rows whose date is not yet stored for the
      coin: the old rows stay as they were, in front; after it the coin's stored
      dates are the old ones plus the frame's; other coins are untouched; and the
      primary key keeps holding. */
  lemma AppendAddsExactlyNewDates(t: seq<PriceRow>, coin: Coin, frame: seq<Row>, t': seq<PriceRow>)
    requires KeysUnique(t)
    requires Append(t, coin, frame) == Success(t')
    ensures t' == t + Tag(coin, NewRows(t, coin, frame))
    ensures forall x :: x in NewRows(t, coin, frame) <==> x in frame && x.date !in StoredDates(t, coin)
    ensures StoredDates(t', coin) == StoredDates(t, coin) + FrameDates(frame)
    ensures forall other :: other != coin ==> CoinRows(t', other) == CoinRows(t, other)
    ensures KeysUnique(t')
  {
    var incoming := NewRows(t, coin, frame);
    var added := Tag(coin, incoming);
    StoredDatesConcat(t, added, coin);
    TagDates(coin, coin, incoming);
    FilterNewDates(frame, StoredDates(t, coin));
    forall other | other != coin ensures CoinRows(t', other) == CoinRows(t, other) {
      CoinRowsOfOtherAppend(t, added, other);
    }
    forall i, j | 0 <= i < j < |t'| ensures t'[i].coin != t'[j].coin || t'[i].date != t'[j].date {
      if j >= |t| {
        assert t'[j] == added[j - |t|];
        if i >= |t| {
          assert t'[i] == added[i - |t|];
        } else {
          assert t'[i] == t[i];
          if t[i].coin == coin {
            assert t[i].date in StoredDates(t, coin);
            assert incoming[j - |t|] in incoming;
          }
        }
      }
    }
  }

  lemma {:induction false} CoinRowsOfOtherAppend(t: seq<PriceRow>, added: seq<PriceRow>, other: Coin)
    requires forall i :: 0 <= i < |added| ==> added[i].coin != other
    ensures CoinRows(t + added, other) == CoinRows(t, other)
  {
    if t == [] {
      assert t + added == added;
      CoinRowsOfOthers(added, other);
    } else {
      assert (t + added)[1..] == t[1..] + added;
      CoinRowsOfOtherAppend(t[1..], added, other);
    }
  }

  lemma {:induction false} CoinRowsOfOthers(t: seq<PriceRow>, other: Coin)
    requires forall i :: 0 <= i < |t| ==> t[i].coin != other
    ensures CoinRows(t, other) == []
  {
    if t != [] {
      CoinRowsOfOthers(t[1..], other);
    }
  }

  /** Two rows of the frame share a date. */
  ghost predicate RepeatsDate(s: seq<Row>)
  {
    exists i, j :: 0 <= i < j < |s| && s[i].date == s[j].date
  }

  /** Two rows of the frame share a date that is not among `existing`. */
  ghost predicate RepeatsDateOutside(s: seq<Row>, existing: set<Instant>)
  {
    exists i, j :: 0 <= i < j < |s| && s[i].date == s[j].date && s[i].date !in existing
  }

  lemma RepeatsDateCons(x: Row, s: seq<Row>)
    ensures RepeatsDate([x] + s) <==> x.date in FrameDates(s) || RepeatsDate(s)
  {
    var xs := [x] + s;
    if x.date in FrameDates(s) {
      var k :| 0 <= k < |s| && DateOf(s[k]) == x.date;
      assert xs[0].date == xs[k + 1].date;
    }
    if RepeatsDate(s) {
      var i, j :| 0 <= i < j < |s| && s[i].date == s[j].date;
      assert xs[i + 1].date == xs[j + 1].date;
    }
    if RepeatsDate(xs) {
      var i, j :| 0 <= i < j < |xs| && xs[i].date == xs[j].date;
      if i == 0 {
        assert DateOf(s[j - 1]) == x.date;
      } else {
        assert s[i - 1].date == s[j - 1].date;
      }
    }
  }

  lemma RepeatsDateOutsideCons(x: Row, s: seq<Row>, existing: set<Instant>)
    ensures RepeatsDateOutside([x] + s, existing) <==>
            (x.date !in existing && x.date in FrameDates(s)) || RepeatsDateOutside(s, existing)
  {
    var xs := [x] + s;
    if x.date !in existing && x.date in FrameDates(s) {
      var k :| 0 <= k < |s| && DateOf(s[k]) == x.date;
      assert xs[0].date == xs[k + 1].date;
    }
    if RepeatsDateOutside(s, existing) {
      var i, j :| 0 <= i < j < |s| && s[i].date == s[j].date && s[i].date !in existing;
      assert xs[i + 1].date == xs[j + 1].date;
    }
    if RepeatsDateOutside(xs, existing) {
      var i, j :| 0 <= i < j < |xs| && xs[i].date == xs[j].date && xs[i].date !in existing;
      if i == 0 {
        assert DateOf(s[j - 1]) == x.date;
      } else {
        assert s[i - 1].date == s[j - 1].date;
      }
    }
  }

  /** The dates the filter of save_to_db keeps are exactly the frame's dates not yet stored. */
  lemma FilterNewDates(frame: seq<Row>, existing: set<Instant>)
    ensures FrameDates(Filter(frame, (r: Row) => r.date !in existing)) == FrameDates(frame) - existing
  {
    var incoming := Filter(frame, (r: Row) => r.date !in existing);
    forall d | d in FrameDates(incoming) ensures d in FrameDates(frame) - existing {
      var i :| 0 <= i < |incoming| && DateOf(incoming[i]) == d;
      assert incoming[i] in incoming;
      var k :| 0 <= k < |frame| && frame[k] == incoming[i];
    }
    forall d | d in FrameDates(frame) - existing ensures d in FrameDates(incoming) {
      var k :| 0 <= k < |frame| && DateOf(frame[k]) == d;
      assert frame[k] in incoming;
      var i :| 0 <= i < |incoming| && incoming[i] == frame[k];
    }
  }

  /** The filtered frame repeats a date exactly when the frame repeats a date the
      filter keeps. */
  lemma {:induction false} RepeatsNewDateIff(frame: seq<Row>, existing: set<Instant>)
    ensures RepeatsDate(Filter(frame, (r: Row) => r.date !in existing)) <==> RepeatsDateOutside(frame, existing)
  {
    if frame != [] {
      var keep := (r: Row) => r.date !in existing;
      var x, tail := frame[0], frame[1..];
      var ftail := Filter(tail, keep);
      assert frame == [x] + tail;
      RepeatsNewDateIff(tail, existing);
      RepeatsDateOutsideCons(x, tail, existing);
      if keep(x) {
        assert Filter(frame, keep) == [x] + ftail;
        RepeatsDateCons(x, ftail);
        FilterNewDates(tail, existing);
      } else {
        assert Filter(frame, keep) == ftail;
      }
    }
  }

  /** save_to_db raises exactly when two of the frame's rows carry the same date and
      that date is not stored yet; it then changes nothing. */
  lemma AppendFailsIff(t: seq<PriceRow>, coin: Coin, frame: seq<Row>)
    ensures Append(t, coin, frame).Failure? <==> RepeatsDateOutside(frame, StoredDates(t, coin))
    ensures Append(t, coin, frame).Failure? ==> AfterSave(t, coin, frame) == t
  {
    RepeatsNewDateIff(frame, StoredDates(t, coin));
  }

  /** Saving the same frame twice leaves the table as saving it once. */
  lemma SaveIdempotent(t: seq<PriceRow>, coin: Coin, frame: seq<Row>)
    requires KeysUnique(t)
    ensures AfterSave(AfterSave(t, coin, frame), coin, frame) == AfterSave(t, coin, frame)
    ensures Append(AfterSave(t, coin, frame), coin, frame).Success? <== Append(t, coin, frame).Success?
  {
    match Append(t, coin, frame)
    case Failure(_) =>
    case Success(t') =>
      AppendAddsExactlyNewDates(t, coin, frame, t');
      var again := NewRows(t', coin, frame);
      var existing := StoredDates(t', coin);
      forall i | 0 <= i < |frame| ensures frame[i].date in existing {
        assert DateOf(frame[i]) in FrameDates(frame);
      }
      FilterDropsAll(frame, (r: Row) => r.date !in existing);
      assert again == [];
      assert t' + Tag(coin, []) == t';
  }

  /** `load_from_db(coin_id)`: None when nothing is stored for the coin. */
  function LoadFromDb(t: seq<PriceRow>, coin: Coin): (r: Option<seq<Row>>)
    ensures r.None? <==> StoredDates(t, coin) == {}
    ensures r.Some? ==> forall x :: x in r.value <==> PriceRow(coin, x.date, x.price) in t
  {
    var s := CoinRows(t, coin);
    if s == [] then None else Some(s)
  }

  /** `process_price_data_from_db(coin_id)`: the coin's rows ordered by date
      ascending, or the error for a coin with no rows. */
  function ProcessPriceDataFromDb(t: seq<PriceRow>, coin: Coin): (r: Result<seq<Row>, NoPriceData>)
    ensures r.Failure? <==> StoredDates(t, coin) == {}
    ensures r.Success? ==> SortedBy(r.value, DateOf) && multiset(r.value) == multiset(CoinRows(t, coin))
  {
    var s := CoinRows(t, coin);
    if s == [] then Failure(NoPriceData(coin)) else Success(SortBy(s, DateOf))
  }

  /** The series `process_price_data_from_db` returns holds exactly the coin's stored rows. */
  lemma FromDbRows(t: seq<PriceRow>, coin: Coin, x: Row)
    requires ProcessPriceDataFromDb(t, coin).Success?
    ensures x in ProcessPriceDataFromDb(t, coin).value <==> PriceRow(coin, x.date, x.price) in t
  {
    var s := CoinRows(t, coin);
    var r := ProcessPriceDataFromDb(t, coin).value;
    assert x in r <==> x in multiset(r);
    assert x in s <==> x in multiset(s);
  }

  /** With the primary key holding, a coin's series has one row per date. */
  lemma CoinRowsUniqueDates(t: seq<PriceRow>, coin: Coin, x: Row, y: Row)
    requires KeysUnique(t)
    requires x in CoinRows(t, coin) && y in CoinRows(t, coin) && x.date == y.date
    ensures x == y
  {
    var i :| 0 <= i < |t| && t[i] == PriceRow(coin, x.date, x.price);
    var j :| 0 <= j < |t| && t[j] == PriceRow(coin, y.date, y.price);
    assert i == j;
  }

  /** With the primary key holding, a coin's series has one row per date. */
  lemma CoinRowsUnique(t: seq<PriceRow>, coin: Coin)
    requires KeysUnique(t)
    ensures UniqueBy(CoinRows(t, coin), DateOf)
  {
    var s := CoinRows(t, coin);
    forall i, j | 0 <= i < j < |s| ensures DateOf(s[i]) != DateOf(s[j]) {
      assert s[i] in s && s[j] in s;
      if s[i].date == s[j].date {
        CoinRowsUniqueDates(t, coin, s[i], s[j]);
      }
    }
  }

  /** A coin's series carries exactly the coin's stored dates. */
  lemma {:induction false} CoinRowsDates(t: seq<PriceRow>, coin: Coin)
    ensures KeysOf(CoinRows(t, coin), DateOf) == StoredDates(t, coin)
  {
    if t != [] {
      CoinRowsDates(t[1..], coin);
      var head: set<Instant> := if t[0].coin == coin then {t[0].date} else {};
      assert StoredDates(t, coin) == head + StoredDates(t[1..], coin) by {
        assert t == [t[0]] + t[1..];
        StoredDatesConcat([t[0]], t[1..], coin);
      }
      if t[0].coin == coin {
        KeysOfConcat([Row(t[0].date, t[0].price)], CoinRows(t[1..], coin), DateOf);
      }
    }
  }

  /** Re-saving stored rows followed by rows of new, distinct dates appends exactly
      the latter. */
  lemma AppendStoredThenNew(t: seq<PriceRow>, coin: Coin, stored: seq<Row>, extra: seq<Row>)
    requires KeysUnique(t)
    requires KeysOf(stored, DateOf) <= StoredDates(t, coin)
    requires KeysOf(extra, DateOf) !! StoredDates(t, coin)
    requires UniqueBy(extra, DateOf)
    ensures Append(t, coin, stored + extra) == Success(t + Tag(coin, extra))
  {
    var existing := StoredDates(t, coin);
    var keep := (r: Row) => r.date !in existing;
    FilterConcat(stored, extra, keep);
    forall i | 0 <= i < |stored| ensures !keep(stored[i]) {
      assert DateOf(stored[i]) in KeysOf(stored, DateOf);
    }
    FilterDropsAll(stored, keep);
    forall i | 0 <= i < |extra| ensures keep(extra[i]) {
      assert DateOf(extra[i]) in KeysOf(extra, DateOf);
    }
    FilterKeepsAll(extra, keep);
    assert NewRows(t, coin, stored + extra) == extra;
  }

  /** The `prices` table. */
  class Store {
    var rows: seq<PriceRow>

    ghost predicate Valid()
      reads this
    {
      KeysUnique(rows)
    }

    constructor ()
      ensures Valid() && rows == []
    {
      rows := [];
    }

    /** `save_to_db(df, coin_id)`. */
    method SaveToDb(frame: seq<Row>, coin: Coin) returns (o: Outcome<StoreError>)
      requires Valid()
      modifies this
      ensures Valid()
      ensures rows == AfterSave(old(rows), coin, frame)
      ensures o == if Append(old(rows), coin, frame).Success? then Pass else Fail(IntegrityError)
    {
      var existingDates := StoredDates(rows, coin);
      var incoming := Filter(frame, (r: Row) => r.date !in existingDates);
      if exists i, j :: 0 <= i < j < |incoming| && incoming[i].date == incoming[j].date {
        return Fail(IntegrityError);
      }
      ghost var before := rows;
      rows := rows + Tag(coin, incoming);
      AppendAddsExactlyNewDates(before, coin, frame, rows);
      o := Pass;
    }
  }
}
