/** The `investments` table of processing.py: one row per (coin_id, date,
    investor), inserted with `insert_investment`, removed with
    `delete_investment` and read back with `get_all_investments` and
    `get_investments_by_coin`. The table is the sequence of its rows in storage
    order; a row's date is the calendar day its "YYYY-MM-DD" text names. */
module Investments {
  import opened Common
  import opened Frames

  /** A row of table `investments`: coin_id, date, investor, amount, note. */
  datatype Investment = Investment(coin: string, date: Day, investor: string, amount: real, note: string)

  /** The table's primary key (coin_id, date, investor). */
  datatype Key = Key(coin: string, date: Day, investor: string)

  function KeyOf(inv: Investment): Key
  {
    Key(inv.coin, inv.date, inv.investor)
  }

  /** The keys present in the table. */
  function Keys(rows: seq<Investment>): set<Key>
  {
    set i | 0 <= i < |rows| :: KeyOf(rows[i])
  }

  /** The primary key holds: no two rows share (coin_id, date, investor). */
  ghost predicate KeysDistinct(rows: seq<Investment>)
  {
    forall i, j :: 0 <= i < j < |rows| ==> KeyOf(rows[i]) != KeyOf(rows[j])
  }

  /** `INSERT INTO investments ...` as a function of the table: the table with the
      row appended, or None when SQLite rejects the duplicate key. */
  function Inserted(rows: seq<Investment>, inv: Investment): (r: Option<seq<Investment>>)
    // rejected exactly when a stored row already carries the key
    ensures r.None? <==> exists x :: x in rows && KeyOf(x) == KeyOf(inv)
    // accepted: one row more, the stored ones and the new one
    ensures r.Some? ==> |r.value| == |rows| + 1 && forall x :: x in r.value <==> x in rows || x == inv
  {
    if KeyOf(inv) in Keys(rows) then
      var i :| 0 <= i < |rows| && KeyOf(rows[i]) == KeyOf(inv);
      assert rows[i] in rows;
      None
    else
      assert forall x :: x in rows ==> KeyOf(x) in Keys(rows) by {
        forall x | x in rows ensures KeyOf(x) in Keys(rows) {
          var i :| 0 <= i < |rows| && rows[i] == x;
        }
      }
      Some(rows + [inv])
  }

  /** `DELETE FROM investments WHERE coin_id = ? AND date = ? AND investor = ?`. */
  function Without(rows: seq<Investment>, k: Key): (r: seq<Investment>)
    ensures |r| <= |rows|
    ensures forall x :: x in r <==> x in rows && KeyOf(x) != k
  {
    Filter(rows, (inv: Investment) => KeyOf(inv) != k)
  }

  /** SQLite's LOWER(): ASCII letters only. */
  function Lower(c: char): char
  {
    if 'A' <= c <= 'Z' then (c as int + 32) as char else c
  }

  function Upper(c: char): char
  {
    if 'a' <= c <= 'z' then (c as int - 32) as char else c
  }

  function LowerStr(s: string): (r: string)
    ensures |r| == |s|
    ensures forall i :: 0 <= i < |s| ==> r[i] == Lower(s[i])
  {
    seq(|s|, i requires 0 <= i < |s| => Lower(s[i]))
  }

  function UpperStr(s: string): (r: string)
    ensures |r| == |s|
    ensures forall i :: 0 <= i < |s| ==> r[i] == Upper(s[i])
  {
    seq(|s|, i requires 0 <= i < |s| => Upper(s[i]))
  }

  /** A row of `get_investments_by_coin`: date (parsed, so midnight of the day),
      amount, note, investor. */
  datatype CoinInvestment = CoinInvestment(date: Instant, amount: real, note: string, investor: string)

  function Project(inv: Investment): CoinInvestment
  {
    CoinInvestment(StartOf(inv.date), inv.amount, inv.note, inv.investor)
  }

  /** `WHERE LOWER(coin_id) = LOWER(?)`. */
  predicate SameCoin(inv: Investment, coin: string)
  {
    LowerStr(inv.coin) == LowerStr(coin)
  }

  /** `get_investments_by_coin(coin_id)`, in storage order. */
  function ListByCoin(rows: seq<Investment>, coin: string): (r: seq<CoinInvestment>)
    ensures |r| <= |rows|
    // `pd.to_datetime` of a date: every listed date is the midnight of its own day
    ensures forall i :: 0 <= i < |r| ==> r[i].date == StartOf(DayOf(r[i].date))
  {
    if rows == [] then []
    else
      DayOfStart(rows[0].date);
      (if SameCoin(rows[0], coin) then [Project(rows[0])] else []) + ListByCoin(rows[1..], coin)
  }

  /** The sort key of `ORDER BY date DESC`: larger dates first. */
  function NewestFirst(inv: Investment): int
  {
    -inv.date
  }

  /** `get_all_investments()`: every row, by date descending. */
  function ListAll(rows: seq<Investment>): (r: seq<Investment>)
    ensures forall i, j :: 0 <= i < j < |r| ==> r[i].date >= r[j].date
    ensures multiset(r) == multiset(rows)
  {
    var s := SortBy(rows, NewestFirst);
    assert forall i, j :: 0 <= i < j < |s| ==> NewestFirst(s[i]) <= NewestFirst(s[j]);
    s
  }

  /** An insert succeeds exactly when the key is new, and then adds exactly that row;
      a rejected insert leaves the table as it was. */
  lemma InsertedExactly(rows: seq<Investment>, inv: Investment)
    requires KeysDistinct(rows)
    ensures Inserted(rows, inv).Some? <==> KeyOf(inv) !in Keys(rows)
    ensures Inserted(rows, inv).Some? ==>
              var r := Inserted(rows, inv).value;
              && Keys(r) == Keys(rows) + {KeyOf(inv)}
              && KeysDistinct(r)
  {
    if KeyOf(inv) !in Keys(rows) {
      var r := rows + [inv];
      forall k | k in Keys(r) ensures k in Keys(rows) + {KeyOf(inv)} {
        var i :| 0 <= i < |r| && KeyOf(r[i]) == k;
        if i < |rows| { assert r[i] == rows[i]; }
      }
      forall k | k in Keys(rows) ensures k in Keys(r) {
        var i :| 0 <= i < |rows| && KeyOf(rows[i]) == k;
        assert r[i] == rows[i];
      }
      assert KeyOf(r[|rows|]) in Keys(r);
      forall i, j | 0 <= i < j < |r| ensures KeyOf(r[i]) != KeyOf(r[j]) {
        if j == |rows| {
          assert r[i] == rows[i];
          assert KeyOf(rows[i]) in Keys(rows);
        } else {
          assert r[i] == rows[i] && r[j] == rows[j];
        }
      }
    }
  }

  /** Inserting the same key twice: the second insert is rejected. */
  lemma InsertTwiceRejected(rows: seq<Investment>, inv: Investment, again: Investment)
    requires KeysDistinct(rows)
    requires Inserted(rows, inv).Some?
    requires KeyOf(again) == KeyOf(inv)
    ensures Inserted(Inserted(rows, inv).value, again) == None
  {
    InsertedExactly(rows, inv);
  }

  /** A delete removes the rows with exactly that key and nothing else, so a key
      that is not there leaves the table unchanged. */
  lemma WithoutExactly(rows: seq<Investment>, k: Key)
    ensures Keys(Without(rows, k)) == Keys(rows) - {k}
    ensures k !in Keys(rows) ==> Without(rows, k) == rows
  {
    var keep := (inv: Investment) => KeyOf(inv) != k;
    var r := Without(rows, k);
    forall x | x in r ensures KeyOf(x) in Keys(rows) - {k} {
      var i :| 0 <= i < |rows| && rows[i] == x;
    }
    forall q | q in Keys(r) ensures q in Keys(rows) - {k} {
      var i :| 0 <= i < |r| && KeyOf(r[i]) == q;
      assert r[i] in r;
    }
    forall q | q in Keys(rows) - {k} ensures q in Keys(r) {
      var i :| 0 <= i < |rows| && KeyOf(rows[i]) == q;
      assert rows[i] in r;
      var j :| 0 <= j < |r| && r[j] == rows[i];
    }
    if k !in Keys(rows) {
      forall i | 0 <= i < |rows| ensures keep(rows[i]) {
        assert KeyOf(rows[i]) in Keys(rows);
      }
      FilterKeepsAll(rows, keep);
    }
  }

  /** Selecting rows keeps the primary key. */
  lemma {:induction false} FilterKeepsDistinct(rows: seq<Investment>, keep: Investment -> bool)
    requires KeysDistinct(rows)
    ensures KeysDistinct(Filter(rows, keep))
  {
    if rows != [] {
      var rest := Filter(rows[1..], keep);
      assert KeysDistinct(rows[1..]);
      FilterKeepsDistinct(rows[1..], keep);
      if keep(rows[0]) {
        var r := [rows[0]] + rest;
        forall i, j | 0 <= i < j < |r| ensures KeyOf(r[i]) != KeyOf(r[j]) {
          if i > 0 {
            assert r[i] == rest[i - 1] && r[j] == rest[j - 1];
          } else {
            assert r[j] in rows[1..];
            var m :| 0 <= m < |rows[1..]| && rows[1..][m] == r[j];
            assert rows[m + 1] == r[j];
          }
        }
      }
    }
  }

  /** Deleting keeps the primary key. */
  lemma WithoutKeepsDistinct(rows: seq<Investment>, k: Key)
    requires KeysDistinct(rows)
    ensures KeysDistinct(Without(rows, k))
  {
    FilterKeepsDistinct(rows, (inv: Investment) => KeyOf(inv) != k);
  }

  /** `get_investments_by_coin` lists exactly the rows whose coin_id equals the
      argument ignoring ASCII case. */
  lemma {:induction false} ListByCoinExactly(rows: seq<Investment>, coin: string, c: CoinInvestment)
    ensures c in ListByCoin(rows, coin) <==> exists inv :: inv in rows && SameCoin(inv, coin) && c == Project(inv)
  {
    if rows != [] {
      ListByCoinExactly(rows[1..], coin, c);
      if exists inv :: inv in rows && SameCoin(inv, coin) && c == Project(inv) {
        var inv :| inv in rows && SameCoin(inv, coin) && c == Project(inv);
        if inv != rows[0] {
          assert inv in rows[1..];
        }
      }
      if exists inv :: inv in rows[1..] && SameCoin(inv, coin) && c == Project(inv) {
        var inv :| inv in rows[1..] && SameCoin(inv, coin) && c == Project(inv);
        assert inv in rows;
      }
    }
  }

  lemma LowerOfUpper(s: string)
    ensures LowerStr(UpperStr(s)) == LowerStr(s)
  {
    forall i | 0 <= i < |s| ensures Lower(Upper(s[i])) == Lower(s[i]) {
    }
  }

  /** The coin argument's case does not matter: "Bitcoin", "BITCOIN" and "bitcoin"
      list the same rows. */
  lemma {:induction false} ListByCoinIgnoresCase(rows: seq<Investment>, coin: string, other: string)
    requires LowerStr(coin) == LowerStr(other)
    ensures ListByCoin(rows, coin) == ListByCoin(rows, other)
  {
    if rows != [] {
      ListByCoinIgnoresCase(rows[1..], coin, other);
    }
  }

  lemma ListByCoinUpper(rows: seq<Investment>, coin: string)
    ensures ListByCoin(rows, UpperStr(coin)) == ListByCoin(rows, coin)
  {
    LowerOfUpper(coin);
    ListByCoinIgnoresCase(rows, UpperStr(coin), coin);
  }

  /** `get_all_investments` holds the same rows as the table. */
  lemma ListAllRows(rows: seq<Investment>, x: Investment)
    ensures x in ListAll(rows) <==> x in rows
  {
    assert x in ListAll(rows) <==> x in multiset(ListAll(rows));
  }

  /** The table, with the operations processing.py runs on it. */
  class Ledger {
    var rows: seq<Investment>

    ghost predicate Valid()
      reads this
    {
      KeysDistinct(rows)
    }

    constructor()
      ensures Valid() && rows == []
    {
      rows := [];
    }

    /** `insert_investment(coin_id, date, investor, amount, note)`: True and the row
        added, or False (the IntegrityError caught) and the table untouched. */
    method Insert(inv: Investment) returns (ok: bool)
      requires Valid()
      modifies this
      ensures Valid()
      ensures ok <==> KeyOf(inv) !in Keys(old(rows))
      ensures rows == if ok then old(rows) + [inv] else old(rows)
    {
      InsertedExactly(rows, inv);
      var r := Inserted(rows, inv);
      if r.None? {
        return false;
      }
      rows := r.value;
      return true;
    }

    /** `delete_investment(coin_id, date, investor)`. */
    method Delete(coin: string, date: Day, investor: string)
      requires Valid()
      modifies this
      ensures Valid()
      ensures rows == Without(old(rows), Key(coin, date, investor))
    {
      WithoutKeepsDistinct(rows, Key(coin, date, investor));
      rows := Without(rows, Key(coin, date, investor));
    }

    /** `get_all_investments()`. */
    function All(): seq<Investment>
      reads this
    {
      ListAll(rows)
    }

    /** `get_investments_by_coin(coin_id)`. */
    function ByCoin(coin: string): seq<CoinInvestment>
      reads this
    {
      ListByCoin(rows, coin)
    }
  }
}
