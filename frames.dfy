/** The handful of data-frame operations the application relies on, over
    sequences of rows: row selection by a mask, sorting by a column,
    `drop_duplicates(subset=[col])` (first occurrence kept) and the inner merge
    of two frames on a column. Columns are given as key functions. */
module Frames {

  /** Rows of `s` for which `keep` holds, in their original order (`df[mask]`). */
  function Filter<T(==)>(s: seq<T>, keep: T -> bool): (r: seq<T>)
    ensures |r| <= |s|
    ensures forall x | x in r :: x in s && keep(x)
    ensures forall x | x in s && keep(x) :: x in r
  {
    if s == [] then []
    else if keep(s[0]) then [s[0]] + Filter(s[1..], keep)
    else Filter(s[1..], keep)
  }

  lemma {:induction false} FilterKeepsAll<T>(s: seq<T>, keep: T -> bool)
    requires forall i :: 0 <= i < |s| ==> keep(s[i])
    ensures Filter(s, keep) == s
  {
    if s != [] {
      FilterKeepsAll(s[1..], keep);
    }
  }

  lemma {:induction false} FilterDropsAll<T>(s: seq<T>, keep: T -> bool)
    requires forall i :: 0 <= i < |s| ==> !keep(s[i])
    ensures Filter(s, keep) == []
  {
    if s != [] {
      FilterDropsAll(s[1..], keep);
    }
  }

  lemma {:induction false} FilterConcat<T>(a: seq<T>, b: seq<T>, keep: T -> bool)
    ensures Filter(a + b, keep) == Filter(a, keep) + Filter(b, keep)
  {
    if a == [] {
      assert a + b == b;
    } else {
      assert (a + b)[0] == a[0] && (a + b)[1..] == a[1..] + b;
      FilterConcat(a[1..], b, keep);
    }
  }

  ghost predicate SortedBy<T>(s: seq<T>, key: T -> int)
  {
    forall i, j :: 0 <= i < j < |s| ==> key(s[i]) <= key(s[j])
  }

  lemma {:induction false} FilterSorted<T>(s: seq<T>, keep: T -> bool, key: T -> int)
    requires SortedBy(s, key)
    ensures SortedBy(Filter(s, keep), key)
  {
    if s != [] {
      FilterSorted(s[1..], keep, key);
      var rest := Filter(s[1..], keep);
      if keep(s[0]) {
        forall k | 0 <= k < |rest| ensures key(s[0]) <= key(rest[k]) {
          assert rest[k] in rest;
          var m :| 0 <= m < |s[1..]| && s[1..][m] == rest[k];
          assert s[m + 1] == rest[k];
        }
        SortedCons(s[0], rest, key);
      }
    }
  }

  /** A row no larger than every row of a sorted frame can go in front of it. */
  lemma SortedCons<T>(y: T, s: seq<T>, key: T -> int)
    requires SortedBy(s, key)
    requires forall k :: 0 <= k < |s| ==> key(y) <= key(s[k])
    ensures SortedBy([y] + s, key)
  {
    var r := [y] + s;
    forall i, j | 0 <= i < j < |r| ensures key(r[i]) <= key(r[j]) {
      assert r[j] == s[j - 1];
      if i > 0 { assert r[i] == s[i - 1]; }
    }
  }

  /** Insert `x` into a sorted sequence after every element with a key no larger. */
  function InsertBy<T>(x: T, s: seq<T>, key: T -> int): (r: seq<T>)
    requires SortedBy(s, key)
    ensures SortedBy(r, key)
    ensures multiset(r) == multiset(s) + multiset{x}
  {
    if s == [] then [x]
    else if key(x) < key(s[0]) then
      SortedCons(x, s, key);
      [x] + s
    else
      var rest := InsertBy(x, s[1..], key);
      assert s == [s[0]] + s[1..];
      HeadBelowInsert(x, s, rest, key);
      SortedCons(s[0], rest, key);
      [s[0]] + rest
  }

  /** The head of a sorted sequence, no larger than `x`, is no larger than any row of
      the tail with `x` inserted. */
  lemma HeadBelowInsert<T>(x: T, s: seq<T>, rest: seq<T>, key: T -> int)
    requires SortedBy(s, key) && s != [] && key(s[0]) <= key(x)
    requires multiset(rest) == multiset(s[1..]) + multiset{x}
    ensures forall k :: 0 <= k < |rest| ==> key(s[0]) <= key(rest[k])
  {
    forall k | 0 <= k < |rest| ensures key(s[0]) <= key(rest[k]) {
      assert rest[k] in multiset(rest);
      if rest[k] != x {
        assert rest[k] in multiset(s[1..]);
        var m :| 0 <= m < |s[1..]| && s[1..][m] == rest[k];
        assert s[m + 1] == rest[k];
      }
    }
  }

  /** `sort_values(by=key)`: ascending by key, a permutation of the input. */
  function SortBy<T>(s: seq<T>, key: T -> int): (r: seq<T>)
    ensures SortedBy(r, key)
    ensures multiset(r) == multiset(s)
  {
    if s == [] then []
    else
      assert s == [s[0]] + s[1..];
      InsertBy(s[0], SortBy(s[1..], key), key)
  }

  /** The set of values a column takes. */
  function KeysOf<T>(s: seq<T>, key: T -> int): set<int>
  {
    set i | 0 <= i < |s| :: key(s[i])
  }

  /** No two rows share a key: the column could serve as a primary key. */
  ghost predicate UniqueBy<T>(s: seq<T>, key: T -> int)
  {
    forall i, j :: 0 <= i < j < |s| ==> key(s[i]) != key(s[j])
  }

  lemma KeysOfConcat<T>(a: seq<T>, b: seq<T>, key: T -> int)
    ensures KeysOf(a + b, key) == KeysOf(a, key) + KeysOf(b, key)
  {
    var ab := a + b;
    forall k | k in KeysOf(ab, key) ensures k in KeysOf(a, key) + KeysOf(b, key) {
      var i :| 0 <= i < |ab| && key(ab[i]) == k;
      if i < |a| { assert ab[i] == a[i]; } else { assert ab[i] == b[i - |a|]; }
    }
    forall k | k in KeysOf(a, key) ensures k in KeysOf(ab, key) {
      var i :| 0 <= i < |a| && key(a[i]) == k;
      assert ab[i] == a[i];
    }
    forall k | k in KeysOf(b, key) ensures k in KeysOf(ab, key) {
      var i :| 0 <= i < |b| && key(b[i]) == k;
      assert ab[|a| + i] == b[i];
    }
  }

  /** Two frames without repeated keys and with no key in common concatenate to one
      without repeated keys. */
  lemma UniqueConcat<T>(a: seq<T>, b: seq<T>, key: T -> int)
    requires UniqueBy(a, key) && UniqueBy(b, key)
    requires KeysOf(a, key) !! KeysOf(b, key)
    ensures UniqueBy(a + b, key)
  {
    var ab := a + b;
    forall i, j | 0 <= i < j < |ab| ensures key(ab[i]) != key(ab[j]) {
      if j < |a| {
        assert ab[i] == a[i] && ab[j] == a[j];
      } else if i >= |a| {
        assert ab[i] == b[i - |a|] && ab[j] == b[j - |a|];
      } else {
        assert ab[i] == a[i] && ab[j] == b[j - |a|];
        assert key(a[i]) in KeysOf(a, key);
        assert key(b[j - |a|]) in KeysOf(b, key);
      }
    }
  }

  /** `drop_duplicates(subset=[key])` with pandas' default `keep='first'`. */
  function DropDuplicatesBy<T>(s: seq<T>, key: T -> int): (r: seq<T>)
    ensures UniqueBy(r, key)
    ensures KeysOf(r, key) == KeysOf(s, key)
    ensures multiset(r) <= multiset(s)
  {
    if s == [] then []
    else
      var init := s[..|s| - 1];
      var x := s[|s| - 1];
      var p := DropDuplicatesBy(init, key);
      assert s == init + [x];
      KeysOfConcat(init, [x], key);
      assert KeysOf([x], key) == {key(x)};
      if key(x) in KeysOf(p, key) then p
      else
        KeysOfConcat(p, [x], key);
        assert forall i | 0 <= i < |p| :: key(p[i]) in KeysOf(p, key);
        p + [x]
  }

  lemma {:induction false} DropDuplicatesOfUnique<T>(s: seq<T>, key: T -> int)
    requires UniqueBy(s, key)
    ensures DropDuplicatesBy(s, key) == s
  {
    if s != [] {
      var init := s[..|s| - 1];
      var x := s[|s| - 1];
      assert UniqueBy(init, key);
      DropDuplicatesOfUnique(init, key);
      assert key(x) !in KeysOf(init, key);
      assert s == init + [x];
      DropDuplicatesSnoc(init, x, key);
    }
  }

  /** De-duplicating one more row: it is kept exactly when its key is new. */
  lemma DropDuplicatesSnoc<T>(s: seq<T>, x: T, key: T -> int)
    ensures DropDuplicatesBy(s + [x], key) ==
              if key(x) in KeysOf(DropDuplicatesBy(s, key), key) then DropDuplicatesBy(s, key)
              else DropDuplicatesBy(s, key) + [x]
  {
    var sx := s + [x];
    assert sx[..|sx| - 1] == s;
    assert sx[|sx| - 1] == x;
  }

  /** Row j is the first row of `s` with its key. */
  ghost predicate FirstOfKey<T>(s: seq<T>, j: int, key: T -> int)
    requires 0 <= j < |s|
  {
    forall k :: 0 <= k < j ==> key(s[k]) != key(s[j])
  }

  /** One more row at the end: earlier rows keep their status, and the new row is
      the first of its key exactly when the key is new. */
  lemma FirstOfKeySnoc<T>(init: seq<T>, x: T, key: T -> int)
    ensures forall j :: 0 <= j < |init| ==> (FirstOfKey(init + [x], j, key) <==> FirstOfKey(init, j, key))
    ensures FirstOfKey(init + [x], |init|, key) <==> key(x) !in KeysOf(init, key)
  {
    var s := init + [x];
    forall j | 0 <= j < |init| ensures FirstOfKey(s, j, key) <==> FirstOfKey(init, j, key) {
      assert forall k :: 0 <= k <= j ==> s[k] == init[k];
    }
    if key(x) in KeysOf(init, key) {
      var k :| 0 <= k < |init| && key(init[k]) == key(x);
      assert s[k] == init[k];
    } else {
      forall k | 0 <= k < |init| ensures key(s[k]) != key(x) {
        assert s[k] == init[k];
        assert key(init[k]) in KeysOf(init, key);
      }
    }
  }

  /** keep='first': every kept row is the first row of its key in the input. */
  lemma {:induction false} KeptAreFirst<T>(s: seq<T>, key: T -> int)
    ensures forall i :: 0 <= i < |DropDuplicatesBy(s, key)| ==>
              exists j :: 0 <= j < |s| && DropDuplicatesBy(s, key)[i] == s[j] && FirstOfKey(s, j, key)
  {
    if s != [] {
      var init := s[..|s| - 1];
      var x := s[|s| - 1];
      assert s == init + [x];
      KeptAreFirst(init, key);
      DropDuplicatesSnoc(init, x, key);
      FirstOfKeySnoc(init, x, key);
      var p := DropDuplicatesBy(init, key);
      var r := DropDuplicatesBy(s, key);
      forall i | 0 <= i < |r| ensures exists j :: 0 <= j < |s| && r[i] == s[j] && FirstOfKey(s, j, key) {
        if i < |p| {
          var j :| 0 <= j < |init| && p[i] == init[j] && FirstOfKey(init, j, key);
          assert r[i] == s[j] && FirstOfKey(s, j, key);
        } else {
          assert r[i] == s[|init|] && FirstOfKey(s, |init|, key);
        }
      }
    } else {
      assert DropDuplicatesBy(s, key) == [];
    }
  }

  /** keep='first': every row that is the first of its key in the input is kept. */
  lemma {:induction false} FirstsAreKept<T>(s: seq<T>, key: T -> int)
    ensures forall j :: 0 <= j < |s| && FirstOfKey(s, j, key) ==> s[j] in DropDuplicatesBy(s, key)
  {
    if s != [] {
      var init := s[..|s| - 1];
      var x := s[|s| - 1];
      assert s == init + [x];
      FirstsAreKept(init, key);
      DropDuplicatesSnoc(init, x, key);
      FirstOfKeySnoc(init, x, key);
      var p := DropDuplicatesBy(init, key);
      forall j | 0 <= j < |s| && FirstOfKey(s, j, key) ensures s[j] in DropDuplicatesBy(s, key) {
        if j < |init| {
          assert s[j] == init[j] && FirstOfKey(init, j, key);
          assert s[j] in p;
        } else {
          assert key(x) !in KeysOf(init, key);
          assert DropDuplicatesBy(s, key) == p + [x];
        }
      }
    }
  }

  /** Appending rows whose keys are all new to an already de-duplicated frame and
      de-duplicating the whole leaves the first part untouched. */
  lemma {:induction false} DropDuplicatesAppend<T>(a: seq<T>, b: seq<T>, key: T -> int)
    requires UniqueBy(a, key)
    requires KeysOf(a, key) !! KeysOf(b, key)
    ensures DropDuplicatesBy(a + b, key) == a + DropDuplicatesBy(b, key)
  {
    if b == [] {
      assert a + b == a;
      DropDuplicatesOfUnique(a, key);
    } else {
      var init := b[..|b| - 1];
      var x := b[|b| - 1];
      assert b == init + [x];
      KeysOfConcat(init, [x], key);
      DropDuplicatesAppend(a, init, key);
      DropDuplicatesAppendStep(a, init, x, key);
    }
  }

  /** A key missing from the first part is in the whole exactly when it is in the rest. */
  lemma NewKeyBehindPrefix<T>(a: seq<T>, p: seq<T>, k: int, key: T -> int)
    requires k !in KeysOf(a, key)
    ensures k in KeysOf(a + p, key) <==> k in KeysOf(p, key)
  {
    KeysOfConcat(a, p, key);
  }

  /** The inductive step of DropDuplicatesAppend: one more row with a new key. */
  lemma DropDuplicatesAppendStep<T>(a: seq<T>, init: seq<T>, x: T, key: T -> int)
    requires key(x) !in KeysOf(a, key)
    requires DropDuplicatesBy(a + init, key) == a + DropDuplicatesBy(init, key)
    ensures DropDuplicatesBy(a + (init + [x]), key) == a + DropDuplicatesBy(init + [x], key)
  {
    var p := DropDuplicatesBy(init, key);
    var q := DropDuplicatesBy(a + init, key);
    var c := key(x) in KeysOf(p, key);
    NewKeyBehindPrefix(a, p, key(x), key);
    assert DropDuplicatesBy(a + (init + [x]), key) == if c then q else q + [x] by {
      assert a + (init + [x]) == (a + init) + [x];
      DropDuplicatesSnoc(a + init, x, key);
    }
    assert DropDuplicatesBy(init + [x], key) == if c then p else p + [x] by {
      DropDuplicatesSnoc(init, x, key);
    }
    ConcatAssoc(a, p, [x]);
  }

  lemma ConcatAssoc<T>(a: seq<T>, b: seq<T>, c: seq<T>)
    ensures (a + b) + c == a + (b + c)
  {
  }

  /** The rows of an inner merge contributed by one left row, in right-frame order. */
  function Matches<L, R, O>(x: L, r: seq<R>, lk: L -> int, rk: R -> int, combine: (L, R) -> O): seq<O>
  {
    if r == [] then []
    else (if lk(x) == rk(r[0]) then [combine(x, r[0])] else []) + Matches(x, r[1..], lk, rk, combine)
  }

  /** `pd.merge(left, right, on=key, how="inner")`: one output row per pair of a
      left row and a right row with equal keys, in left-frame order. */
  function InnerJoin<L, R, O>(l: seq<L>, r: seq<R>, lk: L -> int, rk: R -> int, combine: (L, R) -> O): seq<O>
  {
    if l == [] then []
    else Matches(l[0], r, lk, rk, combine) + InnerJoin(l[1..], r, lk, rk, combine)
  }

  lemma {:induction false} MatchesMembership<L, R, O>(x: L, r: seq<R>, lk: L -> int, rk: R -> int, combine: (L, R) -> O, o: O)
    ensures o in Matches(x, r, lk, rk, combine) <==> exists j :: 0 <= j < |r| && lk(x) == rk(r[j]) && o == combine(x, r[j])
  {
    if r != [] {
      MatchesMembership(x, r[1..], lk, rk, combine, o);
      if exists j :: 0 <= j < |r| && lk(x) == rk(r[j]) && o == combine(x, r[j]) {
        var j :| 0 <= j < |r| && lk(x) == rk(r[j]) && o == combine(x, r[j]);
        if j > 0 { assert r[1..][j - 1] == r[j]; }
      }
      if exists j :: 0 <= j < |r[1..]| && lk(x) == rk(r[1..][j]) && o == combine(x, r[1..][j]) {
        var j :| 0 <= j < |r[1..]| && lk(x) == rk(r[1..][j]) && o == combine(x, r[1..][j]);
        assert r[1..][j] == r[j + 1];
      }
    }
  }

  /** A merged row is exactly a combination of a left row and a right row whose keys agree. */
  lemma {:induction false} InnerJoinMembership<L, R, O>(l: seq<L>, r: seq<R>, lk: L -> int, rk: R -> int, combine: (L, R) -> O, o: O)
    ensures o in InnerJoin(l, r, lk, rk, combine) <==>
            exists i, j :: 0 <= i < |l| && 0 <= j < |r| && lk(l[i]) == rk(r[j]) && o == combine(l[i], r[j])
  {
    if l != [] {
      MatchesMembership(l[0], r, lk, rk, combine, o);
      InnerJoinMembership(l[1..], r, lk, rk, combine, o);
      if exists i, j :: 0 <= i < |l| && 0 <= j < |r| && lk(l[i]) == rk(r[j]) && o == combine(l[i], r[j]) {
        var i, j :| 0 <= i < |l| && 0 <= j < |r| && lk(l[i]) == rk(r[j]) && o == combine(l[i], r[j]);
        if i > 0 { assert l[1..][i - 1] == l[i]; }
      }
      if exists i, j :: 0 <= i < |l[1..]| && 0 <= j < |r| && lk(l[1..][i]) == rk(r[j]) && o == combine(l[1..][i], r[j]) {
        var i, j :| 0 <= i < |l[1..]| && 0 <= j < |r| && lk(l[1..][i]) == rk(r[j]) && o == combine(l[1..][i], r[j]);
        assert l[1..][i] == l[i + 1];
      }
    }
  }

  /** In a frame sorted by a column, the last row carries the column's largest value. */
  lemma SortedLastIsMax<T>(s: seq<T>, key: T -> int, i: int)
    requires SortedBy(s, key) && 0 <= i < |s|
    ensures key(s[i]) <= key(s[|s| - 1])
  {
  }
}
