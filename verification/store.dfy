/** The repositories behind the services: a table of records keyed by an
    identity column. A new row takes the next id, ids are never reused, and
    a listing walks the ids in ascending order. */
module Store {
  import opened Common

  /** Rows by id, and the id the next insert will take. */
  datatype Table<V> = Table(rows: map<int, V>, next: int)
  {
    /** Every stored id was handed out earlier. */
    predicate Valid()
    {
      1 <= next && forall id :: id in rows ==> 1 <= id < next
    }
  }

  function Empty<V>(): (t: Table<V>)
    ensures t.Valid() && t.rows == map[]
  {
    Table(map[], 1)
  }

  function Find<V>(t: Table<V>, id: int): (r: Option<V>)
    ensures r.Some? <==> id in t.rows
    ensures r.Some? ==> t.rows[id] == r.value
  {
    if id in t.rows then Some(t.rows[id]) else None
  }

  /** `save` of a new entity: the row is stored under a fresh id, which is
      returned with the new table. */
  function Insert<V>(t: Table<V>, v: V): (r: (Table<V>, int))
    requires t.Valid()
    ensures r.0.Valid()
    ensures r.1 !in t.rows
    ensures r.0.rows == t.rows[r.1 := v]
    ensures r.0.next > r.1
  {
    (Table(t.rows[t.next := v], t.next + 1), t.next)
  }

  /** `save` of an entity that was loaded: its row is replaced in place. */
  function Update<V>(t: Table<V>, id: int, v: V): (r: Table<V>)
    requires id in t.rows
    ensures r.rows == t.rows[id := v] && r.rows.Keys == t.rows.Keys
    ensures t.Valid() ==> r.Valid()
  {
    Table(t.rows[id := v], t.next)
  }

  /** `delete` of a loaded entity. */
  function Remove<V>(t: Table<V>, id: int): (r: Table<V>)
    ensures r.rows == t.rows - {id} && id !in r.rows
    ensures t.Valid() ==> r.Valid()
  {
    Table(t.rows - {id}, t.next)
  }

  /** The ids of the rows `keep` accepts, ascending from `lo`. */
  function Scan<V>(t: Table<V>, keep: V -> bool, lo: int): (r: seq<int>)
    ensures forall i :: 0 <= i < |r| ==> lo <= r[i] < t.next && r[i] in t.rows && keep(t.rows[r[i]])
    ensures forall i, j :: 0 <= i < j < |r| ==> r[i] < r[j]
    ensures forall id :: lo <= id < t.next && id in t.rows && keep(t.rows[id]) ==> id in r
    decreases t.next - lo
  {
    if lo >= t.next then []
    else
      var rest := Scan(t, keep, lo + 1);
      if lo in t.rows && keep(t.rows[lo]) then [lo] + rest else rest
  }

  /** A derived query (`findByXxx`): the ids of the rows `keep` accepts, in
      ascending id order. */
  function Where<V>(t: Table<V>, keep: V -> bool): (r: seq<int>)
    requires t.Valid()
    ensures forall id :: id in r <==> id in t.rows && keep(t.rows[id])
    ensures Ascending(r)
  {
    Scan(t, keep, 1)
  }

  /** A new row the query accepts is listed after every row it listed before. */
  lemma WhereInsert<V>(t: Table<V>, v: V, keep: V -> bool)
    requires t.Valid() && keep(v)
    ensures Where(Insert(t, v).0, keep) == Where(t, keep) + [Insert(t, v).1]
  {
    ScanInsert(t, v, keep, 1);
  }

  /** A new row the query rejects leaves the listing as it was. */
  lemma WhereInsertOther<V>(t: Table<V>, v: V, keep: V -> bool)
    requires t.Valid() && !keep(v)
    ensures Where(Insert(t, v).0, keep) == Where(t, keep)
  {
    ScanInsertOther(t, v, keep, 1);
  }

  lemma {:induction false} ScanInsert<V>(t: Table<V>, v: V, keep: V -> bool, lo: int)
    requires t.Valid() && keep(v) && lo <= t.next
    ensures Scan(Insert(t, v).0, keep, lo) == Scan(t, keep, lo) + [t.next]
    decreases t.next - lo
  {
    if lo == t.next {
      ScanInsertTop(t, v, keep);
    } else {
      ScanInsert(t, v, keep, lo + 1);
      ScanInsertStep(t, Insert(t, v).0, keep, lo, t.next);
    }
  }

  lemma ScanInsertTop<V>(t: Table<V>, v: V, keep: V -> bool)
    requires t.Valid() && keep(v)
    ensures Scan(Insert(t, v).0, keep, t.next) == Scan(t, keep, t.next) + [t.next]
  {
    var u := Insert(t, v).0;
    assert Scan(u, keep, t.next + 1) == [];
  }

  /** One more id at the bottom of two scans that differ by a last id `n`. */
  lemma ScanInsertStep<V>(t: Table<V>, u: Table<V>, keep: V -> bool, lo: int, n: int)
    requires lo < t.next < u.next && n !in t.rows && lo != n
    requires lo in u.rows <==> lo in t.rows
    requires lo in t.rows ==> u.rows[lo] == t.rows[lo]
    requires Scan(u, keep, lo + 1) == Scan(t, keep, lo + 1) + [n]
    ensures Scan(u, keep, lo) == Scan(t, keep, lo) + [n]
  {
    var rest := Scan(t, keep, lo + 1);
    if lo in t.rows && keep(t.rows[lo]) {
      assert ([lo] + rest) + [n] == [lo] + (rest + [n]);
    }
  }

  lemma {:induction false} ScanInsertOther<V>(t: Table<V>, v: V, keep: V -> bool, lo: int)
    requires t.Valid() && !keep(v) && lo <= t.next
    ensures Scan(Insert(t, v).0, keep, lo) == Scan(t, keep, lo)
    decreases t.next - lo
  {
    var u := Insert(t, v).0;
    if lo == t.next {
      ScanRejectedTop(t, u, keep);
    } else {
      ScanInsertOther(t, v, keep, lo + 1);
      ScanSameStep(t, u, keep, lo);
    }
  }

  lemma ScanRejectedTop<V>(t: Table<V>, u: Table<V>, keep: V -> bool)
    requires u.next == t.next + 1 && t.next in u.rows && !keep(u.rows[t.next])
    ensures Scan(u, keep, t.next) == [] == Scan(t, keep, t.next)
  {
    assert Scan(u, keep, t.next + 1) == [];
  }

  /** One more id at the bottom of two scans that agree above it. */
  lemma ScanSameStep<V>(t: Table<V>, u: Table<V>, keep: V -> bool, lo: int)
    requires lo < t.next < u.next
    requires lo in u.rows <==> lo in t.rows
    requires lo in t.rows ==> u.rows[lo] == t.rows[lo]
    requires Scan(u, keep, lo + 1) == Scan(t, keep, lo + 1)
    ensures Scan(u, keep, lo) == Scan(t, keep, lo)
  {
  }

  predicate Ascending(ids: seq<int>)
  {
    forall i, j :: 0 <= i < j < |ids| ==> ids[i] < ids[j]
  }

  /** The same ids, last first. */
  function Reverse(ids: seq<int>): (r: seq<int>)
    ensures |r| == |ids| && forall i :: 0 <= i < |ids| ==> r[i] == ids[|ids| - 1 - i]
  {
    if |ids| == 0 then [] else Reverse(ids[1..]) + [ids[0]]
  }

  lemma ReverseMembers(ids: seq<int>)
    ensures forall id :: id in Reverse(ids) <==> id in ids
  {
    var r := Reverse(ids);
    forall id | id in ids ensures id in r {
      var i :| 0 <= i < |ids| && ids[i] == id;
      assert r[|ids| - 1 - i] == id;
    }
  }

  /** A stamp column that never decreases along the ids: rows inserted with
      a clock that never runs backwards. */
  predicate Monotone<V>(t: Table<V>, stamp: V -> int)
  {
    forall a, b :: a in t.rows && b in t.rows && a < b ==> stamp(t.rows[a]) <= stamp(t.rows[b])
  }

  /** A row stamped no earlier than every stored row keeps the stamps monotone. */
  lemma InsertMonotone<V>(t: Table<V>, v: V, stamp: V -> int)
    requires t.Valid() && Monotone(t, stamp)
    requires forall id :: id in t.rows ==> stamp(t.rows[id]) <= stamp(v)
    ensures Monotone(Insert(t, v).0, stamp)
  {
    var u := Insert(t, v).0;
    var added := Insert(t, v).1;
    forall a, b | a in u.rows && b in u.rows && a < b
      ensures stamp(u.rows[a]) <= stamp(u.rows[b])
    {
      if b == added {
        assert a in t.rows;
      } else {
        assert a != added;
      }
    }
  }

  /** Listing in descending id order lists newest first under a monotone stamp. */
  lemma ReverseIsNewestFirst<V>(t: Table<V>, ids: seq<int>, stamp: V -> int)
    requires Monotone(t, stamp) && Ascending(ids)
    requires forall i :: 0 <= i < |ids| ==> ids[i] in t.rows
    ensures var r := Reverse(ids);
      forall i, j :: 0 <= i < j < |r| ==> stamp(t.rows[r[i]]) >= stamp(t.rows[r[j]])
  {
    var r := Reverse(ids);
    forall i, j | 0 <= i < j < |r| ensures stamp(t.rows[r[i]]) >= stamp(t.rows[r[j]]) {
      assert r[i] == ids[|ids| - 1 - i] && r[j] == ids[|ids| - 1 - j];
    }
  }
}
