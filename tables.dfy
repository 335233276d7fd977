/** Generic table machinery shared by every handler: a row of a table with a
    serial id and a creation stamp, and the SQL-shaped operations the handlers
    use on whole tables (WHERE as Filter, SELECT list as Map, ORDER BY created_at
    as table order or its reverse, LIMIT as a prefix). */
module Tables {

  datatype Option<+T> = None | Some(value: T)

  /** A row of a table that has a serial `id` and a `created_at` column. */
  datatype Row<+T> = Row(id: int, createdAt: nat, val: T)

  /** WHERE p: the rows that satisfy p, in table order. */
  function Filter<T>(s: seq<T>, p: T -> bool): (r: seq<T>)
    ensures |r| <= |s|
    ensures forall i :: 0 <= i < |r| ==> r[i] in s && p(r[i])
    ensures forall i :: 0 <= i < |s| && p(s[i]) ==> s[i] in r
  {
    if s == [] then []
    else if p(s[0]) then [s[0]] + Filter(s[1..], p)
    else Filter(s[1..], p)
  }

  /** The projection of every row through f (a SELECT list or a JS `map`). */
  function Map<T, U>(s: seq<T>, f: T -> U): (r: seq<U>)
    ensures |r| == |s|
    ensures forall i :: 0 <= i < |s| ==> r[i] == f(s[i])
  {
    if s == [] then [] else [f(s[0])] + Map(s[1..], f)
  }

  /** The rows in the opposite order. */
  function Reverse<T>(s: seq<T>): (r: seq<T>)
    ensures |r| == |s|
    ensures forall i :: 0 <= i < |s| ==> r[i] == s[|s| - 1 - i]
  {
    if s == [] then [] else Reverse(s[1..]) + [s[0]]
  }

  /** Every row of a table is a row of its reverse. */
  lemma InReverse<T>(s: seq<T>, i: int)
    requires 0 <= i < |s|
    ensures s[i] in Reverse(s)
  {
    assert Reverse(s)[|s| - 1 - i] == s[i];
  }

  /** Every projected row is in the projection. */
  lemma InMap<T, U>(s: seq<T>, f: T -> U, x: T)
    requires x in s
    ensures f(x) in Map(s, f)
  {
    var i :| 0 <= i < |s| && s[i] == x;
    assert Map(s, f)[i] == f(x);
  }

  /** WHERE p ORDER BY created_at DESC, for a table kept in insertion order. */
  function NewestFirst<T>(s: seq<Row<T>>, p: Row<T> -> bool): (r: seq<Row<T>>)
    ensures |r| == |Filter(s, p)|
    ensures forall i :: 0 <= i < |r| ==> r[i] in s && p(r[i])
    ensures forall i :: 0 <= i < |s| && p(s[i]) ==> s[i] in r
    ensures Ascending(s) ==> Descending(r)
  {
    NewestFirstFacts(s, p);
    Reverse(Filter(s, p))
  }

  lemma NewestFirstFacts<T>(s: seq<Row<T>>, p: Row<T> -> bool)
    ensures forall i :: 0 <= i < |s| && p(s[i]) ==> s[i] in Reverse(Filter(s, p))
    ensures Ascending(s) ==> Descending(Reverse(Filter(s, p)))
  {
    var f := Filter(s, p);
    forall i | 0 <= i < |s| && p(s[i]) ensures s[i] in Reverse(f) {
      var j :| 0 <= j < |f| && f[j] == s[i];
      InReverse(f, j);
    }
    if Ascending(s) {
      FilterAscending(s, p);
      ReverseDescending(f);
    }
  }

  /** Rows strictly ordered by creation stamp: ORDER BY created_at ASC. */
  predicate Ascending<T>(s: seq<Row<T>>)
  {
    forall i, j :: 0 <= i < j < |s| ==> s[i].createdAt < s[j].createdAt
  }

  /** Rows strictly ordered newest first: ORDER BY created_at DESC. */
  predicate Descending<T>(s: seq<Row<T>>)
  {
    forall i, j :: 0 <= i < j < |s| ==> s[i].createdAt > s[j].createdAt
  }

  /** Serial ids in insertion order, hence unique. */
  predicate IdsAscending<T>(s: seq<Row<T>>)
  {
    forall i, j :: 0 <= i < j < |s| ==> s[i].id < s[j].id
  }

  /** A table whose rows were inserted in stamp and id order, every stamp and id
      drawn from a counter that now stands at `clock`. */
  predicate Stamped<T>(s: seq<Row<T>>, clock: nat)
  {
    && Ascending(s)
    && IdsAscending(s)
    && forall i :: 0 <= i < |s| ==> s[i].createdAt < clock && s[i].id < clock
  }

  /** The first row whose id is `id` (a primary-key lookup). */
  function Find<T>(s: seq<Row<T>>, id: int): (r: Option<Row<T>>)
    ensures r.None? <==> forall i :: 0 <= i < |s| ==> s[i].id != id
    ensures r.Some? ==> r.value in s && r.value.id == id
  {
    if s == [] then None
    else if s[0].id == id then Some(s[0])
    else Find(s[1..], id)
  }

  /** Filtering a table keeps it in stamp order. */
  lemma {:induction false} FilterAscending<T>(s: seq<Row<T>>, p: Row<T> -> bool)
    requires Ascending(s)
    ensures Ascending(Filter(s, p))
  {
    if s != [] {
      FilterAscending(s[1..], p);
      var t := Filter(s[1..], p);
      if p(s[0]) {
        forall i | 0 <= i < |t| ensures s[0].createdAt < t[i].createdAt {
          var k :| 0 <= k < |s[1..]| && s[1..][k] == t[i];
          assert s[k + 1] == t[i];
        }
        AscendingCons(s[0], t);
      }
    }
  }

  /** Filtering a table keeps it in id order. */
  lemma {:induction false} FilterIdsAscending<T>(s: seq<Row<T>>, p: Row<T> -> bool)
    requires IdsAscending(s)
    ensures IdsAscending(Filter(s, p))
  {
    if s != [] {
      FilterIdsAscending(s[1..], p);
      var t := Filter(s[1..], p);
      if p(s[0]) {
        forall i | 0 <= i < |t| ensures s[0].id < t[i].id {
          var k :| 0 <= k < |s[1..]| && s[1..][k] == t[i];
          assert s[k + 1] == t[i];
        }
        IdsAscendingCons(s[0], t);
      }
    }
  }

  /** A row stamped before every row of an ascending table may lead it. */
  lemma AscendingCons<T>(x: Row<T>, t: seq<Row<T>>)
    requires Ascending(t) && forall i :: 0 <= i < |t| ==> x.createdAt < t[i].createdAt
    ensures Ascending([x] + t)
  {
    var r := [x] + t;
    assert forall i :: 0 < i < |r| ==> r[i] == t[i - 1];
  }

  /** A row numbered before every row of a table in id order may lead it. */
  lemma IdsAscendingCons<T>(x: Row<T>, t: seq<Row<T>>)
    requires IdsAscending(t) && forall i :: 0 <= i < |t| ==> x.id < t[i].id
    ensures IdsAscending([x] + t)
  {
    var r := [x] + t;
    assert forall i :: 0 < i < |r| ==> r[i] == t[i - 1];
  }

  /** Reversing an ascending table gives newest first. */
  lemma ReverseDescending<T>(s: seq<Row<T>>)
    requires Ascending(s)
    ensures Descending(Reverse(s))
  {
  }

  /** WHERE distributes over the concatenation of two tables. */
  lemma {:induction false} FilterAppend<T>(s: seq<T>, t: seq<T>, p: T -> bool)
    ensures Filter(s + t, p) == Filter(s, p) + Filter(t, p)
  {
    if s == [] {
      assert s + t == t;
    } else {
      assert (s + t)[1..] == s[1..] + t;
      FilterAppend(s[1..], t, p);
    }
  }

  /** A WHERE that every row satisfies returns the whole table. */
  lemma {:induction false} FilterAll<T>(s: seq<T>, p: T -> bool)
    requires forall i :: 0 <= i < |s| ==> p(s[i])
    ensures Filter(s, p) == s
  {
    if s != [] {
      FilterAll(s[1..], p);
    }
  }

  /** A WHERE that no row satisfies returns nothing. */
  lemma {:induction false} FilterNone<T>(s: seq<T>, p: T -> bool)
    requires forall i :: 0 <= i < |s| ==> !p(s[i])
    ensures Filter(s, p) == []
  {
    if s != [] {
      FilterNone(s[1..], p);
    }
  }

  /** Ascending ids are distinct: a row is determined by its id. */
  lemma UniqueIds<T>(s: seq<Row<T>>, i: int, j: int)
    requires IdsAscending(s) && 0 <= i < |s| && 0 <= j < |s| && s[i].id == s[j].id
    ensures i == j
  {
  }

  /** Appending a row stamped with the clock keeps a table stamped, with the clock advanced. */
  lemma StampedAppend<T>(s: seq<Row<T>>, clock: nat, r: Row<T>)
    requires Stamped(s, clock) && r.createdAt == clock && r.id == clock
    ensures Stamped(s + [r], clock + 1)
  {
  }

  /** Advancing the counter keeps a table stamped. */
  lemma StampedLater<T>(s: seq<Row<T>>, clock: nat, later: nat)
    requires Stamped(s, clock) && clock <= later
    ensures Stamped(s, later)
  {
  }

  /** Removing rows keeps a table stamped. */
  lemma StampedFilter<T>(s: seq<Row<T>>, clock: nat, p: Row<T> -> bool)
    requires Stamped(s, clock)
    ensures Stamped(Filter(s, p), clock)
  {
    FilterAscending(s, p);
    FilterIdsAscending(s, p);
  }
}
