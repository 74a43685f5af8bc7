/** The queue store (`SQLQueue`).  The backing table is the sequence of its
    rows in insertion order; `id` is the auto-increment key, `md5` the content
    digest, `ts` the insertion timestamp, supplied by the caller.  Every Dao
    operation is one state transition of that table; the SQL conditions and
    orderings the queries use are the functions `Holds`, `Filter` and
    `Earliest`. */
module SqlQueue {
  import opened Utils

  /** A row `(id, md5, content, ts)`. */
  datatype Row = Row(id: int, md5: string, content: Option<string>, ts: int)

  /** `StringEntity(content, id)`; entities made from caller elements carry id -1. */
  datatype Entity = Entity(content: Option<string>, id: int)

  /** The `StringEntity.md5` getter. */
  function Md5(hash: Hasher, e: Entity): string {
    ContentMd5(hash, e.content)
  }

  /** What a query reads back from a row: its content and id. */
  function EntityOf(r: Row): Entity {
    Entity(r.content, r.id)
  }

  function Entities(rows: seq<Row>): (es: seq<Entity>)
    ensures |es| == |rows|
    ensures forall i :: 0 <= i < |rows| ==> es[i] == EntityOf(rows[i])
  {
    seq(|rows|, i requires 0 <= i < |rows| => EntityOf(rows[i]))
  }

  /** The digests of the entities a query compares with. */
  function Digests(hash: Hasher, es: seq<Entity>): set<string> {
    set e | e in es :: Md5(hash, e)
  }

  /** The WHERE clauses of the Dao's statements. */
  datatype Where =
    | IdAbove(id: int)                        // `id` > x
    | IdIs(id: int)                           // `id` = x
    | IdIn(ids: set<int>)                     // `id` IN (...)
    | Md5Is(md5: string)                      // `MD5` = '...'
    | Md5In(md5s: set<string>, isIn: bool)    // `MD5` IN (...) or NOT IN (...)

  predicate Holds(w: Where, r: Row) {
    match w
    case IdAbove(x) => r.id > x
    case IdIs(x) => r.id == x
    case IdIn(xs) => r.id in xs
    case Md5Is(d) => r.md5 == d
    case Md5In(ds, isIn) => (r.md5 in ds) == isIn
  }

  /** Ids strictly increase along the table: the auto-increment key. */
  ghost predicate IdsIncreasing(rows: seq<Row>) {
    forall i, j :: 0 <= i < j < |rows| ==> rows[i].id < rows[j].id
  }

  /** The rows for which the condition is `keep`, in table order: a SELECT
      with `keep`, what a DELETE leaves behind without it. */
  function Filter(rows: seq<Row>, w: Where, keep: bool): (r: seq<Row>)
    ensures |r| <= |rows|
    ensures forall x :: x in r <==> x in rows && Holds(w, x) == keep
  {
    if rows == [] then []
    else
      var init, last := rows[..|rows| - 1], rows[|rows| - 1];
      assert rows == init + [last];
      Filter(init, w, keep) + (if Holds(w, last) == keep then [last] else [])
  }

  lemma {:induction false} FilterIncreasing(rows: seq<Row>, w: Where, keep: bool)
    requires IdsIncreasing(rows)
    ensures IdsIncreasing(Filter(rows, w, keep))
  {
    if rows != [] {
      var init, last := rows[..|rows| - 1], rows[|rows| - 1];
      FilterIncreasing(init, w, keep);
      var front := Filter(init, w, keep);
      forall x | x in front ensures x.id < last.id {
        var i :| 0 <= i < |init| && init[i] == x;
      }
    }
  }

  /** "ORDER BY ts ASC LIMIT 1" as the model resolves it: row `i` satisfies
      the condition and no satisfying row has a smaller `ts`; equal
      timestamps are resolved in table order, which is id order, the
      `(ts, id)` order of the `idx_t_ts` index.  The statement itself
      promises only `MinimalBy`. */
  ghost predicate FirstBy(rows: seq<Row>, w: Where, i: int) {
    && 0 <= i < |rows|
    && Holds(w, rows[i])
    && forall j :: 0 <= j < |rows| && Holds(w, rows[j]) ==>
         rows[i].ts < rows[j].ts || (rows[i].ts == rows[j].ts && i <= j)
  }

  /** The index of the earliest satisfying row, or -1 when there is none. */
  function Earliest(rows: seq<Row>, w: Where): (i: int)
    ensures -1 <= i < |rows|
    ensures i == -1 <==> forall j :: 0 <= j < |rows| ==> !Holds(w, rows[j])
    ensures i >= 0 ==> FirstBy(rows, w, i)
  {
    if rows == [] then -1
    else
      var n := |rows| - 1;
      var i := Earliest(rows[..n], w);
      assert forall j :: 0 <= j < n ==> rows[..n][j] == rows[j];
      if !Holds(w, rows[n]) then i
      else if i >= 0 && rows[i].ts <= rows[n].ts then i
      else n
  }

  /** The spec determines one row: two indices that both meet it coincide. */
  lemma FirstByUnique(rows: seq<Row>, w: Where, i: int, j: int)
    requires FirstBy(rows, w, i) && FirstBy(rows, w, j)
    ensures i == j
  {
  }

  /** The entity a query returns for index `i` (none for -1). */
  function Pick(rows: seq<Row>, i: int): Option<Entity>
    requires -1 <= i < |rows|
  {
    if i < 0 then None else Some(EntityOf(rows[i]))
  }

  /** Some row has digest `d`. */
  ghost predicate Stored(rows: seq<Row>, d: string) {
    exists j :: 0 <= j < |rows| && rows[j].md5 == d
  }

  /** A digest is stored exactly when selecting it finds a row. */
  lemma StoredIffSelected(rows: seq<Row>, d: string)
    ensures Stored(rows, d) <==> |Filter(rows, Md5Is(d), true)| > 0
  {
    var matching := Filter(rows, Md5Is(d), true);
    forall j | 0 <= j < |rows| && rows[j].md5 == d
      ensures rows[j] in matching
    {
    }
    if |matching| > 0 {
      assert matching[0] in matching;
      var j :| 0 <= j < |rows| && rows[j] == matching[0];
      assert rows[j].md5 == d;
    }
  }

  lemma {:induction false} FilterSame(rows: seq<Row>, w1: Where, w2: Where, keep: bool)
    requires forall x :: x in rows ==> Holds(w1, x) == Holds(w2, x)
    ensures Filter(rows, w1, keep) == Filter(rows, w2, keep)
  {
    if rows != [] {
      var init := rows[..|rows| - 1];
      assert forall x :: x in init ==> x in rows;
      FilterSame(init, w1, w2, keep);
    }
  }

  lemma {:induction false} FilterKeepsAll(rows: seq<Row>, w: Where, keep: bool)
    requires forall x :: x in rows ==> Holds(w, x) == keep
    ensures Filter(rows, w, keep) == rows
  {
    if rows != [] {
      var init := rows[..|rows| - 1];
      assert forall x :: x in init ==> x in rows;
      FilterKeepsAll(init, w, keep);
      SplitLast(rows);
    }
  }

  lemma DropBeforeLast<T>(s: seq<T>, i: int)
    requires 0 <= i < |s| - 1
    ensures s[..i] + s[i + 1..] == s[..|s| - 1][..i] + s[..|s| - 1][i + 1..] + [s[|s| - 1]]
  {
    var init := s[..|s| - 1];
    assert s[i + 1..] == init[i + 1..] + [s[|s| - 1]];
  }

  /** One step of `Filter`: the last row is kept or not after the others. */
  lemma FilterLast(rows: seq<Row>, w: Where, keep: bool)
    requires rows != []
    ensures var n := |rows| - 1;
      Filter(rows, w, keep) == Filter(rows[..n], w, keep) + (if Holds(w, rows[n]) == keep then [rows[n]] else [])
  {
  }

  /** Without its last row the ids still increase, and all stay below it. */
  lemma IdsIncreasingInit(rows: seq<Row>)
    requires rows != [] && IdsIncreasing(rows)
    ensures var n := |rows| - 1;
      && IdsIncreasing(rows[..n])
      && forall x :: x in rows[..n] ==> x.id < rows[n].id
  {
    var n := |rows| - 1;
    forall x | x in rows[..n] ensures x.id < rows[n].id {
      var j :| 0 <= j < n && rows[..n][j] == x;
    }
  }

  lemma EntitiesAppend(a: seq<Row>, b: seq<Row>)
    ensures Entities(a + b) == Entities(a) + Entities(b)
  {
  }

  /** Selecting from one more row of the table. */
  lemma SelectStep(rows: seq<Row>, k: int, w: Where)
    requires 0 <= k < |rows|
    ensures Entities(Filter(rows[..k + 1], w, true))
         == Entities(Filter(rows[..k], w, true)) + (if Holds(w, rows[k]) then [EntityOf(rows[k])] else [])
  {
    assert rows[..k + 1][..k] == rows[..k];
    FilterLast(rows[..k + 1], w, true);
    EntitiesAppend(Filter(rows[..k], w, true), if Holds(w, rows[k]) then [rows[k]] else []);
  }

  /** Deleting the earliest row satisfying `w` by its id removes exactly
      that row. */
  lemma DeleteEarliest(rows: seq<Row>, w: Where)
    requires IdsIncreasing(rows) && Earliest(rows, w) >= 0
    ensures var i := Earliest(rows, w);
      Filter(rows, IdIs(Pick(rows, i).value.id), false) == rows[..i] + rows[i + 1..]
  {
    DeleteOneId(rows, Earliest(rows, w));
  }

  /** With unique ids, deleting the id of row `i` removes that row alone. */
  lemma {:induction false} DeleteOneId(rows: seq<Row>, i: int)
    requires IdsIncreasing(rows) && 0 <= i < |rows|
    ensures Filter(rows, IdIs(rows[i].id), false) == rows[..i] + rows[i + 1..]
  {
    var n := |rows| - 1;
    var init, last := rows[..n], rows[n];
    var w := IdIs(rows[i].id);
    FilterLast(rows, w, false);
    IdsIncreasingInit(rows);
    if i == n {
      assert Holds(w, last);
      FilterKeepsAll(init, w, false);
      assert Filter(rows, w, false) == init;
      assert rows[..i] + rows[i + 1..] == init;
    } else {
      assert init[i] == rows[i];
      assert !Holds(w, last);
      assert Filter(rows, w, false) == Filter(init, w, false) + [last];
      DeleteOneId(init, i);
      DropBeforeLast(rows, i);
    }
  }

  /** With unique ids, deleting the ids of the selected rows deletes exactly
      the rows that satisfy the selection. */
  lemma DeleteSelectedIds(rows: seq<Row>, w: Where)
    requires IdsIncreasing(rows)
    ensures Filter(rows, IdIn(set e | e in Entities(Filter(rows, w, true)) :: e.id), false)
         == Filter(rows, w, false)
  {
    var sel := Filter(rows, w, true);
    var ids := set e | e in Entities(sel) :: e.id;
    forall x | x in rows
      ensures Holds(IdIn(ids), x) == Holds(w, x)
    {
      if Holds(w, x) {
        var k :| 0 <= k < |sel| && sel[k] == x;
        assert Entities(sel)[k].id == x.id;
      }
      if x.id in ids {
        var e :| e in Entities(sel) && e.id == x.id;
        var k :| 0 <= k < |sel| && Entities(sel)[k] == e;
        var y := sel[k];
        assert y in rows && Holds(w, y);
        var a :| 0 <= a < |rows| && rows[a] == x;
        var b :| 0 <= b < |rows| && rows[b] == y;
        assert a == b;
      }
    }
    FilterSame(rows, IdIn(ids), w, false);
  }

  lemma IdInSingleton(rows: seq<Row>, id: int)
    ensures Filter(rows, IdIn({id}), false) == Filter(rows, IdIs(id), false)
  {
    forall x | x in rows ensures Holds(IdIn({id}), x) == Holds(IdIs(id), x) {
      assert x.id in {id} <==> x.id == id;
    }
    FilterSame(rows, IdIn({id}), IdIs(id), false);
  }

  /** Deleting the rows whose digest is outside a set keeps those inside it. */
  lemma {:induction false} RetainIsKeep(rows: seq<Row>, ds: set<string>)
    ensures Filter(rows, Md5In(ds, false), false) == Filter(rows, Md5In(ds, true), true)
  {
    if rows != [] {
      RetainIsKeep(rows[..|rows| - 1], ds);
    }
  }

  /** Deleting by one id twice deletes nothing more the second time. */
  lemma DeleteIdTwice(rows: seq<Row>, id: int)
    ensures Filter(Filter(rows, IdIs(id), false), IdIs(id), false) == Filter(rows, IdIs(id), false)
  {
    FilterKeepsAll(Filter(rows, IdIs(id), false), IdIs(id), false);
  }

  /** The rows `addAll` inserts: one per element, in order, with consecutive
      auto-increment ids from `start`. */
  function Appended(hash: Hasher, start: int, es: seq<Entity>, stamps: seq<int>): (r: seq<Row>)
    requires |stamps| == |es|
    ensures |r| == |es|
  {
    seq(|es|, i requires 0 <= i < |es| => Row(start + i, Md5(hash, es[i]), es[i].content, stamps[i]))
  }

  /** The Dao over the backing table. */
  class QueueDao {
    const hash: Hasher
    var rows: seq<Row>
    /** The next auto-increment value. */
    var nextId: int

    ghost predicate Valid()
      reads this
    {
      && nextId >= 1
      && IdsIncreasing(rows)
      && (forall r :: r in rows ==> 1 <= r.id < nextId)
      && (forall r :: r in rows ==> r.md5 == ContentMd5(hash, r.content))
    }

    constructor (hash: Hasher)
      ensures Valid() && this.hash == hash && rows == [] && nextId == 1
    {
      this.hash := hash;
      rows := [];
      nextId := 1;
    }

    /** `contains`: a row with the entity's digest exists. */
    method Contains(e: Entity) returns (b: bool)
      ensures b <==> Stored(rows, Md5(hash, e))
    {
      var d := Md5(hash, e);
      var matching := Filter(rows, Md5Is(d), true);
      StoredIffSelected(rows, d);
      b := |matching| > 0;
    }

    /** `containsAll`: every entity is contained; true for no entities. */
    method ContainsAll(es: seq<Entity>) returns (b: bool)
      ensures b <==> forall k :: 0 <= k < |es| ==> Stored(rows, Md5(hash, es[k]))
    {
      for k := 0 to |es|
        invariant forall j :: 0 <= j < k ==> Stored(rows, Md5(hash, es[j]))
      {
        var c := Contains(es[k]);
        if !c {
          return false;
        }
      }
      return true;
    }

    /** `addAll`: nothing and false for no entities; otherwise one row per
        entity, appended in order, and true. */
    method AddAll(es: seq<Entity>, stamps: seq<int>) returns (inserted: bool)
      requires Valid() && |stamps| == |es|
      modifies this
      ensures Valid()
      ensures inserted == (|es| > 0)
      ensures rows == old(rows) + Appended(hash, old(nextId), es, stamps)
      ensures nextId == old(nextId) + |es|
    {
      if |es| == 0 {
        assert Appended(hash, nextId, es, stamps) == [];
        return false;
      }
      var added := Appended(hash, nextId, es, stamps);
      ghost var before := rows;
      rows := rows + added;
      nextId := nextId + |es|;
      assert forall r :: r in rows ==> r in before || r in added;
      inserted := true;
    }

    /** `clear`: every row is deleted; the auto-increment counter is kept. */
    method Clear()
      requires Valid()
      modifies this`rows
      ensures Valid() && rows == []
    {
      rows := [];
    }

    /** `elementAfter(id)`: the earliest row whose id is above `id`. */
    method ElementAfter(id: int) returns (e: Option<Entity>)
      ensures e == Pick(rows, Earliest(rows, IdAbove(id)))
      ensures e.None? <==> forall r :: r in rows ==> r.id <= id
      ensures e.Some? ==> e.value.id > id && exists i :: FirstBy(rows, IdAbove(id), i) && e.value == EntityOf(rows[i])
    {
      var i := Earliest(rows, IdAbove(id));
      e := Pick(rows, i);
      if e.None? {
        assert forall r :: r in rows ==> r.id <= id by {
          forall r | r in rows ensures r.id <= id {
            var j :| 0 <= j < |rows| && rows[j] == r;
          }
        }
      }
    }

    /** `elementBy(id)`: the row with that id, if any. */
    method ElementBy(id: int) returns (e: Option<Entity>)
      ensures e.None? <==> forall r :: r in rows ==> r.id != id
      ensures e.Some? ==> e.value.id == id && exists r :: r in rows && e.value == EntityOf(r)
    {
      var selected := Filter(rows, IdIs(id), true);
      if |selected| > 0 {
        assert selected[0] in selected;
        e := Some(EntityOf(selected[0]));
      } else {
        e := None;
      }
    }

    /** `sizeAfter(id)`: the number of rows above `id` when `id` is not
        negative, the number of all rows otherwise. */
    method SizeAfter(id: int) returns (n: int)
      ensures id >= 0 ==> n == |Filter(rows, IdAbove(id), true)|
      ensures id < 0 ==> n == |rows|
    {
      if id >= 0 {
        n := |Filter(rows, IdAbove(id), true)|;
      } else {
        n := |rows|;
      }
    }

    /** `removeAfter(id)`: what `elementAfter(id)` returns, and only that row
        is deleted, by its id. */
    method RemoveAfter(id: int) returns (e: Option<Entity>)
      requires Valid()
      modifies this`rows
      ensures Valid()
      ensures e == Pick(old(rows), Earliest(old(rows), IdAbove(id)))
      ensures e.None? ==> rows == old(rows)
      ensures var i := Earliest(old(rows), IdAbove(id)); i >= 0 ==> rows == old(rows)[..i] + old(rows)[i + 1..]
    {
      e := ElementAfter(id);
      if e.Some? {
        DeleteEarliest(rows, IdAbove(id));
        DeleteId(e.value.id);
      }
    }

    /** The statement `DELETE ... WHERE id = ?`: every row with that id goes. */
    method DeleteId(id: int)
      requires Valid()
      modifies this`rows
      ensures Valid()
      ensures rows == Filter(old(rows), IdIs(id), false)
    {
      FilterIncreasing(rows, IdIs(id), false);
      rows := Filter(rows, IdIs(id), false);
    }

    /** `allMatches`: the rows whose digest is (`md5In`) or is not among
        the entities' digests, read one by one; nothing for no entities. */
    method AllMatches(es: seq<Entity>, md5In: bool) returns (ms: seq<Entity>)
      ensures ms == if |es| == 0 then [] else Entities(Filter(rows, Md5In(Digests(hash, es), md5In), true))
    {
      if |es| == 0 {
        return [];
      }
      var w := Md5In(Digests(hash, es), md5In);
      ms := [];
      var k := 0;
      while k < |rows|
        invariant 0 <= k <= |rows|
        invariant ms == Entities(Filter(rows[..k], w, true))
      {
        SelectStep(rows, k, w);
        if Holds(w, rows[k]) {
          ms := ms + [EntityOf(rows[k])];
        }
        k := k + 1;
      }
      assert rows[..k] == rows;
    }

    /** `firstMatch`: the earliest row with the entity's digest. */
    method FirstMatch(e: Entity) returns (m: Option<Entity>)
      ensures m == Pick(rows, Earliest(rows, Md5Is(Md5(hash, e))))
      ensures m.None? <==> forall r :: r in rows ==> r.md5 != Md5(hash, e)
      ensures m.Some? ==> exists i :: FirstBy(rows, Md5Is(Md5(hash, e)), i) && m.value == EntityOf(rows[i])
    {
      var i := Earliest(rows, Md5Is(Md5(hash, e)));
      m := Pick(rows, i);
      if m.None? {
        forall r | r in rows ensures r.md5 != Md5(hash, e) {
          var j :| 0 <= j < |rows| && rows[j] == r;
        }
      }
    }

    /** `removeBy(ids, ...)`: the rows with those ids are deleted; no
        statement at all for no ids. */
    method RemoveByIds(ids: set<int>)
      requires Valid()
      modifies this`rows
      ensures Valid()
      ensures rows == Filter(old(rows), IdIn(ids), false)
    {
      if ids == {} {
        FilterKeepsAll(rows, IdIn(ids), false);
      } else {
        FilterIncreasing(rows, IdIn(ids), false);
        rows := Filter(rows, IdIn(ids), false);
      }
    }

    /** `removeAllMatches(entities, md5In)`: deletes and returns exactly the
        rows whose digest is (or, for `md5In == false`, is not) among the
        entities' digests; for no entities nothing is deleted. */
    method RemoveAllMatches(es: seq<Entity>, md5In: bool) returns (removed: seq<Entity>)
      requires Valid()
      modifies this`rows
      ensures Valid()
      ensures removed == if |es| == 0 then [] else Entities(Filter(old(rows), Md5In(Digests(hash, es), md5In), true))
      ensures rows == if |es| == 0 then old(rows) else Filter(old(rows), Md5In(Digests(hash, es), md5In), false)
    {
      if |es| == 0 {
        return [];
      }
      var w := Md5In(Digests(hash, es), md5In);
      var ms := AllMatches(es, md5In);
      if |ms| > 0 {
        DeleteSelectedIds(rows, w);
        RemoveByIds(set m | m in ms :: m.id);
      } else {
        assert Filter(rows, w, true) == [];
        forall x | x in rows ensures Holds(w, x) == false {
          assert x !in Filter(rows, w, true);
        }
        FilterKeepsAll(rows, w, false);
      }
      removed := ms;
    }

    /** `removeFirstMatch`: deletes and returns the earliest row with the
        entity's digest; with none the table is unchanged. */
    method RemoveFirstMatch(e: Entity) returns (m: Option<Entity>)
      requires Valid()
      modifies this`rows
      ensures Valid()
      ensures m == Pick(old(rows), Earliest(old(rows), Md5Is(Md5(hash, e))))
      ensures m.None? ==> rows == old(rows)
      ensures var i := Earliest(old(rows), Md5Is(Md5(hash, e))); i >= 0 ==> rows == old(rows)[..i] + old(rows)[i + 1..]
    {
      m := FirstMatch(e);
      if m.Some? {
        DeleteEarliest(rows, Md5Is(Md5(hash, e)));
        IdInSingleton(rows, m.value.id);
        RemoveByIds({m.value.id});
      }
    }

    /** `removeBy(id)`: deletes and returns the row with that id, if any. */
    method RemoveBy(id: int) returns (e: Option<Entity>)
      requires Valid()
      modifies this`rows
      ensures Valid()
      ensures e.None? <==> forall r :: r in old(rows) ==> r.id != id
      ensures e.Some? ==> e.value.id == id && exists r :: r in old(rows) && e.value == EntityOf(r)
      ensures rows == Filter(old(rows), IdIs(id), false)
    {
      e := ElementBy(id);
      if e.None? {
        FilterKeepsAll(rows, IdIs(id), false);
      } else {
        IdInSingleton(rows, id);
        RemoveByIds({e.value.id});
      }
    }
  }

  /** The queue head: `elementAfter(-1)`. */
  function Head(rows: seq<Row>): Option<Entity> {
    Pick(rows, Earliest(rows, IdAbove(-1)))
  }

  /** The elements of the queue, in table order. */
  function Contents(rows: seq<Row>): (xs: seq<Option<string>>)
    ensures |xs| == |rows|
    ensures forall i :: 0 <= i < |rows| ==> xs[i] == rows[i].content
  {
    seq(|rows|, i requires 0 <= i < |rows| => rows[i].content)
  }

  /** Caller elements as entities (`StringEntity(e)`, id -1). */
  function EntitiesOf(xs: seq<Option<string>>): (es: seq<Entity>)
    ensures |es| == |xs|
    ensures forall i :: 0 <= i < |xs| ==> es[i] == Entity(xs[i], -1)
  {
    seq(|xs|, i requires 0 <= i < |xs| => Entity(xs[i], -1))
  }

  /** The timestamps never decrease along the table: the clock did not go
      backwards between insertions. */
  ghost predicate TsOrdered(rows: seq<Row>) {
    forall i, j :: 0 <= i < j < |rows| ==> rows[i].ts <= rows[j].ts
  }

  /** With ordered timestamps the earliest satisfying row is the first one
      in table order. */
  lemma OrderedEarliestIsFirst(rows: seq<Row>, w: Where)
    requires TsOrdered(rows)
    ensures var i := Earliest(rows, w); i >= 0 ==> forall j :: 0 <= j < i ==> !Holds(w, rows[j])
  {
    var i := Earliest(rows, w);
    if i >= 0 {
      forall j | 0 <= j < i ensures !Holds(w, rows[j]) {
        assert rows[j].ts <= rows[i].ts;
      }
    }
  }

  /** First in, first out: with ordered timestamps and positive ids the head
      is the oldest row. */
  lemma FifoHead(rows: seq<Row>)
    requires TsOrdered(rows) && rows != []
    requires forall r :: r in rows ==> r.id >= 1
    ensures Head(rows) == Some(EntityOf(rows[0]))
  {
    assert rows[0] in rows;
    var i := Earliest(rows, IdAbove(-1));
    OrderedEarliestIsFirst(rows, IdAbove(-1));
    assert Holds(IdAbove(-1), rows[0]);
  }

  /** With ordered timestamps and increasing ids, the row after row `i` in
      the cursor's order (`elementAfter(rows[i].id)`) is row `i + 1`. */
  lemma OrderedSuccessor(rows: seq<Row>, i: int)
    requires TsOrdered(rows) && IdsIncreasing(rows) && 0 <= i < |rows|
    ensures Pick(rows, Earliest(rows, IdAbove(rows[i].id))) == if i + 1 < |rows| then Some(EntityOf(rows[i + 1])) else None
  {
    var w := IdAbove(rows[i].id);
    var k := Earliest(rows, w);
    OrderedEarliestIsFirst(rows, w);
    if i + 1 < |rows| {
      assert Holds(w, rows[i + 1]);
    }
  }

  /** Rows stamped in order after the existing ones keep the table ordered. */
  lemma AppendKeepsOrder(hash: Hasher, rows: seq<Row>, start: int, es: seq<Entity>, stamps: seq<int>)
    requires TsOrdered(rows) && |stamps| == |es|
    requires forall i, j :: 0 <= i < j < |stamps| ==> stamps[i] <= stamps[j]
    requires forall r, k :: r in rows && 0 <= k < |stamps| ==> r.ts <= stamps[k]
    ensures TsOrdered(rows + Appended(hash, start, es, stamps))
  {
    var all := rows + Appended(hash, start, es, stamps);
    forall i, j | 0 <= i < j < |all| ensures all[i].ts <= all[j].ts {
      if j >= |rows| {
        assert all[j].ts == stamps[j - |rows|];
        if i < |rows| {
          assert all[i] in rows;
        } else {
          assert all[i].ts == stamps[i - |rows|];
        }
      }
    }
  }

  /** Deleting one row keeps the timestamps ordered. */
  lemma DropKeepsOrder(rows: seq<Row>, i: int)
    requires TsOrdered(rows) && 0 <= i < |rows|
    ensures TsOrdered(rows[..i] + rows[i + 1..])
  {
    var t := rows[..i] + rows[i + 1..];
    forall a, b | 0 <= a < b < |t| ensures t[a].ts <= t[b].ts {
      var a' := if a < i then a else a + 1;
      var b' := if b < i then b else b + 1;
      assert t[a] == rows[a'] && t[b] == rows[b'];
    }
  }

  /** What `ORDER BY ts ASC LIMIT 0,1` alone promises: some satisfying row
      with the smallest `ts`.  Among rows with equal `ts` the database may
      return any. */
  ghost predicate MinimalBy(rows: seq<Row>, w: Where, i: int) {
    && 0 <= i < |rows|
    && Holds(w, rows[i])
    && forall j :: 0 <= j < |rows| && Holds(w, rows[j]) ==> rows[i].ts <= rows[j].ts
  }

  /** The model's answer is one of those the statement allows, and there is
      one exactly when the model finds a row. */
  lemma EarliestIsMinimal(rows: seq<Row>, w: Where)
    ensures Earliest(rows, w) >= 0 ==> MinimalBy(rows, w, Earliest(rows, w))
    ensures (exists i :: MinimalBy(rows, w, i)) <==> Earliest(rows, w) >= 0
  {
    var k := Earliest(rows, w);
    if k >= 0 {
      assert MinimalBy(rows, w, k);
    }
  }

  /** Among the satisfying rows the model's choice comes first in
      `(ts, id)` order. */
  lemma FirstByTsThenId(rows: seq<Row>, w: Where, i: int, j: int)
    requires IdsIncreasing(rows) && FirstBy(rows, w, i)
    requires 0 <= j < |rows| && Holds(w, rows[j]) && j != i
    ensures rows[i].ts < rows[j].ts || (rows[i].ts == rows[j].ts && rows[i].id < rows[j].id)
  {
  }

  /** Timestamps strictly increase along the table. */
  ghost predicate TsStrict(rows: seq<Row>) {
    forall i, j :: 0 <= i < j < |rows| ==> rows[i].ts < rows[j].ts
  }

  /** With strictly increasing timestamps the statement has a single answer,
      and it is the model's: then the results proved under the `(ts, id)`
      order hold whatever the database does with ties. */
  lemma StrictMinimalIsEarliest(rows: seq<Row>, w: Where, i: int)
    requires TsStrict(rows) && MinimalBy(rows, w, i)
    ensures i == Earliest(rows, w)
    ensures TsOrdered(rows)
  {
    var k := Earliest(rows, w);
    assert k >= 0 && FirstBy(rows, w, k);
    assert rows[k].ts == rows[i].ts;
  }

  /** The rows of one `addAll` in one millisecond share their stamp.  The
      statement may then return the second as the head, and no row lies
      after it by id, so a cursor that starts there never reaches the first,
      while the model starts at the first. */
  lemma TiedHeadSkips(hash: Hasher)
    ensures var rows := Appended(hash, 1, [Entity(Some("a"), -1), Entity(Some("b"), -1)], [5, 5]);
      && MinimalBy(rows, IdAbove(-1), 1) && rows[1].content == Some("b")
      && (forall j :: 0 <= j < |rows| ==> !Holds(IdAbove(rows[1].id), rows[j]))
      && Earliest(rows, IdAbove(-1)) == 0 && rows[0].content == Some("a")
  {
    var rows := Appended(hash, 1, [Entity(Some("a"), -1), Entity(Some("b"), -1)], [5, 5]);
    assert rows[0].id == 1 && rows[0].ts == 5 && rows[1].id == 2 && rows[1].ts == 5;
    assert rows[..1] == [rows[0]];
    assert Earliest(rows[..1], IdAbove(-1)) == 0;
  }

  /** The output of `element()` for a given head: as written, the elvis
      operator also throws for a head whose content is null. */
  function ElementOfHeadAsWritten(head: Option<Entity>): Outcome<Option<string>> {
    if head.Some? && head.value.content.Some? then Return(head.value.content) else Throw(NoSuchElement)
  }

  /** The output of `element(txProvider)`: throws exactly for an empty queue. */
  function ElementOfHead(head: Option<Entity>): (r: Outcome<Option<string>>)
    ensures r.Throw? <==> head.None?
    ensures head.Some? ==> r == Return(head.value.content)
  {
    if head.None? then Throw(NoSuchElement) else Return(head.value.content)
  }

  /** As written, a queue whose head element is null reports it missing. */
  lemma ElementNullHead(hash: Hasher)
    ensures var rows := [Row(1, ContentMd5(hash, None), None, 0)];
      && ElementOfHeadAsWritten(Head(rows)) == Throw(NoSuchElement)
      && ElementOfHead(Head(rows)) == Return(None)
  {
    var rows := [Row(1, ContentMd5(hash, None), None, 0)];
    assert Earliest(rows, IdAbove(-1)) == 0;
  }

  /** The `Queue` implementation over one table. */
  class SqlQueue {
    const dao: QueueDao

    ghost predicate Valid()
      reads this, dao
    {
      dao.Valid()
    }

    constructor (hash: Hasher)
      ensures Valid() && fresh(dao) && dao.hash == hash && dao.rows == []
    {
      dao := new QueueDao(hash);
    }

    /** `size` (`sizeAfter(-1)`). */
    method Size() returns (n: int)
      ensures n == |dao.rows|
    {
      n := dao.SizeAfter(-1);
    }

    /** `isEmpty`: `size <= 0`. */
    method IsEmpty() returns (b: bool)
      ensures b <==> dao.rows == []
    {
      var n := Size();
      b := n <= 0;
    }

    /** `contains`: some row has the element's digest. */
    method Contains(x: Option<string>) returns (b: bool)
      ensures b <==> Stored(dao.rows, ContentMd5(dao.hash, x))
    {
      b := dao.Contains(Entity(x, -1));
    }

    method ContainsAll(xs: seq<Option<string>>) returns (b: bool)
      ensures b <==> forall k :: 0 <= k < |xs| ==> Stored(dao.rows, ContentMd5(dao.hash, xs[k]))
    {
      b := dao.ContainsAll(EntitiesOf(xs));
    }

    /** `addAll`: the elements are appended in order; false only for none. */
    method AddAll(xs: seq<Option<string>>, stamps: seq<int>) returns (b: bool)
      requires Valid() && |stamps| == |xs|
      modifies dao
      ensures Valid()
      ensures b == (|xs| > 0)
      ensures dao.rows == old(dao.rows) + Appended(dao.hash, old(dao.nextId), EntitiesOf(xs), stamps)
      ensures dao.nextId == old(dao.nextId) + |xs|
    {
      b := dao.AddAll(EntitiesOf(xs), stamps);
    }

    /** `add` (and `offer`): appends one row holding the element. */
    method Add(x: Option<string>, now: int) returns (b: bool)
      requires Valid()
      modifies dao
      ensures Valid() && b
      ensures dao.rows == old(dao.rows) + [Row(old(dao.nextId), ContentMd5(dao.hash, x), x, now)]
      ensures dao.nextId == old(dao.nextId) + 1
    {
      b := AddAll([x], [now]);
      assert Appended(dao.hash, old(dao.nextId), EntitiesOf([x]), [now])[0]
          == Row(old(dao.nextId), ContentMd5(dao.hash, x), x, now);
    }

    method Clear()
      requires Valid()
      modifies dao
      ensures Valid() && dao.rows == [] && dao.nextId == old(dao.nextId)
    {
      dao.Clear();
    }

    /** `element()` as written. */
    method ElementAsWritten() returns (r: Outcome<Option<string>>)
      ensures r == ElementOfHeadAsWritten(Head(dao.rows))
    {
      var head := dao.ElementAfter(-1);
      r := ElementOfHeadAsWritten(head);
    }

    /** `element(txProvider)`: the head element, or NoSuchElement when the
        queue is empty. */
    method Element() returns (r: Outcome<Option<string>>)
      requires Valid()
      ensures r == ElementOfHead(Head(dao.rows))
      ensures r.Throw? <==> dao.rows == []
    {
      var head := dao.ElementAfter(-1);
      r := ElementOfHead(head);
      assert dao.rows != [] ==> dao.rows[0] in dao.rows;
    }

    /** `peek`: the head element, null for an empty queue. */
    method Peek() returns (x: Option<string>)
      ensures x == if Head(dao.rows).Some? then Head(dao.rows).value.content else None
    {
      var head := dao.ElementAfter(-1);
      x := if head.Some? then head.value.content else None;
    }

    /** `remove()`: deletes and returns the head, NoSuchElement for an empty
        queue. */
    method Remove() returns (r: Outcome<Option<string>>)
      requires Valid()
      modifies dao`rows
      ensures Valid()
      ensures Head(old(dao.rows)).None? ==> r == Throw(NoSuchElement) && dao.rows == old(dao.rows)
      ensures Head(old(dao.rows)).Some? ==> r == Return(Head(old(dao.rows)).value.content)
      ensures var i := Earliest(old(dao.rows), IdAbove(-1)); i >= 0 ==> dao.rows == old(dao.rows)[..i] + old(dao.rows)[i + 1..]
    {
      var e := dao.RemoveAfter(-1);
      if e.None? {
        return Throw(NoSuchElement);
      }
      r := Return(e.value.content);
    }

    /** `poll`: as `remove()`, but null for an empty queue. */
    method Poll() returns (x: Option<string>)
      requires Valid()
      modifies dao`rows
      ensures Valid()
      ensures x == if Head(old(dao.rows)).Some? then Head(old(dao.rows)).value.content else None
      ensures Head(old(dao.rows)).None? ==> dao.rows == old(dao.rows)
      ensures var i := Earliest(old(dao.rows), IdAbove(-1)); i >= 0 ==> dao.rows == old(dao.rows)[..i] + old(dao.rows)[i + 1..]
    {
      var e := dao.RemoveAfter(-1);
      x := if e.Some? then e.value.content else None;
    }

    /** `remove(element)`: deletes the earliest row holding the element's
        digest; true when there was one. */
    method RemoveElement(x: Option<string>) returns (b: bool)
      requires Valid()
      modifies dao`rows
      ensures Valid()
      ensures var i := Earliest(old(dao.rows), Md5Is(ContentMd5(dao.hash, x)));
        && (b <==> i >= 0)
        && (i >= 0 ==> dao.rows == old(dao.rows)[..i] + old(dao.rows)[i + 1..])
        && (i < 0 ==> dao.rows == old(dao.rows))
    {
      var m := dao.RemoveFirstMatch(Entity(x, -1));
      b := m.Some?;
    }

    /** `removeAll`: deletes every row whose digest is one of the elements';
        true when any was deleted. */
    method RemoveAll(xs: seq<Option<string>>) returns (b: bool)
      requires Valid()
      modifies dao`rows
      ensures Valid()
      ensures |xs| == 0 ==> !b && dao.rows == old(dao.rows)
      ensures |xs| > 0 ==> var w := Md5In(Digests(dao.hash, EntitiesOf(xs)), true);
        && (b <==> Filter(old(dao.rows), w, true) != [])
        && dao.rows == Filter(old(dao.rows), w, false)
    {
      var removed := dao.RemoveAllMatches(EntitiesOf(xs), true);
      b := |removed| > 0;
    }

    /** `retainAll`: deletes every row whose digest is none of the
        elements'; true when any was deleted.  For no elements nothing is
        deleted. */
    method RetainAll(xs: seq<Option<string>>) returns (b: bool)
      requires Valid()
      modifies dao`rows
      ensures Valid()
      ensures |xs| == 0 ==> !b && dao.rows == old(dao.rows)
      ensures |xs| > 0 ==> var w := Md5In(Digests(dao.hash, EntitiesOf(xs)), false);
        && (b <==> Filter(old(dao.rows), w, true) != [])
        && dao.rows == Filter(old(dao.rows), Md5In(Digests(dao.hash, EntitiesOf(xs)), true), true)
    {
      RetainIsKeep(dao.rows, Digests(dao.hash, EntitiesOf(xs)));
      var removed := dao.RemoveAllMatches(EntitiesOf(xs), false);
      b := |removed| > 0;
    }
  }

  /** `SQLIterator` (and `TxSQLIterator`, which differs only in running its
      queries inside the caller's transaction). */
  class Cursor {
    const dao: QueueDao
    var current: Option<Entity>
    var currentElement: Option<string>
    var lastRet: Option<Entity>

    ghost predicate Valid()
      reads this, dao
    {
      && dao.Valid()
      && currentElement == (if current.Some? then current.value.content else None)
    }

    constructor (dao: QueueDao)
      requires dao.Valid()
      ensures Valid() && this.dao == dao
      ensures current == Head(dao.rows) && lastRet == None
    {
      this.dao := dao;
      var head := dao.ElementAfter(-1);
      current := head;
      currentElement := if head.Some? then head.value.content else None;
      lastRet := None;
    }

    method HasNext() returns (b: bool)
      ensures b <==> current.Some?
    {
      b := current.Some?;
    }

    /** `next`: returns the current element, remembers it as the last one
        returned, and moves to the earliest row above its id. */
    method Next() returns (r: Outcome<Option<string>>)
      requires Valid()
      modifies this`current, this`currentElement, this`lastRet
      ensures Valid()
      ensures old(current).None? ==> r == Throw(NoSuchElement) && current == old(current) && lastRet == old(lastRet)
      ensures old(current).Some? ==>
        && r == Return(old(current).value.content)
        && lastRet == old(current)
        && current == Pick(dao.rows, Earliest(dao.rows, IdAbove(old(current).value.id)))
    {
      if current.None? {
        return Throw(NoSuchElement);
      }
      var x := currentElement;
      lastRet := current;
      current := dao.ElementAfter(current.value.id);
      currentElement := if current.Some? then current.value.content else None;
      r := Return(x);
    }

    /** `remove` as written: deletes the row last returned, but never
        forgets it, so a repeated call deletes nothing and succeeds. */
    method RemoveAsWritten() returns (r: Outcome<()>)
      requires Valid()
      modifies dao`rows
      ensures Valid()
      ensures lastRet.None? ==> r == Throw(IllegalState) && dao.rows == old(dao.rows)
      ensures lastRet.Some? ==> r == Return(()) && dao.rows == Filter(old(dao.rows), IdIs(lastRet.value.id), false)
    {
      if lastRet.None? {
        return Throw(IllegalState);
      }
      var _ := dao.RemoveBy(lastRet.value.id);
      r := Return(());
    }

    /** One round of `iterator(onNext, txProvider)`: `next`, then a callback
        that removes the element when `drop` says so.  Part-way through a
        traversal of `rows` with ordered timestamps, at row `k`, it returns
        that row's element and moves the cursor and the table one row on. */
    method Visit(drop: Option<string> -> bool, ghost rows: seq<Row>, ghost k: int) returns (x: Option<string>)
      requires Valid() && TsOrdered(dao.rows) && 0 <= k < |rows|
      requires dao.rows == Mid(rows, k, drop)
      requires current == Some(EntityOf(rows[k]))
      modifies this`current, this`currentElement, this`lastRet, dao`rows
      ensures Valid() && TsOrdered(dao.rows)
      ensures x == rows[k].content
      ensures current == if k + 1 < |rows| then Some(EntityOf(rows[k + 1])) else None
      ensures dao.rows == Mid(rows, k + 1, drop)
    {
      ghost var t, i := dao.rows, |Kept(rows[..k], drop)|;
      MidStep(rows, k, drop);
      x := VisitAt(drop, i);
      assert x == rows[k].content;
      assert dao.rows == if drop(rows[k].content) then t[..i] + t[i + 1..] else t;
    }

    /** The same round, stated for the row at position `i` of the table. */
    method VisitAt(drop: Option<string> -> bool, ghost i: int) returns (x: Option<string>)
      requires Valid() && TsOrdered(dao.rows) && 0 <= i < |dao.rows|
      requires current == Some(EntityOf(dao.rows[i]))
      modifies this`current, this`currentElement, this`lastRet, dao`rows
      ensures Valid() && TsOrdered(dao.rows)
      ensures x == old(dao.rows)[i].content
      ensures current == if i + 1 < |old(dao.rows)| then Some(EntityOf(old(dao.rows)[i + 1])) else None
      ensures dao.rows == if drop(x) then old(dao.rows)[..i] + old(dao.rows)[i + 1..] else old(dao.rows)
    {
      OrderedSuccessor(dao.rows, i);
      var r := Next();
      x := r.value;
      if drop(x) {
        DeleteOneId(dao.rows, i);
        DropKeepsOrder(dao.rows, i);
        var _ := RemoveAsWritten();
      }
    }

    /** `remove` as the iterator contract asks: at most once per `next`. */
    method Remove() returns (r: Outcome<()>)
      requires Valid()
      modifies dao`rows, this`lastRet
      ensures Valid() && lastRet == None
      ensures old(lastRet).None? ==> r == Throw(IllegalState) && dao.rows == old(dao.rows)
      ensures old(lastRet).Some? ==> r == Return(()) && dao.rows == Filter(old(dao.rows), IdIs(old(lastRet).value.id), false)
    {
      if lastRet.None? {
        return Throw(IllegalState);
      }
      var _ := dao.RemoveBy(lastRet.value.id);
      lastRet := None;
      r := Return(());
    }
  }

  /** One `next` and two `remove` calls on a one-element queue: as written
      the second call succeeds. */
  method RepeatedRemoveAsWritten(hash: Hasher) returns (second: Outcome<()>)
    ensures second == Return(())
  {
    var q := new QueueDao(hash);
    var _ := q.AddAll([Entity(Some("a"), -1)], [0]);
    var c := OpenOrdered(q);
    var _ := c.Next();
    var first := c.RemoveAsWritten();
    second := c.RemoveAsWritten();
  }

  /** The same calls with the corrected `remove`: the second one fails with
      IllegalState. */
  method RepeatedRemove(hash: Hasher) returns (second: Outcome<()>)
    ensures second == Throw(IllegalState)
  {
    var q := new QueueDao(hash);
    var _ := q.AddAll([Entity(Some("a"), -1)], [0]);
    var c := OpenOrdered(q);
    var _ := c.Next();
    var first := c.Remove();
    second := c.Remove();
  }

  /** The rows whose element the traversal's callback does not drop. */
  function Kept(rows: seq<Row>, drop: Option<string> -> bool): seq<Row> {
    if rows == [] then []
    else
      var n := |rows| - 1;
      Kept(rows[..n], drop) + (if drop(rows[n].content) then [] else [rows[n]])
  }

  /** A row is kept exactly when it is in the table and not dropped. */
  lemma {:induction false} KeptMembers(rows: seq<Row>, drop: Option<string> -> bool)
    ensures forall x :: x in Kept(rows, drop) <==> x in rows && !drop(x.content)
  {
    if rows != [] {
      var n := |rows| - 1;
      KeptMembers(rows[..n], drop);
      assert rows == rows[..n] + [rows[n]];
    }
  }

  /** Dropping rows keeps both orders. */
  lemma {:induction false} KeptOrdered(rows: seq<Row>, drop: Option<string> -> bool)
    requires TsOrdered(rows) && IdsIncreasing(rows)
    ensures TsOrdered(Kept(rows, drop)) && IdsIncreasing(Kept(rows, drop))
  {
    if rows != [] {
      var n := |rows| - 1;
      var front := Kept(rows[..n], drop);
      KeptOrdered(rows[..n], drop);
      if drop(rows[n].content) {
        assert Kept(rows, drop) == front + [] == front;
      } else {
        forall x | x in front ensures x.ts <= rows[n].ts && x.id < rows[n].id {
          assert x in rows[..n] by { KeptMembers(rows[..n], drop); }
          var j :| 0 <= j < n && rows[..n][j] == x;
        }
        OrderedSnoc(front, rows[n]);
      }
    }
  }

  /** A row later and with a larger id than all others can go at the end. */
  lemma OrderedSnoc(front: seq<Row>, r: Row)
    requires TsOrdered(front) && IdsIncreasing(front)
    requires forall x :: x in front ==> x.ts <= r.ts && x.id < r.id
    ensures TsOrdered(front + [r]) && IdsIncreasing(front + [r])
  {
    var t := front + [r];
    forall i, j | 0 <= i < j < |t| ensures t[i].ts <= t[j].ts && t[i].id < t[j].id {
      if j == |front| {
        assert t[i] in front;
      }
    }
  }

  lemma KeptStep(rows: seq<Row>, k: int, drop: Option<string> -> bool)
    requires 0 < k <= |rows|
    ensures Kept(rows[..k], drop) == Kept(rows[..k - 1], drop) + (if drop(rows[k - 1].content) then [] else [rows[k - 1]])
  {
    assert rows[..k][..k - 1] == rows[..k - 1];
  }

  lemma ContentsStep(rows: seq<Row>, k: int)
    requires 0 <= k < |rows|
    ensures Contents(rows[..k + 1]) == Contents(rows[..k]) + [rows[k].content]
  {
  }

  /** Where row `k` sits once `front` replaces the rows before it. */
  lemma SplitAt(front: seq<Row>, rows: seq<Row>, k: int)
    requires 0 <= k < |rows|
    ensures (front + rows[k..])[|front|] == rows[k]
    ensures |front + rows[k..]| == |front| + |rows| - k
    ensures k + 1 < |rows| ==> (front + rows[k..])[|front| + 1] == rows[k + 1]
  {
  }

  /** Deleting or keeping row `k - 1` after `front`. */
  lemma Regroup(front: seq<Row>, rows: seq<Row>, k: int)
    requires 0 < k <= |rows|
    ensures |front| < |front + rows[k - 1..]|
    ensures var t := front + rows[k - 1..]; t[..|front|] + t[|front| + 1..] == front + rows[k..]
    ensures front + rows[k - 1..] == (front + [rows[k - 1]]) + rows[k..]
  {
    var t := front + rows[k - 1..];
    assert t[..|front|] == front;
    assert t[|front| + 1..] == rows[k..];
  }

  /** The table after the first `k` rounds of a traversal of `rows`: each
      round deletes the row it visits, at its position among the rows kept
      so far, when `drop` says so (the position is always in range, as
      `MidIsKept` shows). */
  ghost function Mid(rows: seq<Row>, k: int, drop: Option<string> -> bool): seq<Row>
    requires 0 <= k <= |rows|
    decreases k
  {
    if k == 0 then rows
    else
      var t := Mid(rows, k - 1, drop);
      var i := |Kept(rows[..k - 1], drop)|;
      if drop(rows[k - 1].content) && i < |t| then t[..i] + t[i + 1..] else t
  }

  /** Part-way through, the table holds the kept rows of those visited, then
      the rows not visited yet. */
  lemma {:induction false} MidIsKept(rows: seq<Row>, k: int, drop: Option<string> -> bool)
    requires 0 <= k <= |rows|
    ensures Mid(rows, k, drop) == Kept(rows[..k], drop) + rows[k..]
  {
    if k == 0 {
      assert rows[..0] == [] && rows[0..] == rows;
    } else {
      MidIsKept(rows, k - 1, drop);
      Regroup(Kept(rows[..k - 1], drop), rows, k);
      KeptStep(rows, k, drop);
    }
  }

  /** Before the first round the table is untouched; after the last one it
      holds the kept rows. */
  lemma MidEnds(rows: seq<Row>, drop: Option<string> -> bool)
    ensures Mid(rows, 0, drop) == rows && Contents(rows[..0]) == []
    ensures Mid(rows, |rows|, drop) == Kept(rows, drop) && Contents(rows[..|rows|]) == Contents(rows)
  {
    MidIsKept(rows, |rows|, drop);
    assert rows[..|rows|] == rows && rows[|rows|..] == [];
  }

  /** Row `k` of the original table is at position `|Kept(rows[..k])|` of
      the table of round `k`, followed by row `k + 1`, and round `k + 1`
      deletes it there or not. */
  lemma MidStep(rows: seq<Row>, k: int, drop: Option<string> -> bool)
    requires 0 <= k < |rows|
    ensures var t := Mid(rows, k, drop); var i := |Kept(rows[..k], drop)|;
      && 0 <= i < |t| && t[i] == rows[k]
      && (i + 1 < |t| <==> k + 1 < |rows|)
      && (k + 1 < |rows| ==> t[i + 1] == rows[k + 1])
      && Mid(rows, k + 1, drop) == if drop(rows[k].content) then t[..i] + t[i + 1..] else t
  {
    MidIsKept(rows, k, drop);
    SplitAt(Kept(rows[..k], drop), rows, k);
    assert rows[..k + 1 - 1] == rows[..k];
  }

  /** A cursor over a table with ordered timestamps starts at its first row. */
  method OpenOrdered(dao: QueueDao) returns (it: Cursor)
    requires dao.Valid() && TsOrdered(dao.rows)
    ensures fresh(it) && it.Valid() && it.dao == dao && it.lastRet == None
    ensures it.current == if dao.rows != [] then Some(EntityOf(dao.rows[0])) else None
  {
    if dao.rows != [] {
      assert dao.rows[0] in dao.rows;
      FifoHead(dao.rows);
    }
    it := new Cursor(dao);
  }

  /** `iterator(onNext, txProvider)` with a callback that removes the element
      just returned when `drop` says so: with ordered timestamps every
      element is visited once, in table order, and exactly the dropped rows
      are deleted. */
  method Traverse(dao: QueueDao, drop: Option<string> -> bool) returns (visited: seq<Option<string>>)
    requires dao.Valid() && TsOrdered(dao.rows)
    modifies dao`rows
    ensures dao.Valid()
    ensures visited == Contents(old(dao.rows))
    ensures dao.rows == Kept(old(dao.rows), drop)
  {
    ghost var rows := dao.rows;
    var it := OpenOrdered(dao);
    visited := [];
    ghost var k := 0;
    var more := it.HasNext();
    MidEnds(rows, drop);
    while more
      invariant it.Valid() && it.dao == dao
      invariant 0 <= k <= |rows| && TsOrdered(dao.rows)
      invariant dao.rows == Mid(rows, k, drop)
      invariant it.current == if k < |rows| then Some(EntityOf(rows[k])) else None
      invariant more <==> it.current.Some?
      invariant visited == Contents(rows[..k])
      decreases |rows| - k
    {
      var x := it.Visit(drop, rows, k);
      ContentsStep(rows, k);
      visited := visited + [x];
      k := k + 1;
      more := it.HasNext();
    }
    assert k == |rows|;
    assert dao.rows == Kept(rows, drop);
    assert visited == Contents(rows);
  }
}
