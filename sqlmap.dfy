/** The map store (`SQLMap`).  The backing table has the key digest as its
    primary key, so it is modelled as a map from `keyMd5` to the rest of the
    row; every Dao operation is one state transition of that map. */
module SqlMap {
  import opened Utils

  /** A row `(keyMd5 ->) key, value, valueMd5, ts`. */
  datatype MapRow = MapRow(key: string, value: Option<string>, valueMd5: string, ts: int)

  /** `StringEntity(key, value)`: what queries return and `put` takes. */
  datatype Entry = Entry(key: string, value: Option<string>)

  type Table = map<string, MapRow>

  /** The `keyMd5` and `valueMd5` getters. */
  function KeyMd5(hash: Hasher, key: string): string {
    ContentMd5(hash, Some(key))
  }

  function ValueMd5(hash: Hasher, value: Option<string>): string {
    ContentMd5(hash, value)
  }

  function EntryOf(r: MapRow): Entry {
    Entry(r.key, r.value)
  }

  /** Every row sits under the digest of its own key and carries the digest
      of its own value. */
  ghost predicate Consistent(hash: Hasher, rows: Table) {
    forall d :: d in rows ==> KeyMd5(hash, rows[d].key) == d && rows[d].valueMd5 == ValueMd5(hash, rows[d].value)
  }

  ghost predicate Distinct(es: seq<Entry>) {
    forall i, j :: 0 <= i < j < |es| ==> es[i] != es[j]
  }

  /** The row a key selects (`WHERE keyMd5 = md5(key)`). */
  function Lookup(hash: Hasher, rows: Table, key: string): (e: Option<Entry>)
    ensures e.Some? <==> KeyMd5(hash, key) in rows
  {
    var d := KeyMd5(hash, key);
    if d in rows then Some(EntryOf(rows[d])) else None
  }

  /** The digests `removeAllMatches(keys)` deletes: every row's for no keys. */
  function Selection(hash: Hasher, rows: Table, keys: seq<string>): set<string> {
    if |keys| == 0 then rows.Keys else KeyDigests(hash, keys)
  }

  /** The digests a list of keys selects. */
  function KeyDigests(hash: Hasher, keys: seq<string>): set<string> {
    set k | k in keys :: KeyMd5(hash, k)
  }

  /** The table after `put(key, value)`: an INSERT when no row has the key's
      digest, otherwise an UPDATE of value, value digest and timestamp that
      keeps the stored key. */
  function PutRows(hash: Hasher, rows: Table, key: string, value: Option<string>, now: int): Table {
    var d := KeyMd5(hash, key);
    var stored := if d in rows then rows[d].key else key;
    rows[d := MapRow(stored, value, ValueMd5(hash, value), now)]
  }

  /** `put` keeps the table consistent. */
  lemma PutConsistent(hash: Hasher, rows: Table, key: string, value: Option<string>, now: int)
    requires Consistent(hash, rows)
    ensures Consistent(hash, PutRows(hash, rows, key, value, now))
  {
  }

  /** Reading a key after `put` gives the value put; every key with another
      digest reads as before. */
  lemma GetAfterPut(hash: Hasher, rows: Table, key: string, value: Option<string>, now: int, other: string)
    ensures Lookup(hash, PutRows(hash, rows, key, value, now), key).Some?
    ensures Lookup(hash, PutRows(hash, rows, key, value, now), key).value.value == value
    ensures KeyMd5(hash, other) != KeyMd5(hash, key) ==>
      Lookup(hash, PutRows(hash, rows, key, value, now), other) == Lookup(hash, rows, other)
  {
  }

  /** The second of two puts to one key wins, and the first leaves no trace. */
  lemma PutPut(hash: Hasher, rows: Table, key: string, v1: Option<string>, t1: int, v2: Option<string>, t2: int)
    ensures PutRows(hash, PutRows(hash, rows, key, v1, t1), key, v2, t2) == PutRows(hash, rows, key, v2, t2)
  {
  }

  /** `put` adds a row exactly when the key was absent. */
  lemma PutSize(hash: Hasher, rows: Table, key: string, value: Option<string>, now: int)
    ensures |PutRows(hash, rows, key, value, now)| == if KeyMd5(hash, key) in rows then |rows| else |rows| + 1
  {
  }

  /** All blank keys have the empty digest, so they share one row: a value
      put under one blank key is read back under any other. */
  lemma BlankKeysShareRow(hash: Hasher, rows: Table, k1: string, k2: string, value: Option<string>, now: int)
    requires Blank(Some(k1)) && Blank(Some(k2))
    ensures Lookup(hash, PutRows(hash, rows, k1, value, now), k2).Some?
    ensures Lookup(hash, PutRows(hash, rows, k1, value, now), k2).value.value == value
  {
  }

  /** The table after `put(entities)`: one `put` per entity, in order. */
  function PutSeq(hash: Hasher, rows: Table, es: seq<Entry>, stamps: seq<int>): Table
    requires |stamps| == |es|
  {
    if es == [] then rows
    else
      var n := |es| - 1;
      PutRows(hash, PutSeq(hash, rows, es[..n], stamps[..n]), es[n].key, es[n].value, stamps[n])
  }

  /** What `put(entities)` returns: the previous entry of every put that
      found one, in order. */
  function PrevsOf(hash: Hasher, rows: Table, es: seq<Entry>, stamps: seq<int>): seq<Entry>
    requires |stamps| == |es|
  {
    if es == [] then []
    else
      var n := |es| - 1;
      var before := PutSeq(hash, rows, es[..n], stamps[..n]);
      var prev := Lookup(hash, before, es[n].key);
      PrevsOf(hash, rows, es[..n], stamps[..n]) + (if prev.Some? then [prev.value] else [])
  }

  /** After `put(entities)`, an entity's key reads the entity's value unless
      a later entity has a key with the same digest. */
  lemma {:induction false} GetAfterPutSeq(hash: Hasher, rows: Table, es: seq<Entry>, stamps: seq<int>, i: int)
    requires |stamps| == |es| && 0 <= i < |es|
    requires forall j :: i < j < |es| ==> KeyMd5(hash, es[j].key) != KeyMd5(hash, es[i].key)
    ensures Lookup(hash, PutSeq(hash, rows, es, stamps), es[i].key).Some?
    ensures Lookup(hash, PutSeq(hash, rows, es, stamps), es[i].key).value.value == es[i].value
  {
    var n := |es| - 1;
    var before := PutSeq(hash, rows, es[..n], stamps[..n]);
    if i == n {
      GetAfterPut(hash, before, es[n].key, es[n].value, stamps[n], es[i].key);
    } else {
      GetAfterPutSeq(hash, rows, es[..n], stamps[..n], i);
      GetAfterPut(hash, before, es[n].key, es[n].value, stamps[n], es[i].key);
    }
  }

  /** Keys whose digest no entity has are untouched by `put(entities)`. */
  lemma {:induction false} PutSeqFrame(hash: Hasher, rows: Table, es: seq<Entry>, stamps: seq<int>, key: string)
    requires |stamps| == |es|
    requires forall j :: 0 <= j < |es| ==> KeyMd5(hash, es[j].key) != KeyMd5(hash, key)
    ensures Lookup(hash, PutSeq(hash, rows, es, stamps), key) == Lookup(hash, rows, key)
  {
    if es != [] {
      var n := |es| - 1;
      PutSeqFrame(hash, rows, es[..n], stamps[..n], key);
      GetAfterPut(hash, PutSeq(hash, rows, es[..n], stamps[..n]), es[n].key, es[n].value, stamps[n], key);
    }
  }

  lemma {:induction false} PutSeqConsistent(hash: Hasher, rows: Table, es: seq<Entry>, stamps: seq<int>)
    requires Consistent(hash, rows) && |stamps| == |es|
    ensures Consistent(hash, PutSeq(hash, rows, es, stamps))
  {
    if es != [] {
      var n := |es| - 1;
      PutSeqConsistent(hash, rows, es[..n], stamps[..n]);
      PutConsistent(hash, PutSeq(hash, rows, es[..n], stamps[..n]), es[n].key, es[n].value, stamps[n]);
    }
  }

  /** The key the server stores for `put` as written: the key goes into the
      statement unescaped, so it is read back as a quoted literal (None: the
      statement is rejected). */
  function StoredKeyAsWritten(key: string): Option<string> {
    Unescape(key)
  }

  /** The key stored when it is escaped like the value: the key itself. */
  function StoredKey(key: string): (k: Option<string>)
    ensures k == Some(key)
  {
    UnescapeEscape(key);
    Unescape(Escape(key))
  }

  /** A key with a single quote breaks the INSERT, and a key with a doubled
      quote is stored without it. */
  lemma UnescapedKeys()
    ensures StoredKeyAsWritten("it's") == None
    ensures StoredKeyAsWritten("a''b") == Some("a'b")
    ensures StoredKey("it's") == Some("it's") && StoredKey("a''b") == Some("a''b")
  {
    assert "it's"[2..] == "'s";
    assert "b"[1..] == [] && ['b'] + [] == "b";
    assert Unescape("b") == Some("b");
    assert "''b"[2..] == "b" && ['\''] + "b" == "'b";
    assert Unescape("''b") == Some("'b");
    assert "a''b"[1..] == "''b" && ['a'] + "'b" == "a'b";
  }

  /** The table after `put(key, value)` as written: the key goes into the
      INSERT unescaped, so the statement fails (none) for a key the server
      cannot read as a literal, and otherwise the key is stored as the server
      reads it, under the digest of the key as given. */
  function PutRowsAsWritten(hash: Hasher, rows: Table, key: string, value: Option<string>, now: int): Option<Table> {
    var d := KeyMd5(hash, key);
    if d in rows then Some(rows[d := MapRow(rows[d].key, value, ValueMd5(hash, value), now)])
    else match StoredKeyAsWritten(key)
      case None => None
      case Some(k) => Some(rows[d := MapRow(k, value, ValueMd5(hash, value), now)])
  }

  /** The digests `removeAllMatches()` deletes: those of the keys it reads
      back, recomputed by the `keyMd5` getter. */
  function ReadBackDigests(hash: Hasher, rows: Table): set<string> {
    set d | d in rows :: KeyMd5(hash, rows[d].key)
  }

  /** The read-back digests of a one-row table. */
  lemma ReadBackOne(hash: Hasher, d: string, r: MapRow)
    ensures ReadBackDigests(hash, map[d := r]) == {KeyMd5(hash, r.key)}
  {
    var t := map[d := r];
    assert d in t;
  }

  /** As written, `put("it's", v)` on an empty table fails, and
      `put("a''b", v)` stores the key `a'b` under the digest of `a''b`: the
      table is no longer consistent, and `clear()` leaves that row. */
  lemma UnescapedKeyOutlivesClear(hash: Hasher, v: Option<string>, now: int)
    requires KeyMd5(hash, "a'b") != KeyMd5(hash, "a''b")
    ensures PutRowsAsWritten(hash, map[], "it's", v, now) == None
    ensures var t := PutRowsAsWritten(hash, map[], "a''b", v, now);
      && t.Some? && !Consistent(hash, t.value)
      && KeyMd5(hash, "a''b") in t.value - ReadBackDigests(hash, t.value)
  {
    UnescapedKeys();
    var d := KeyMd5(hash, "a''b");
    var r := MapRow("a'b", v, ValueMd5(hash, v), now);
    assert PutRowsAsWritten(hash, map[], "a''b", v, now) == Some(map[d := r]);
    ReadBackOne(hash, d, r);
  }

  /** With the key escaped, the row `put("a''b", v)` stores is one that
      `clear()` deletes. */
  lemma EscapedKeyCleared(hash: Hasher, v: Option<string>, now: int)
    ensures var t := PutRows(hash, map[], "a''b", v, now);
      Consistent(hash, t) && t - ReadBackDigests(hash, t) == map[]
  {
    var d := KeyMd5(hash, "a''b");
    var r := MapRow("a''b", v, ValueMd5(hash, v), now);
    assert PutRows(hash, map[], "a''b", v, now) == map[d := r];
    ReadBackOne(hash, d, r);
  }

  /** A row not read yet gives an entry not read yet: keys determine rows. */
  lemma NewEntry(hash: Hasher, rows: Table, done: set<string>, es: seq<Entry>, d: string)
    requires Consistent(hash, rows) && d in rows && d !in done
    requires forall e :: e in es ==> exists d' :: d' in done && d' in rows && e == EntryOf(rows[d'])
    ensures EntryOf(rows[d]) !in es
  {
    forall d' | d' in done && d' in rows ensures EntryOf(rows[d]) != EntryOf(rows[d']) {
      assert KeyMd5(hash, rows[d'].key) == d';
    }
  }

  /** One row more read by `Collect`. */
  lemma CollectStep(hash: Hasher, rows: Table, sel: set<string>, todo: set<string>, done: set<string>, es: seq<Entry>, d: string)
    requires Consistent(hash, rows) && d in todo
    requires todo + done == sel * rows.Keys && todo !! done && |es| == |done| && Distinct(es)
    requires forall e :: e in es <==> exists d' :: d' in done && d' in rows && e == EntryOf(rows[d'])
    ensures (todo - {d}) + (done + {d}) == sel * rows.Keys && (todo - {d}) !! (done + {d})
    ensures |todo - {d}| < |todo|
    ensures |es + [EntryOf(rows[d])]| == |done + {d}|
    ensures Distinct(es + [EntryOf(rows[d])])
    ensures forall e :: e in es + [EntryOf(rows[d])] <==> exists d' :: d' in done + {d} && d' in rows && e == EntryOf(rows[d'])
  {
    NewEntry(hash, rows, done, es, d);
    DistinctAppend(es, EntryOf(rows[d]));
    ReadOneMore(rows, done, es, d);
  }

  lemma DistinctAppend(es: seq<Entry>, e: Entry)
    requires Distinct(es) && e !in es
    ensures Distinct(es + [e])
  {
  }

  lemma ReadOneMore(rows: Table, done: set<string>, es: seq<Entry>, d: string)
    requires d in rows
    requires forall e :: e in es <==> exists d' :: d' in done && d' in rows && e == EntryOf(rows[d'])
    ensures forall e :: e in es + [EntryOf(rows[d])] <==> exists d' :: d' in done + {d} && d' in rows && e == EntryOf(rows[d'])
  {
  }

  /** The key digests of the rows read for `sel` are the digests in `sel`
      that have a row. */
  lemma MatchedDigests(hash: Hasher, rows: Table, sel: set<string>, matches: seq<Entry>)
    requires Consistent(hash, rows)
    requires forall e :: e in matches <==> exists d :: d in sel && d in rows && e == EntryOf(rows[d])
    ensures (set m | m in matches :: KeyMd5(hash, m.key)) == sel * rows.Keys
  {
    forall d | d in sel * rows.Keys ensures d in (set m | m in matches :: KeyMd5(hash, m.key)) {
      assert EntryOf(rows[d]) in matches;
    }
  }

  /** Deleting the selected digests that have a row deletes the selection. */
  lemma DeleteSelected(rows: Table, sel: set<string>)
    ensures rows - (sel * rows.Keys) == rows - sel
  {
  }

  /** `associate { Pair(it.key, it.value) }`: a map from the entries' keys;
      each key maps to the value of an entry with that key. */
  method Associate(es: seq<Entry>) returns (r: map<string, Option<string>>)
    ensures forall k :: k in r <==> exists e :: e in es && e.key == k
    ensures forall k :: k in r ==> Entry(k, r[k]) in es
    ensures forall k :: k in r ==> LastWith(es, k, |es|, r[k])
  {
    r := map[];
    for j := 0 to |es|
      invariant forall k :: k in r <==> exists e :: e in es[..j] && e.key == k
      invariant forall k :: k in r ==> Entry(k, r[k]) in es[..j]
      invariant forall k :: k in r ==> LastWith(es, k, j, r[k])
    {
      assert es[..j + 1] == es[..j] + [es[j]];
      r := r[es[j].key := es[j].value];
    }
    assert es[..|es|] == es;
  }

  /** Among the first `n` entries, the last one with key `k` has value `v`. */
  ghost predicate LastWith(es: seq<Entry>, k: string, n: int, v: Option<string>) {
    exists i :: 0 <= i < n <= |es| && es[i] == Entry(k, v) && forall j :: i < j < n ==> es[j].key != k
  }

  /** An entry read from a consistent table is what its key looks up. */
  lemma ReadEntry(hash: Hasher, rows: Table, e: Entry)
    requires Consistent(hash, rows)
    requires exists d :: d in rows && e == EntryOf(rows[d])
    ensures Lookup(hash, rows, e.key) == Some(e)
  {
    var d :| d in rows && e == EntryOf(rows[d]);
    assert KeyMd5(hash, rows[d].key) == d;
  }

  /** The Dao over the backing table. */
  class MapDao {
    const hash: Hasher
    var rows: Table

    ghost predicate Valid()
      reads this
    {
      Consistent(hash, rows)
    }

    constructor (hash: Hasher)
      ensures Valid() && this.hash == hash && rows == map[]
    {
      this.hash := hash;
      rows := map[];
    }

    /** Reads the rows whose digest is in `sel`, one by one, in no
        particular order: each such row once. */
    method Collect(sel: set<string>) returns (es: seq<Entry>)
      requires Valid()
      ensures Distinct(es)
      ensures |es| == |sel * rows.Keys|
      ensures forall e :: e in es <==> exists d :: d in sel && d in rows && e == EntryOf(rows[d])
    {
      var todo := sel * rows.Keys;
      ghost var done: set<string> := {};
      es := [];
      while todo != {}
        invariant todo + done == sel * rows.Keys && todo !! done
        invariant |es| == |done|
        invariant Distinct(es)
        invariant forall e :: e in es <==> exists d :: d in done && d in rows && e == EntryOf(rows[d])
        decreases |todo|
      {
        var d :| d in todo;
        CollectStep(hash, rows, sel, todo, done, es, d);
        es := es + [EntryOf(rows[d])];
        todo := todo - {d};
        done := done + {d};
      }
      assert done == sel * rows.Keys;
    }

    /** `all`: every row. */
    method All() returns (es: seq<Entry>)
      requires Valid()
      ensures Distinct(es) && |es| == |rows|
      ensures forall e :: e in es <==> exists d :: d in rows && e == EntryOf(rows[d])
    {
      es := Collect(rows.Keys);
      assert rows.Keys * rows.Keys == rows.Keys;
    }

    /** `size`: the number of rows. */
    method Size() returns (n: int)
      ensures n == |rows|
    {
      n := |rows|;
    }

    /** `getByKeys`: the rows of the keys' digests; nothing for no keys. */
    method GetByKeys(keys: seq<string>) returns (es: seq<Entry>)
      requires Valid()
      ensures |keys| == 0 ==> es == []
      ensures Distinct(es) && |es| == |KeyDigests(hash, keys) * rows.Keys|
      ensures forall e :: e in es <==> exists d :: d in KeyDigests(hash, keys) && d in rows && e == EntryOf(rows[d])
    {
      if |keys| == 0 {
        return [];
      }
      es := Collect(KeyDigests(hash, keys));
    }

    /** `getByValues`: the rows whose value digest is one of the values';
        nothing for no values. */
    method GetByValues(values: seq<Option<string>>) returns (es: seq<Entry>)
      requires Valid()
      ensures |values| == 0 ==> es == []
      ensures Distinct(es)
      ensures forall e :: e in es <==> exists d :: d in rows && rows[d].valueMd5 in (set v | v in values :: ValueMd5(hash, v)) && e == EntryOf(rows[d])
    {
      if |values| == 0 {
        return [];
      }
      var digests := set v | v in values :: ValueMd5(hash, v);
      es := Collect(set d | d in rows && rows[d].valueMd5 in digests);
    }

    /** `put(entity)`: the previous entry of the key, if any, and the table
        after the INSERT or UPDATE. */
    method Put(key: string, value: Option<string>, now: int) returns (prev: Option<Entry>)
      requires Valid()
      modifies this`rows
      ensures Valid()
      ensures prev == Lookup(hash, old(rows), key)
      ensures rows == PutRows(hash, old(rows), key, value, now)
    {
      var peek := GetByKeys([key]);
      assert KeyDigests(hash, [key]) == {KeyMd5(hash, key)};
      if |peek| == 0 {
        prev := None;
      } else {
        assert peek[0] in peek;
        prev := Some(peek[0]);
      }
      PutConsistent(hash, rows, key, value, now);
      rows := PutRows(hash, rows, key, value, now);
    }

    /** `put(entities)`: one put per entity, in order; the previous entries
        found, in order. */
    method PutAll(es: seq<Entry>, stamps: seq<int>) returns (prevs: seq<Entry>)
      requires Valid() && |stamps| == |es|
      modifies this`rows
      ensures Valid()
      ensures rows == PutSeq(hash, old(rows), es, stamps)
      ensures prevs == PrevsOf(hash, old(rows), es, stamps)
    {
      prevs := [];
      for k := 0 to |es|
        invariant Valid()
        invariant rows == PutSeq(hash, old(rows), es[..k], stamps[..k])
        invariant prevs == PrevsOf(hash, old(rows), es[..k], stamps[..k])
      {
        assert es[..k + 1][..k] == es[..k] && stamps[..k + 1][..k] == stamps[..k];
        var prev := Put(es[k].key, es[k].value, stamps[k]);
        if prev.Some? {
          prevs := prevs + [prev.value];
        }
      }
      assert es[..|es|] == es && stamps[..|stamps|] == stamps;
    }

    /** The rows `removeAllMatches(keys)` reads first: those of the keys'
        digests, every row for no keys. */
    method Matches(keys: seq<string>) returns (matches: seq<Entry>)
      requires Valid()
      ensures var sel := Selection(hash, rows, keys);
        && Distinct(matches)
        && |matches| == |sel * rows.Keys|
        && forall e :: e in matches <==> exists d :: d in sel && d in rows && e == EntryOf(rows[d])
    {
      if |keys| == 0 {
        matches := All();
        assert rows.Keys * rows.Keys == rows.Keys;
      } else {
        matches := GetByKeys(keys);
      }
    }

    /** `removeAllMatches(keys)`: deletes and returns the rows of the keys'
        digests; every row for no keys. */
    method RemoveAllMatches(keys: seq<string>) returns (removed: seq<Entry>)
      requires Valid()
      modifies this`rows
      ensures Valid()
      ensures var sel := Selection(hash, old(rows), keys);
        && rows == old(rows) - sel
        && Distinct(removed)
        && |removed| == |sel * old(rows).Keys|
        && forall e :: e in removed <==> exists d :: d in sel && d in old(rows) && e == EntryOf(old(rows)[d])
    {
      ghost var sel := Selection(hash, rows, keys);
      var matches := Matches(keys);
      var digests := set m | m in matches :: KeyMd5(hash, m.key);
      MatchedDigests(hash, rows, sel, matches);
      DeleteSelected(rows, sel);
      if |matches| > 0 {
        rows := rows - digests;
      } else {
        assert matches == [];
        assert rows - digests == rows;
      }
      removed := matches;
    }
  }

  /** The `MutableMap` implementation over one table. */
  class SqlMap {
    const dao: MapDao

    ghost predicate Valid()
      reads this, dao
    {
      dao.Valid()
    }

    constructor (hash: Hasher)
      ensures Valid() && fresh(dao) && dao.hash == hash && dao.rows == map[]
    {
      dao := new MapDao(hash);
    }

    method Size() returns (n: int)
      ensures n == |dao.rows|
    {
      n := dao.Size();
    }

    /** `isEmpty`: `size <= 0`. */
    method IsEmpty() returns (b: bool)
      ensures b <==> dao.rows == map[]
    {
      var n := Size();
      b := n <= 0;
      if dao.rows != map[] {
        var d :| d in dao.rows;
        assert d in dao.rows.Keys;
      }
    }

    /** `containsKey`: a row has the key's digest. */
    method ContainsKey(key: string) returns (b: bool)
      requires Valid()
      ensures b <==> KeyMd5(dao.hash, key) in dao.rows
    {
      var es := dao.GetByKeys([key]);
      assert KeyDigests(dao.hash, [key]) == {KeyMd5(dao.hash, key)};
      b := |es| > 0;
      if KeyMd5(dao.hash, key) in dao.rows {
        assert EntryOf(dao.rows[KeyMd5(dao.hash, key)]) in es;
      }
    }

    /** `containsValue`: a row has the value's digest. */
    method ContainsValue(value: Option<string>) returns (b: bool)
      requires Valid()
      ensures b <==> exists d :: d in dao.rows && dao.rows[d].valueMd5 == ValueMd5(dao.hash, value)
    {
      var es := dao.GetByValues([value]);
      assert (set v | v in [value] :: ValueMd5(dao.hash, v)) == {ValueMd5(dao.hash, value)};
      b := |es| > 0;
      if b {
        assert es[0] in es;
      } else {
        forall d | d in dao.rows ensures dao.rows[d].valueMd5 != ValueMd5(dao.hash, value) {
          assert EntryOf(dao.rows[d]) !in es;
        }
      }
    }

    /** `get`: the value of the key's row; null when there is no row. */
    method Get(key: string) returns (v: Option<string>)
      requires Valid()
      ensures v == if Lookup(dao.hash, dao.rows, key).Some? then Lookup(dao.hash, dao.rows, key).value.value else None
    {
      var es := dao.GetByKeys([key]);
      assert KeyDigests(dao.hash, [key]) == {KeyMd5(dao.hash, key)};
      if |es| > 0 {
        assert es[0] in es;
        v := es[0].value;
      } else {
        v := None;
      }
    }

    /** `get(keys)`: the stored key and value of every row the keys select. */
    method GetAll(keys: seq<string>) returns (r: map<string, Option<string>>)
      requires Valid()
      ensures forall k :: k in r <==> exists d :: d in KeyDigests(dao.hash, keys) && d in dao.rows && dao.rows[d].key == k
      ensures forall k :: k in r ==> Lookup(dao.hash, dao.rows, k) == Some(Entry(k, r[k]))
    {
      var es := dao.GetByKeys(keys);
      r := Associate(es);
      forall k | k in r ensures Lookup(dao.hash, dao.rows, k) == Some(Entry(k, r[k])) {
        ReadEntry(dao.hash, dao.rows, Entry(k, r[k]));
      }
      forall k | exists d :: d in KeyDigests(dao.hash, keys) && d in dao.rows && dao.rows[d].key == k
        ensures k in r
      {
        var d :| d in KeyDigests(dao.hash, keys) && d in dao.rows && dao.rows[d].key == k;
        assert EntryOf(dao.rows[d]) in es;
      }
    }

    /** `entries`: every row's key and value. */
    method Entries() returns (s: set<Entry>)
      requires Valid()
      ensures s == set d | d in dao.rows :: EntryOf(dao.rows[d])
    {
      var es := dao.All();
      s := set e | e in es;
    }

    /** `keys`: every stored key. */
    method Keys() returns (s: set<string>)
      requires Valid()
      ensures s == set d | d in dao.rows :: dao.rows[d].key
    {
      var es := dao.All();
      s := set e | e in es :: e.key;
      forall d | d in dao.rows ensures dao.rows[d].key in s {
        assert EntryOf(dao.rows[d]) in es;
      }
    }

    /** `values` as written: the values are collected into a set, so equal
        values of different keys collapse into one. */
    method ValuesAsWritten() returns (s: set<Option<string>>)
      requires Valid()
      ensures s == set d | d in dao.rows :: dao.rows[d].value
    {
      var es := dao.All();
      s := set e | e in es :: e.value;
      forall d | d in dao.rows ensures dao.rows[d].value in s {
        assert EntryOf(dao.rows[d]) in es;
      }
    }

    /** `values(txProvider)` as written: it lists the keys, not the values. */
    method ValuesTxAsWritten() returns (vs: seq<Option<string>>)
      requires Valid()
      ensures |vs| == |dao.rows|
      ensures forall v :: v in vs <==> exists d :: d in dao.rows && v == Some(dao.rows[d].key)
    {
      var es := dao.All();
      vs := seq(|es|, i requires 0 <= i < |es| => Some(es[i].key));
      forall v | v in vs ensures exists d :: d in dao.rows && v == Some(dao.rows[d].key) {
        var i :| 0 <= i < |vs| && vs[i] == v;
        assert es[i] in es;
      }
      forall d | d in dao.rows ensures Some(dao.rows[d].key) in vs {
        assert EntryOf(dao.rows[d]) in es;
        var i :| 0 <= i < |es| && es[i] == EntryOf(dao.rows[d]);
        assert vs[i] == Some(dao.rows[d].key);
      }
    }

    /** `values`, as the map contract asks: one value per row. */
    method Values() returns (vs: seq<Option<string>>)
      requires Valid()
      ensures |vs| == |dao.rows|
      ensures forall v :: v in vs <==> exists d :: d in dao.rows && v == dao.rows[d].value
    {
      var es := dao.All();
      vs := seq(|es|, i requires 0 <= i < |es| => es[i].value);
      forall v | v in vs ensures exists d :: d in dao.rows && v == dao.rows[d].value {
        var i :| 0 <= i < |vs| && vs[i] == v;
        assert es[i] in es;
      }
      forall d | d in dao.rows ensures dao.rows[d].value in vs {
        assert EntryOf(dao.rows[d]) in es;
        var i :| 0 <= i < |es| && es[i] == EntryOf(dao.rows[d]);
        assert vs[i] == dao.rows[d].value;
      }
    }

    /** `clear`: every row is deleted. */
    method Clear()
      requires Valid()
      modifies dao`rows
      ensures Valid() && dao.rows == map[]
    {
      var _ := dao.RemoveAllMatches([]);
    }

    /** `put(key, value)`: the previous value (null when there was none). */
    method Put(key: string, value: Option<string>, now: int) returns (prev: Option<string>)
      requires Valid()
      modifies dao`rows
      ensures Valid()
      ensures prev == if Lookup(dao.hash, old(dao.rows), key).Some? then Lookup(dao.hash, old(dao.rows), key).value.value else None
      ensures dao.rows == PutRows(dao.hash, old(dao.rows), key, value, now)
    {
      var e := dao.Put(key, value, now);
      prev := if e.Some? then e.value.value else None;
    }

    /** `putAll`: one put per entry, in order. */
    method PutAll(from: seq<Entry>, stamps: seq<int>)
      requires Valid() && |stamps| == |from|
      modifies dao`rows
      ensures Valid()
      ensures dao.rows == PutSeq(dao.hash, old(dao.rows), from, stamps)
    {
      var _ := dao.PutAll(from, stamps);
    }

    /** `remove(key)`: deletes the key's row and returns its value (null
        when there was none). */
    method Remove(key: string) returns (v: Option<string>)
      requires Valid()
      modifies dao`rows
      ensures Valid()
      ensures v == if Lookup(dao.hash, old(dao.rows), key).Some? then Lookup(dao.hash, old(dao.rows), key).value.value else None
      ensures dao.rows == old(dao.rows) - {KeyMd5(dao.hash, key)}
    {
      var removed := dao.RemoveAllMatches([key]);
      assert KeyDigests(dao.hash, [key]) == {KeyMd5(dao.hash, key)};
      if |removed| > 0 {
        assert removed[0] in removed;
        v := removed[0].value;
      } else {
        v := None;
      }
    }

    /** `removeAllMatches(keys)`: deletes the rows the keys select (all for
        no keys) and returns their stored keys and values. */
    method RemoveAllMatches(keys: seq<string>) returns (r: map<string, Option<string>>)
      requires Valid()
      modifies dao`rows
      ensures Valid()
      ensures var sel := Selection(dao.hash, old(dao.rows), keys);
        && dao.rows == old(dao.rows) - sel
        && (forall k :: k in r <==> exists d :: d in sel && d in old(dao.rows) && old(dao.rows)[d].key == k)
        && (forall k :: k in r ==> Lookup(dao.hash, old(dao.rows), k) == Some(Entry(k, r[k])))
    {
      ghost var before := dao.rows;
      ghost var sel := Selection(dao.hash, dao.rows, keys);
      var es := dao.RemoveAllMatches(keys);
      r := Associate(es);
      forall k | k in r ensures Lookup(dao.hash, before, k) == Some(Entry(k, r[k])) {
        ReadEntry(dao.hash, before, Entry(k, r[k]));
      }
      forall k | exists d :: d in sel && d in before && before[d].key == k
        ensures k in r
      {
        var d :| d in sel && d in before && before[d].key == k;
        assert EntryOf(before[d]) in es;
      }
    }
  }

  /** `StringMutableEntry`: an entry read from the map, bound to its Dao. */
  class MapEntry {
    const key: string
    var value: Option<string>
    const dao: MapDao

    constructor (key: string, value: Option<string>, dao: MapDao)
      ensures this.key == key && this.value == value && this.dao == dao
    {
      this.key := key;
      this.value := value;
      this.dao := dao;
    }

    /** `setValue` as written: the entry's old value is put again, and only
        the entry object takes the new value. */
    method SetValueAsWritten(newValue: Option<string>, now: int) returns (prev: Option<string>)
      requires dao.Valid()
      modifies this`value, dao`rows
      ensures dao.Valid() && value == newValue
      ensures prev == if Lookup(dao.hash, old(dao.rows), key).Some? then Lookup(dao.hash, old(dao.rows), key).value.value else None
      ensures dao.rows == PutRows(dao.hash, old(dao.rows), key, old(value), now)
    {
      var e := dao.Put(key, value, now);
      value := newValue;
      prev := if e.Some? then e.value.value else None;
    }

    /** `setValue` as the entry contract asks: the new value is stored. */
    method SetValue(newValue: Option<string>, now: int) returns (prev: Option<string>)
      requires dao.Valid()
      modifies this`value, dao`rows
      ensures dao.Valid() && value == newValue
      ensures prev == if Lookup(dao.hash, old(dao.rows), key).Some? then Lookup(dao.hash, old(dao.rows), key).value.value else None
      ensures dao.rows == PutRows(dao.hash, old(dao.rows), key, newValue, now)
    {
      var e := dao.Put(key, newValue, now);
      value := newValue;
      prev := if e.Some? then e.value.value else None;
    }
  }

  /** `setValue("new")` on the entry of `"k" -> "old"`: as written the map
      still holds "old"; with the corrected `setValue` it holds "new". */
  method SetValueStores(hash: Hasher) returns (asWritten: Option<string>, corrected: Option<string>)
    ensures asWritten == Some("old")
    ensures corrected == Some("new")
  {
    var m := new SqlMap(hash);
    var _ := m.Put("k", Some("old"), 0);
    var e := new MapEntry("k", Some("old"), m.dao);
    var _ := e.SetValueAsWritten(Some("new"), 1);
    asWritten := m.Get("k");

    var m2 := new SqlMap(hash);
    var _ := m2.Put("k", Some("old"), 0);
    var e2 := new MapEntry("k", Some("old"), m2.dao);
    var _ := e2.SetValue(Some("new"), 1);
    corrected := m2.Get("k");
  }

  /** Two keys with one value: as written `values` has one element, the
      corrected `values` two; `values(txProvider)` as written lists the
      keys. */
  method ValuesOfTwoKeys(hash: Hasher) returns (asWritten: set<Option<string>>, asWrittenTx: seq<Option<string>>, corrected: seq<Option<string>>)
    requires KeyMd5(hash, "a") != KeyMd5(hash, "b")
    ensures |asWritten| == 1
    ensures Some("a") in asWrittenTx && Some("b") in asWrittenTx && Some("v") !in asWrittenTx
    ensures |corrected| == 2
  {
    var m := TwoKeysOneValue(hash);
    ghost var da, db := KeyMd5(hash, "a"), KeyMd5(hash, "b");
    asWritten := m.ValuesAsWritten();
    assert asWritten == {Some("v")} by {
      assert m.dao.rows[da].value == Some("v");
    }
    asWrittenTx := m.ValuesTxAsWritten();
    assert m.dao.rows[da].key == "a" && m.dao.rows[db].key == "b";
    corrected := m.Values();
    assert |m.dao.rows.Keys| == |{da, db}| == 2;
  }

  /** A fresh map holding `"a" -> "v"` and `"b" -> "v"`. */
  method TwoKeysOneValue(hash: Hasher) returns (m: SqlMap)
    requires KeyMd5(hash, "a") != KeyMd5(hash, "b")
    ensures fresh(m) && fresh(m.dao) && m.Valid()
    ensures var da, db := KeyMd5(hash, "a"), KeyMd5(hash, "b");
      && m.dao.hash == hash
      && m.dao.rows.Keys == {da, db}
      && m.dao.rows[da] == MapRow("a", Some("v"), ValueMd5(hash, Some("v")), 0)
      && m.dao.rows[db] == MapRow("b", Some("v"), ValueMd5(hash, Some("v")), 0)
  {
    m := new SqlMap(hash);
    var _ := m.Put("a", Some("v"), 0);
    var _ := m.Put("b", Some("v"), 0);
  }
}
