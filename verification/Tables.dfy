// One logical table and its version table, as SQLite holds them: rows under rowids, UNIQUE
// pairs, a foreign key that cascades. They represent a catalog (see Abs), whichever unused
// rowid a new row is given. No statement reads a version row's own rowid, so version rows
// are kept under their UNIQUE (parent, version) pair.
module Tables {
  import opened Wrappers
  import opened Catalog

  /** A row of secret, vkey or vcert. NULL is None; `policy` is the policy_json of vcert. */
  datatype Row = Row(vault: string, name: string, current: Option<string>, policy: Option<string>,
                     deletedAt: Option<int>, scheduledPurge: Option<int>, recoveryId: Option<string>)

  datatype VersionId = VersionId(parent: nat, version: string)

  datatype Table = Table(rows: map<nat, Row>, versions: map<VersionId, Body>)

  function RowKey(r: Row): Key { Key(r.vault, r.name) }

  // ---- the invariant between transactions ----

  ghost predicate UniqueNames(t: Table) {
    forall i, j :: i in t.rows && j in t.rows && RowKey(t.rows[i]) == RowKey(t.rows[j]) ==> i == j
  }

  ghost predicate NoOrphans(t: Table) {
    forall v :: v in t.versions ==> v.parent in t.rows
  }

  predicate RowWhole(t: Table, id: nat)
    requires id in t.rows
  {
    var r := t.rows[id];
    && r.current.Some? && VersionId(id, r.current.value) in t.versions
    && r.deletedAt.Some? == r.scheduledPurge.Some? == r.recoveryId.Some?
  }

  ghost predicate Valid(t: Table) {
    UniqueNames(t) && NoOrphans(t) && forall i :: i in t.rows ==> RowWhole(t, i)
  }

  /** The constraints one by one: names are unique, versions have their row, the current version is
      there, and the deletion columns are all set or all NULL. */
  lemma ValidSays(t: Table)
    requires Valid(t)
    ensures forall i, j :: i in t.rows && j in t.rows && i != j
                           ==> t.rows[i].vault != t.rows[j].vault || t.rows[i].name != t.rows[j].name
    ensures forall v :: v in t.versions ==> v.parent in t.rows
    ensures forall i :: i in t.rows ==> t.rows[i].current.Some? && VersionId(i, t.rows[i].current.value) in t.versions
    ensures forall i :: i in t.rows && t.rows[i].deletedAt.Some? ==> t.rows[i].scheduledPurge.Some? && t.rows[i].recoveryId.Some?
    ensures forall i :: i in t.rows && t.rows[i].deletedAt.None? ==> t.rows[i].scheduledPurge.None? && t.rows[i].recoveryId.None?
  {
    forall i, j | i in t.rows && j in t.rows && i != j
      ensures t.rows[i].vault != t.rows[j].vault || t.rows[i].name != t.rows[j].name
    {
      assert RowKey(t.rows[i]) != RowKey(t.rows[j]);
    }
    forall i | i in t.rows ensures RowWhole(t, i) {}
  }

  // ---- what the tables represent ----

  ghost function Names(t: Table): (s: set<Key>)
    ensures forall i :: i in t.rows ==> RowKey(t.rows[i]) in s
  {
    set i | i in t.rows :: RowKey(t.rows[i])
  }

  ghost function IdOf(t: Table, k: Key): (id: nat)
    requires k in Names(t)
    ensures id in t.rows && RowKey(t.rows[id]) == k
  {
    var id :| id in t.rows && RowKey(t.rows[id]) == k; id
  }

  ghost function VersionNames(t: Table, id: nat): (s: set<string>)
    ensures forall x :: x in s <==> VersionId(id, x) in t.versions
  {
    var s := set v | v in t.versions && v.parent == id :: v.version;
    assert forall x :: VersionId(id, x) in t.versions ==> VersionId(id, x).version in s;
    s
  }

  ghost function VersionsOf(t: Table, id: nat): map<string, Body> {
    map x | x in VersionNames(t, id) :: t.versions[VersionId(id, x)]
  }

  ghost function DeletionOf(r: Row): Option<Deletion> {
    if r.deletedAt.Some? && r.scheduledPurge.Some? && r.recoveryId.Some?
    then Some(Deletion(r.deletedAt.value, r.scheduledPurge.value, r.recoveryId.value)) else None
  }

  ghost function ItemOf(t: Table, id: nat): Item
    requires id in t.rows && RowWhole(t, id)
  {
    Item(VersionsOf(t, id), t.rows[id].current.value, t.rows[id].policy, DeletionOf(t.rows[id]))
  }

  ghost function Abs(t: Table): Catalog
    requires Valid(t)
  {
    map k | k in Names(t) :: ItemOf(t, IdOf(t, k))
  }

  lemma AbsAt(t: Table, id: nat)
    requires Valid(t) && id in t.rows
    ensures RowKey(t.rows[id]) in Abs(t)
    ensures Abs(t)[RowKey(t.rows[id])] == ItemOf(t, id)
  {
  }

  lemma AbsMissing(t: Table, k: Key)
    requires Valid(t)
    ensures k in Abs(t) <==> exists i :: i in t.rows && RowKey(t.rows[i]) == k
  {
  }

  /** To know the catalog of a table it is enough to know the item of every row. */
  lemma AbsIs(t: Table, c: Catalog)
    requires Valid(t)
    requires forall i :: i in t.rows ==> RowKey(t.rows[i]) in c && c[RowKey(t.rows[i])] == ItemOf(t, i)
    requires forall k :: k in c ==> k in Names(t)
    ensures Abs(t) == c
  {
    forall k | k in Names(t)
      ensures k in c && Abs(t)[k] == c[k]
    {
      AbsAt(t, IdOf(t, k));
    }
  }

  // ---- what each transaction does to the catalog ----

  function WithRow(t: Table, id: nat, r: Row): Table { t.(rows := t.rows[id := r]) }

  function WithVersion(t: Table, v: VersionId, body: Body): Table { t.(versions := t.versions[v := body]) }

  /** DELETE with ON DELETE CASCADE. */
  function WithoutRows(t: Table, ids: set<nat>): Table {
    Table(t.rows - ids, map v | v in t.versions && v.parent !in ids :: t.versions[v])
  }

  lemma VersionsAfter(t: Table, v: VersionId, body: Body)
    ensures VersionsOf(WithVersion(t, v, body), v.parent) == VersionsOf(t, v.parent)[v.version := body]
    ensures forall j :: j != v.parent ==> VersionsOf(WithVersion(t, v, body), j) == VersionsOf(t, j)
  {
    var t' := WithVersion(t, v, body);
    assert forall x :: x in VersionNames(t', v.parent) <==> x == v.version || x in VersionNames(t, v.parent);
    forall j | j != v.parent
      ensures VersionsOf(t', j) == VersionsOf(t, j)
    {
      assert forall x :: x in VersionNames(t', j) <==> x in VersionNames(t, j);
    }
  }

  lemma VersionsUnaffected(t: Table, t': Table, id: nat)
    requires forall x :: VersionId(id, x) in t.versions <==> VersionId(id, x) in t'.versions
    requires forall x :: VersionId(id, x) in t.versions ==> t.versions[VersionId(id, x)] == t'.versions[VersionId(id, x)]
    ensures VersionsOf(t, id) == VersionsOf(t', id)
  {
    assert forall x :: x in VersionNames(t, id) <==> x in VersionNames(t', id);
  }

  // Rewriting one row and one of its versions. `r` takes a free name or keeps its own.
  ghost predicate Rewritable(t: Table, id: nat, r: Row) {
    if id in t.rows then RowKey(r) == RowKey(t.rows[id])
    else forall j :: j in t.rows ==> RowKey(t.rows[j]) != RowKey(r)
  }

  function Rewritten(t: Table, id: nat, r: Row, version: string, body: Body): Table {
    WithVersion(WithRow(t, id, r), VersionId(id, version), body)
  }

  lemma RewriteKeepsValid(t: Table, id: nat, r: Row, version: string, body: Body)
    requires Valid(t) && Rewritable(t, id, r) && RowWhole(Rewritten(t, id, r, version, body), id)
    ensures Valid(Rewritten(t, id, r, version, body))
  {
    var t' := Rewritten(t, id, r, version, body);
    forall j | j in t'.rows
      ensures RowWhole(t', j)
    {
      if j != id {
        assert RowWhole(t, j);
      }
    }
    assert forall j :: j in t.rows && j != id ==> t'.rows[j] == t.rows[j];
  }

  lemma RewriteElsewhere(t: Table, id: nat, r: Row, version: string, body: Body, j: nat)
    requires Valid(t) && Valid(Rewritten(t, id, r, version, body)) && j in t.rows && j != id
    ensures ItemOf(Rewritten(t, id, r, version, body), j) == ItemOf(t, j)
  {
    VersionsUnaffected(t, Rewritten(t, id, r, version, body), j);
  }

  ghost function RewrittenItem(t: Table, id: nat, r: Row, version: string, body: Body): Item
    requires r.current.Some?
  {
    Item(VersionsOf(t, id)[version := body], r.current.value, r.policy, DeletionOf(r))
  }

  lemma RewriteHere(t: Table, id: nat, r: Row, version: string, body: Body)
    requires RowWhole(Rewritten(t, id, r, version, body), id)
    ensures ItemOf(Rewritten(t, id, r, version, body), id) == RewrittenItem(t, id, r, version, body)
  {
    VersionsAfter(WithRow(t, id, r), VersionId(id, version), body);
    VersionsUnaffected(t, WithRow(t, id, r), id);
  }

  lemma RewriteRefines(t: Table, id: nat, r: Row, version: string, body: Body)
    requires Valid(t) && Rewritable(t, id, r) && RowWhole(Rewritten(t, id, r, version, body), id)
    ensures var t' := Rewritten(t, id, r, version, body);
            && Valid(t')
            && Abs(t') == Abs(t)[RowKey(r) := RewrittenItem(t, id, r, version, body)]
  {
    var t' := Rewritten(t, id, r, version, body);
    var c := Abs(t)[RowKey(r) := RewrittenItem(t, id, r, version, body)];
    RewriteKeepsValid(t, id, r, version, body);
    RewriteHere(t, id, r, version, body);
    forall j | j in t'.rows && j != id
      ensures RowKey(t'.rows[j]) in c && c[RowKey(t'.rows[j])] == ItemOf(t', j)
    {
      AbsAt(t, j);
      RewriteElsewhere(t, id, r, version, body, j);
    }
    assert t'.rows[id] == r;
    NamesAfter(t, id, r, version, body);
    AbsIs(t', c);
  }

  lemma NamesAfter(t: Table, id: nat, r: Row, version: string, body: Body)
    requires Rewritable(t, id, r)
    ensures Names(Rewritten(t, id, r, version, body)) == Names(t) + {RowKey(r)}
  {
    var t' := Rewritten(t, id, r, version, body);
    assert t'.rows[id] == r && id in t'.rows;
    forall k | k in Names(t) ensures k in Names(t') {
      var j := IdOf(t, k);
      assert j in t'.rows && RowKey(t'.rows[j]) == k;
    }
    forall k | k in Names(t') ensures k in Names(t) + {RowKey(r)} {
      var j := IdOf(t', k);
      if j != id { assert j in t.rows && t'.rows[j] == t.rows[j]; }
    }
  }

  /** First Upsert of a name: whatever unused rowid the row gets, a version of a purged item
      that once had the same rowid never shows up again. */
  lemma InsertRefines(t: Table, id: nat, k: Key, version: string, body: Body, policy: Option<string>)
    requires Valid(t) && k !in Abs(t) && id !in t.rows
    ensures var t' := Rewritten(t, id, Row(k.vault, k.name, Some(version), policy, None, None, None), version, body);
            Valid(t') && Abs(t') == Abs(t)[k := Item(map[version := body], version, policy, None)]
  {
    forall j | j in t.rows ensures RowKey(t.rows[j]) != k { AbsAt(t, j); }
    assert forall x :: VersionId(id, x) !in t.versions;
    assert VersionsOf(t, id) == map[];
    RewriteRefines(t, id, Row(k.vault, k.name, Some(version), policy, None, None, None), version, body);
  }

  /** A later Upsert: one more version, and it is the current one. */
  lemma AppendRefines(t: Table, id: nat, version: string, body: Body, policy: Option<string>)
    requires Valid(t) && id in t.rows && VersionId(id, version) !in t.versions
    ensures var t' := Rewritten(t, id, t.rows[id].(current := Some(version), policy := policy), version, body);
            var k, item := RowKey(t.rows[id]), ItemOf(t, id);
            && Valid(t') && k in Abs(t) && Abs(t)[k] == item && version !in item.versions
            && Abs(t') == Abs(t)[k := item.(versions := item.versions[version := body], current := version, policy := policy)]
  {
    AbsAt(t, id);
    RewriteRefines(t, id, t.rows[id].(current := Some(version), policy := policy), version, body);
  }

  /** An UPDATE of one version row. */
  lemma PatchRefines(t: Table, v: VersionId, body: Body)
    requires Valid(t) && v in t.versions
    ensures var t' := WithVersion(t, v, body);
            var k, item := RowKey(t.rows[v.parent]), ItemOf(t, v.parent);
            && Valid(t') && k in Abs(t) && Abs(t)[k] == item && v.version in item.versions
            && Abs(t') == Abs(t)[k := item.(versions := item.versions[v.version := body])]
  {
    AbsAt(t, v.parent);
    assert WithRow(t, v.parent, t.rows[v.parent]) == t;
    RewriteRefines(t, v.parent, t.rows[v.parent], v.version, body);
  }

  /** An UPDATE of the policy or the deletion columns of one row. */
  lemma RowRefines(t: Table, id: nat, r: Row)
    requires Valid(t) && id in t.rows
    requires RowKey(r) == RowKey(t.rows[id]) && r.current == t.rows[id].current && RowWhole(WithRow(t, id, r), id)
    ensures var t' := WithRow(t, id, r);
            && Valid(t') && RowKey(r) in Abs(t)
            && Abs(t)[RowKey(r)].policy == t.rows[id].policy && Abs(t)[RowKey(r)].deletion == DeletionOf(t.rows[id])
            && Abs(t') == Abs(t)[RowKey(r) := Abs(t)[RowKey(r)].(policy := r.policy, deletion := DeletionOf(r))]
  {
    var version := r.current.value;
    var body := t.versions[VersionId(id, version)];
    AbsAt(t, id);
    assert WithVersion(WithRow(t, id, r), VersionId(id, version), body) == WithRow(t, id, r);
    RewriteRefines(t, id, r, version, body);
    assert VersionsOf(t, id)[version := body] == VersionsOf(t, id);
  }

  /** A DELETE takes the items of the rows it matches and nothing else. */
  lemma RemoveRefines(t: Table, ids: set<nat>, gone: set<Key>)
    requires Valid(t)
    requires forall i :: i in t.rows ==> (i in ids <==> RowKey(t.rows[i]) in gone)
    ensures Valid(WithoutRows(t, ids)) && Abs(WithoutRows(t, ids)) == Abs(t) - gone
  {
    var t' := WithoutRows(t, ids);
    var c := Abs(t) - gone;
    forall j | j in t'.rows
      ensures RowWhole(t', j)
      ensures RowKey(t'.rows[j]) in c && c[RowKey(t'.rows[j])] == ItemOf(t', j)
    {
      assert RowWhole(t, j);
      AbsAt(t, j);
      VersionsUnaffected(t, t', j);
    }
    forall k | k in c
      ensures k in Names(t')
    {
      assert IdOf(t, k) in t'.rows;
    }
    AbsIs(t', c);
  }

  // ---- rowids ----

  lemma {:induction false} HasMaximum(s: set<nat>)
    requires s != {}
    ensures exists m :: m in s && forall x :: x in s ==> x <= m
  {
    var y :| y in s;
    if s != {y} {
      HasMaximum(s - {y});
      var m :| m in s - {y} && forall x :: x in s - {y} ==> x <= m;
      var top := if y <= m then m else y;
      assert top in s;
      assert forall x :: x in s ==> x == y || x in s - {y};
    }
  }

  /** The rowid SQLite gives a new row without AUTOINCREMENT: one more than the largest in
      use, so the rowid of a purged row may come back. */
  function NextRowid(used: set<nat>): (id: nat)
    ensures id !in used && (forall x :: x in used ==> x < id)
    ensures if used == {} then id == 1 else id - 1 in used
  {
    if used == {} then 1
    else
      HasMaximum(used);
      var m :| m in used && forall x :: x in used ==> x <= m;
      m + 1
  }
}
