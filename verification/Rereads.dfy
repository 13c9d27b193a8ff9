// SoftDelete and Recover commit, give the connection back, and then read the version they
// answer with by rowid, in a statement of its own. Other transactions may come in between.
module Rereads {
  import opened Wrappers
  import opened Catalog
  import opened Tables

  /** getCurrentVersion: the row's name and its current version, by rowid. */
  function ReadById(t: Table, id: nat): Option<(string, string, Body)> {
    if id in t.rows && t.rows[id].current.Some? && VersionId(id, t.rows[id].current.value) in t.versions
    then Some((t.rows[id].name, t.rows[id].current.value, t.versions[VersionId(id, t.rows[id].current.value)]))
    else None
  }

  /** What transactions do to the tables: write a row with one of its versions, update a
      version or a row, remove rows. */
  datatype Change =
    | Write(id: nat, row: Row, version: string, body: Body)
    | UpdateVersion(v: VersionId, body: Body)
    | UpdateRow(id: nat, row: Row)
    | Remove(ids: set<nat>)

  ghost predicate Possible(t: Table, c: Change) {
    match c
    case Write(id, row, version, body) => Rewritable(t, id, row) && RowWhole(Rewritten(t, id, row, version, body), id)
    case UpdateVersion(v, _) => v in t.versions
    case UpdateRow(id, row) =>
      id in t.rows && RowKey(row) == RowKey(t.rows[id]) && row.current == t.rows[id].current && RowWhole(WithRow(t, id, row), id)
    case Remove(_) => true
  }

  function Changed(t: Table, c: Change): Table {
    match c
    case Write(id, row, version, body) => Rewritten(t, id, row, version, body)
    case UpdateVersion(v, body) => WithVersion(t, v, body)
    case UpdateRow(id, row) => WithRow(t, id, row)
    case Remove(ids) => WithoutRows(t, ids)
  }

  ghost predicate Possibles(t: Table, cs: seq<Change>)
    decreases |cs|
  {
    cs == [] || (Possible(t, cs[0]) && Possibles(Changed(t, cs[0]), cs[1..]))
  }

  function After(t: Table, cs: seq<Change>): Table
    decreases |cs|
  {
    if cs == [] then t else After(Changed(t, cs[0]), cs[1..])
  }

  predicate Spares(cs: seq<Change>, id: nat) {
    forall i :: 0 <= i < |cs| && cs[i].Remove? ==> id !in cs[i].ids
  }

  lemma ChangeKeepsValid(t: Table, c: Change)
    requires Valid(t) && Possible(t, c)
    ensures Valid(Changed(t, c))
  {
    match c
    case Write(id, row, version, body) => RewriteKeepsValid(t, id, row, version, body);
    case UpdateVersion(v, body) => PatchRefines(t, v, body);
    case UpdateRow(id, row) => RowRefines(t, id, row);
    case Remove(ids) =>
      forall i | i in t.rows ensures i in ids <==> RowKey(t.rows[i]) in KeysOf(t, ids) {
        assert i in ids ==> RowKey(t.rows[i]) in KeysOf(t, ids);
      }
      RemoveRefines(t, ids, KeysOf(t, ids));
  }

  ghost function KeysOf(t: Table, ids: set<nat>): set<Key> {
    set i | i in t.rows && i in ids :: RowKey(t.rows[i])
  }

  lemma ReadShowsItem(t: Table, id: nat)
    requires Valid(t) && id in t.rows
    ensures var k := RowKey(t.rows[id]);
            k in Abs(t) && var item := Abs(t)[k];
            item.current in item.versions && ReadById(t, id) == Some((k.name, item.current, item.versions[item.current]))
  {
  }

  /** Whatever else commits in between, new versions and other items included, the answer is
      the current version of the very item the transaction was about, unless its row goes. */
  lemma {:induction false} RereadShowsOwnItem(t: Table, id: nat, cs: seq<Change>)
    requires Valid(t) && id in t.rows && Possibles(t, cs) && Spares(cs, id)
    ensures var k, t' := RowKey(t.rows[id]), After(t, cs);
            && Valid(t') && k in Abs(t') && var item := Abs(t')[k];
            item.current in item.versions && ReadById(t', id) == Some((k.name, item.current, item.versions[item.current]))
    decreases |cs|
  {
    if cs == [] {
      ReadShowsItem(t, id);
    } else {
      var t1 := Changed(t, cs[0]);
      ChangeKeepsValid(t, cs[0]);
      assert id in t1.rows && RowKey(t1.rows[id]) == RowKey(t.rows[id]);
      RereadShowsOwnItem(t1, id, cs[1..]);
    }
  }

  /** Purged in between, with another item created before the read: no row answers, unless the
      removed rowid is the next one SQLite gives out, as that of the newest row is. Then the
      answer is the other item's version. */
  lemma RereadAfterPurge(t: Table, id: nat, row: Row, version: string, body: Body)
    requires Valid(t) && id in t.rows && row.current == Some(version)
    ensures var purged := WithoutRows(t, {id});
            ReadById(Rewritten(purged, NextRowid(purged.rows.Keys), row, version, body), id) ==
            if NextRowid(t.rows.Keys - {id}) == id then Some((row.name, version, body)) else None
  {
  }
}
