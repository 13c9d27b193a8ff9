// The transactions and statements the three repositories run on their pair of tables. A
// transaction works on its own copy of the tables; returning an error rolls it back.
module Transactions {
  import opened Wrappers
  import opened Catalog
  import opened Tables

  /** The transaction does to the tables what the change does to the item, or fails as it does. */
  ghost predicate Implements(t: Table, k: Key, change: ItemOp, r: Result<Table, Error>)
    requires Valid(t)
  {
    match NextItem(At(Abs(t), k), change)
    case Ok(slot) => r.Ok? && Valid(r.value) && Abs(r.value) == Put(Abs(t), k, slot)
    case Err(e) => r == Err(e)
  }

  lemma RowShows(t: Table, id: nat)
    requires Valid(t) && id in t.rows
    ensures var k := RowKey(t.rows[id]);
            && k in Abs(t) && Abs(t)[k] == ItemOf(t, id)
            && (t.rows[id].deletedAt.None? <==> Active(Abs(t), k))
  {
  }

  lemma NoRow(t: Table, k: Key)
    requires Valid(t)
    ensures k in Abs(t) <==> exists i: nat :: i in t.rows && RowKey(t.rows[i]) == k
  {
  }

  function NewRow(k: Key, version: string, policy: Option<string>): Row {
    Row(k.vault, k.name, Some(version), policy, None, None, None)
  }

  lemma InsertImplements(t: Table, id: nat, k: Key, version: string, body: Body, policy: Option<string>)
    requires Valid(t) && k !in Abs(t) && id !in t.rows
    ensures Implements(t, k, ItemOp.Upsert(version, body, policy), Ok(Rewritten(t, id, NewRow(k, version, policy), version, body)))
  {
    InsertRefines(t, id, k, version, body, policy);
  }

  lemma AppendImplements(t: Table, id: nat, version: string, body: Body, policy: Option<string>)
    requires Valid(t) && id in t.rows && t.rows[id].deletedAt.None?
    ensures var row := t.rows[id].(current := Some(version), policy := policy);
            Implements(t, RowKey(t.rows[id]), ItemOp.Upsert(version, body, policy),
                       if VersionId(id, version) in t.versions then Err(UniqueViolation)
                       else Ok(Rewritten(t, id, row, version, body)))
  {
    RowShows(t, id);
    if VersionId(id, version) !in t.versions {
      AppendRefines(t, id, version, body, policy);
    }
  }

  /** ensureX: the active row of the name, or a new one. The INSERT checks UNIQUE(vault, name),
      which a soft-deleted row still holds, and the foreign key to the vault. */
  method EnsureRow(t: Table, hasVault: bool, k: Key, policy: Option<string>) returns (r: Result<(Table, nat), Error>)
    requires Valid(t)
    ensures r == Err(UniqueViolation) ==> Deleted(Abs(t), k)
    ensures r == Err(ForeignKeyViolation) ==> k !in Abs(t) && !hasVault
    ensures r.Err? ==> r.error == UniqueViolation || r.error == ForeignKeyViolation
    ensures r.Ok? ==> var (tx, id) := r.value;
                      if id in t.rows then RowKey(t.rows[id]) == k && t.rows[id].deletedAt.None? && tx == t
                      else hasVault && k !in Abs(t) && tx == WithRow(t, id, NewRow(k, "", policy).(current := None))
  {
    NoRow(t, k);
    if i: nat :| i in t.rows && RowKey(t.rows[i]) == k && t.rows[i].deletedAt.None? {
      return Ok((t, i));
    }
    if i: nat :| i in t.rows && RowKey(t.rows[i]) == k {
      RowShows(t, i);
      return Err(UniqueViolation);
    }
    if !hasVault { return Err(ForeignKeyViolation); }
    var id := NextRowid(t.rows.Keys);
    return Ok((WithRow(t, id, NewRow(k, "", policy).(current := None)), id));
  }

  /** Upsert: ensureX, INSERT the version, which checks UNIQUE(parent, version), UPDATE current_ver. */
  method Upsert(t: Table, hasVault: bool, k: Key, version: string, body: Body, policy: Option<string>) returns (r: Result<Table, Error>)
    requires Valid(t)
    ensures if hasVault || k in Abs(t) then Implements(t, k, ItemOp.Upsert(version, body, policy), r)
            else r == Err(ForeignKeyViolation)
  {
    var ensured := EnsureRow(t, hasVault, k, policy);
    if ensured.Err? { return Err(ensured.error); }
    var (tx, id) := ensured.value;
    UpsertRefines(t, tx, id, k, version, body, policy);
    if VersionId(id, version) in tx.versions { return Err(UniqueViolation); }
    tx := WithVersion(tx, VersionId(id, version), body);
    tx := WithRow(tx, id, tx.rows[id].(current := Some(version), policy := policy));
    return Ok(tx);
  }

  lemma UpsertRefines(t: Table, tx: Table, id: nat, k: Key, version: string, body: Body, policy: Option<string>)
    requires Valid(t)
    requires if id in t.rows then RowKey(t.rows[id]) == k && t.rows[id].deletedAt.None? && tx == t
             else k !in Abs(t) && tx == WithRow(t, id, NewRow(k, "", policy).(current := None))
    ensures Implements(t, k, ItemOp.Upsert(version, body, policy),
                       if VersionId(id, version) in tx.versions then Err(UniqueViolation)
                       else Ok(WithRow(WithVersion(tx, VersionId(id, version), body), id,
                                       tx.rows[id].(current := Some(version), policy := policy))))
  {
    var row := tx.rows[id].(current := Some(version), policy := policy);
    InSteps(t, tx, id, row, version, body);
    if id in t.rows {
      AppendImplements(t, id, version, body, policy);
    } else {
      assert VersionId(id, version) !in t.versions;
      InsertImplements(t, id, k, version, body, policy);
    }
  }

  lemma InSteps(t: Table, tx: Table, id: nat, row: Row, version: string, body: Body)
    requires id in tx.rows && tx == WithRow(t, id, tx.rows[id])
    ensures WithRow(WithVersion(tx, VersionId(id, version), body), id, row) == Rewritten(t, id, row, version, body)
  {
  }

  ghost predicate Marks(t: Table, k: Key, at: int, scheduled: int, recoveryId: string, t': Table) {
    exists i: nat :: i in t.rows && RowKey(t.rows[i]) == k && t' ==
      WithRow(t, i, t.rows[i].(deletedAt := Some(at), scheduledPurge := Some(scheduled), recoveryId := Some(recoveryId)))
  }

  ghost predicate Clears(t: Table, k: Key, t': Table) {
    exists i: nat :: i in t.rows && RowKey(t.rows[i]) == k && t' ==
      WithRow(t, i, t.rows[i].(deletedAt := None, scheduledPurge := None, recoveryId := None))
  }

  /** SoftDelete: the active row gets its three deletion columns. */
  method SoftDelete(t: Table, k: Key, at: int, scheduled: int, recoveryId: string) returns (r: Result<Table, Error>)
    requires Valid(t)
    ensures Implements(t, k, ItemOp.SoftDelete(Deletion(at, scheduled, recoveryId)), r)
    ensures r.Ok? ==> Marks(t, k, at, scheduled, recoveryId, r.value)
  {
    if i: nat :| i in t.rows && RowKey(t.rows[i]) == k && t.rows[i].deletedAt.None? {
      MarkImplements(t, i, at, scheduled, recoveryId);
      return Ok(WithRow(t, i, t.rows[i].(deletedAt := Some(at), scheduledPurge := Some(scheduled), recoveryId := Some(recoveryId))));
    }
    SelectMissing(t, k);
    return Err(NotFound);
  }

  // The row of an item is updated: RowRefines, said of what the change makes of the item.
  lemma RowImplements(t: Table, i: nat, row: Row, change: ItemOp)
    requires Valid(t) && i in t.rows && RowWhole(WithRow(t, i, row), i)
    requires RowKey(row) == RowKey(t.rows[i]) && row.current == t.rows[i].current
    requires forall item: Item {:trigger NextItem(Some(item), change)} ::
               item.policy == t.rows[i].policy && item.deletion == DeletionOf(t.rows[i])
               ==> NextItem(Some(item), change) == Ok(Some(item.(policy := row.policy, deletion := DeletionOf(row))))
    ensures Implements(t, RowKey(t.rows[i]), change, Ok(WithRow(t, i, row)))
  {
    RowRefines(t, i, row);
    var item := Abs(t)[RowKey(row)];
    assert At(Abs(t), RowKey(row)) == Some(item);
    assert NextItem(Some(item), change) == Ok(Some(item.(policy := row.policy, deletion := DeletionOf(row))));
  }

  lemma MarkImplements(t: Table, i: nat, at: int, scheduled: int, recoveryId: string)
    requires Valid(t) && i in t.rows && t.rows[i].deletedAt.None?
    ensures var row := t.rows[i].(deletedAt := Some(at), scheduledPurge := Some(scheduled), recoveryId := Some(recoveryId));
            Implements(t, RowKey(t.rows[i]), ItemOp.SoftDelete(Deletion(at, scheduled, recoveryId)), Ok(WithRow(t, i, row)))
  {
    assert RowWhole(t, i);
    var row := t.rows[i].(deletedAt := Some(at), scheduledPurge := Some(scheduled), recoveryId := Some(recoveryId));
    RowImplements(t, i, row, ItemOp.SoftDelete(Deletion(at, scheduled, recoveryId)));
  }

  lemma ClearImplements(t: Table, i: nat)
    requires Valid(t) && i in t.rows && t.rows[i].deletedAt.Some?
    ensures var row := t.rows[i].(deletedAt := None, scheduledPurge := None, recoveryId := None);
            Implements(t, RowKey(t.rows[i]), ItemOp.Recover, Ok(WithRow(t, i, row)))
  {
    assert RowWhole(t, i);
    RowImplements(t, i, t.rows[i].(deletedAt := None, scheduledPurge := None, recoveryId := None), ItemOp.Recover);
  }

  lemma PolicyImplements(t: Table, i: nat, json: string)
    requires Valid(t) && i in t.rows && t.rows[i].deletedAt.None?
    ensures Implements(t, RowKey(t.rows[i]), ItemOp.SetPolicy(json), Ok(WithRow(t, i, t.rows[i].(policy := Some(json)))))
  {
    assert RowWhole(t, i);
    RowImplements(t, i, t.rows[i].(policy := Some(json)), ItemOp.SetPolicy(json));
  }

  lemma SelectMissing(t: Table, k: Key)
    requires Valid(t)
    ensures Active(Abs(t), k) <==> exists i: nat :: i in t.rows && RowKey(t.rows[i]) == k && t.rows[i].deletedAt.None?
    ensures Deleted(Abs(t), k) <==> exists i: nat :: i in t.rows && RowKey(t.rows[i]) == k && t.rows[i].deletedAt.Some?
  {
  }

  /** Recover: the soft-deleted row gets its three deletion columns back to NULL. */
  method Recover(t: Table, k: Key) returns (r: Result<Table, Error>)
    requires Valid(t)
    ensures Implements(t, k, ItemOp.Recover, r)
    ensures r.Ok? ==> Clears(t, k, r.value)
  {
    if i: nat :| i in t.rows && RowKey(t.rows[i]) == k && t.rows[i].deletedAt.Some? {
      ClearImplements(t, i);
      return Ok(WithRow(t, i, t.rows[i].(deletedAt := None, scheduledPurge := None, recoveryId := None)));
    }
    SelectMissing(t, k);
    return Err(NotFound);
  }

  /** Purge: DELETE ... WHERE deleted_at IS NOT NULL, cascading to the versions. */
  method Purge(t: Table, k: Key) returns (r: Result<Table, Error>)
    requires Valid(t)
    ensures Implements(t, k, ItemOp.Purge, r)
  {
    var ids := set i | i in t.rows && RowKey(t.rows[i]) == k && t.rows[i].deletedAt.Some?;
    PurgeImplements(t, k, ids);
    return if ids == {} then Err(NotFound) else Ok(WithoutRows(t, ids));
  }

  ghost predicate IsPurgeSet(t: Table, k: Key, ids: set<nat>) {
    forall i: nat :: i in ids <==> i in t.rows && RowKey(t.rows[i]) == k && t.rows[i].deletedAt.Some?
  }

  lemma PurgeRemoves(t: Table, k: Key, ids: set<nat>, i: nat)
    requires Valid(t) && IsPurgeSet(t, k, ids) && i in ids
    ensures Valid(WithoutRows(t, ids)) && Abs(WithoutRows(t, ids)) == Abs(t) - {k}
  {
    forall j | j in t.rows
      ensures j in ids <==> RowKey(t.rows[j]) in {k}
    {
      if RowKey(t.rows[j]) == k { assert j == i; }
    }
    RemoveRefines(t, ids, {k});
  }

  lemma PurgeSetEmpty(t: Table, k: Key, ids: set<nat>)
    requires Valid(t) && IsPurgeSet(t, k, ids)
    ensures ids == {} <==> !Deleted(Abs(t), k)
  {
  }

  lemma PurgeImplements(t: Table, k: Key, ids: set<nat>)
    requires Valid(t) && IsPurgeSet(t, k, ids)
    ensures Implements(t, k, ItemOp.Purge, if ids == {} then Err(NotFound) else Ok(WithoutRows(t, ids)))
  {
    PurgeSetEmpty(t, k, ids);
    if i: nat :| i in ids {
      PurgeRemoves(t, k, ids, i);
      RemovalImplements(t, k, WithoutRows(t, ids));
    }
  }

  lemma RemovalImplements(t: Table, k: Key, t': Table)
    requires Valid(t) && Valid(t') && Deleted(Abs(t), k) && Abs(t') == Abs(t) - {k}
    ensures Implements(t, k, ItemOp.Purge, Ok(t'))
  {
    assert NextItem(At(Abs(t), k), ItemOp.Purge) == Ok(None);
  }

  /** One statement of the purge scheduler. */
  method SweepDue(t: Table, now: int) returns (swept: Table)
    requires Valid(t)
    ensures Valid(swept) && Abs(swept) == Sweep(Abs(t), now)
  {
    var ids := set i | i in t.rows && t.rows[i].deletedAt.Some? && t.rows[i].scheduledPurge.Some?
                       && t.rows[i].scheduledPurge.value <= now;
    forall i | i in t.rows
      ensures i in ids <==> RowKey(t.rows[i]) in DueKeys(Abs(t), now)
    {
      RowIsDue(t, i, now);
    }
    RemoveRefines(t, ids, DueKeys(Abs(t), now));
    return WithoutRows(t, ids);
  }

  lemma RowIsDue(t: Table, i: nat, now: int)
    requires Valid(t) && i in t.rows
    ensures RowKey(t.rows[i]) in Abs(t)
    ensures Due(Abs(t)[RowKey(t.rows[i])], now) <==>
            t.rows[i].deletedAt.Some? && t.rows[i].scheduledPurge.Some? && t.rows[i].scheduledPurge.value <= now
  {
  }

  /** UPDATE secret_version ... WHERE secret_id = (SELECT the active row) AND version = ?. */
  method UpdateVersion(t: Table, k: Key, version: string, patch: Patch) returns (r: Result<Table, Error>)
    requires Valid(t)
    ensures Implements(t, k, ItemOp.PatchVersion(version, patch), r)
  {
    SelectMissing(t, k);
    if i: nat :| i in t.rows && RowKey(t.rows[i]) == k && t.rows[i].deletedAt.None? {
      RowShows(t, i);
      var v := VersionId(i, version);
      if v !in t.versions { return Err(NotFound); }
      PatchRefines(t, v, Patched(t.versions[v], patch));
      return Ok(WithVersion(t, v, Patched(t.versions[v], patch)));
    }
    return Err(NotFound);
  }

  /** UPDATE vcert SET policy_json = ? on the active row. */
  method UpdatePolicy(t: Table, k: Key, json: string) returns (r: Result<Table, Error>)
    requires Valid(t)
    ensures Implements(t, k, ItemOp.SetPolicy(json), r)
  {
    if i: nat :| i in t.rows && RowKey(t.rows[i]) == k && t.rows[i].deletedAt.None? {
      PolicyImplements(t, i, json);
      return Ok(WithRow(t, i, t.rows[i].(policy := Some(json))));
    }
    SelectMissing(t, k);
    return Err(NotFound);
  }

  // ---- queries ----

  /** JOIN on current_ver of the active row. */
  method SelectCurrent(t: Table, k: Key) returns (r: Option<(string, Body)>)
    requires Valid(t)
    ensures r == GetCurrent(Abs(t), k)
  {
    SelectMissing(t, k);
    if i: nat :| i in t.rows && RowKey(t.rows[i]) == k && t.rows[i].deletedAt.None?
                 && t.rows[i].current.Some? && VersionId(i, t.rows[i].current.value) in t.versions {
      RowShows(t, i);
      return Some((t.rows[i].current.value, t.versions[VersionId(i, t.rows[i].current.value)]));
    }
    forall i: nat | i in t.rows ensures RowWhole(t, i) {}
    return None;
  }

  /** JOIN on a given version of the active row. */
  method SelectVersion(t: Table, k: Key, version: string) returns (r: Option<Body>)
    requires Valid(t)
    ensures r == GetVersion(Abs(t), k, version)
  {
    SelectMissing(t, k);
    if i: nat :| i in t.rows && RowKey(t.rows[i]) == k && t.rows[i].deletedAt.None? && VersionId(i, version) in t.versions {
      RowShows(t, i);
      return Some(t.versions[VersionId(i, version)]);
    }
    if Active(Abs(t), k) {
      ghost var i: nat :| i in t.rows && RowKey(t.rows[i]) == k && t.rows[i].deletedAt.None?;
      RowShows(t, i);
    }
    return None;
  }

  /** SELECT COUNT(1) of the active row. */
  method IsActive(t: Table, k: Key) returns (active: bool)
    requires Valid(t)
    ensures active <==> Active(Abs(t), k)
  {
    SelectMissing(t, k);
    return exists i: nat :: i in t.rows && RowKey(t.rows[i]) == k && t.rows[i].deletedAt.None?;
  }

  /** JOIN on all versions of the active row: no version of any other item, past or present. */
  method SelectVersions(t: Table, k: Key) returns (versions: map<string, Body>)
    requires Valid(t)
    ensures versions == if Active(Abs(t), k) then Abs(t)[k].versions else map[]
  {
    SelectMissing(t, k);
    if i: nat :| i in t.rows && RowKey(t.rows[i]) == k && t.rows[i].deletedAt.None? {
      RowShows(t, i);
      versions := map v | v in t.versions && v.parent == i :: v.version := t.versions[v];
      JoinedVersions(t, i, versions);
      return;
    }
    return map[];
  }

  lemma JoinedVersions(t: Table, i: nat, versions: map<string, Body>)
    requires forall v :: v in t.versions && v.parent == i ==> v.version in versions && versions[v.version] == t.versions[v]
    requires forall x :: x in versions ==> VersionId(i, x) in t.versions
    ensures versions == VersionsOf(t, i)
  {
    forall x ensures x in versions <==> x in VersionNames(t, i) {
      if VersionId(i, x) in t.versions { assert VersionId(i, x).version in versions; }
    }
    forall x | x in versions ensures versions[x] == VersionsOf(t, i)[x] {
      assert VersionId(i, x) in t.versions;
    }
  }

  /** SELECT deleted_at: false when there is no row at all. */
  method IsDeleted(t: Table, k: Key) returns (deleted: bool)
    requires Valid(t)
    ensures deleted <==> Deleted(Abs(t), k)
  {
    SelectMissing(t, k);
    if i: nat :| i in t.rows && RowKey(t.rows[i]) == k {
      RowShows(t, i);
      return t.rows[i].deletedAt.Some?;
    }
    return false;
  }

  /** The names of the active rows of a vault whose current version joins. */
  function JoinedNames(t: Table, vault: string): set<string> {
    set i | i in t.rows && t.rows[i].vault == vault && t.rows[i].deletedAt.None?
            && t.rows[i].current.Some? && VersionId(i, t.rows[i].current.value) in t.versions :: t.rows[i].name
  }

  /** The inner join of a listing loses no active item. */
  lemma JoinedNamesAreActive(t: Table, vault: string)
    requires Valid(t)
    ensures JoinedNames(t, vault) == ActiveNames(Abs(t), vault)
  {
    forall n | n in JoinedNames(t, vault)
      ensures n in ActiveNames(Abs(t), vault)
    {
      var i :| i in t.rows && t.rows[i].vault == vault && t.rows[i].deletedAt.None? && t.rows[i].name == n;
      RowShows(t, i);
      assert RowKey(t.rows[i]) in Abs(t);
    }
    forall n | n in ActiveNames(Abs(t), vault)
      ensures n in JoinedNames(t, vault)
    {
      var k :| k in Abs(t) && k.vault == vault && Abs(t)[k].deletion.None? && k.name == n;
      var i := IdOf(t, k);
      RowShows(t, i);
      assert RowWhole(t, i);
    }
  }

  // ---- deleting and recovering, on the tables themselves ----

  /** SoftDelete then Recover leaves every row as it was, rowids and columns included. */
  method DeleteThenRecover(t: Table, k: Key, at: int, scheduled: int, recoveryId: string) returns (r: Result<Table, Error>)
    requires Valid(t)
    ensures r.Ok? <==> Active(Abs(t), k)
    ensures r.Ok? ==> r.value == t
  {
    var deleted := SoftDelete(t, k, at, scheduled, recoveryId);
    DeletesActive(t, k, Deletion(at, scheduled, recoveryId), deleted);
    if deleted.Err? { return deleted; }
    r := Recover(deleted.value, k);
    RecoversDeleted(deleted.value, k, r);
    MarkThenClear(t, k, at, scheduled, recoveryId, deleted.value, r.value);
  }

  lemma DeletesActive(t: Table, k: Key, d: Deletion, r: Result<Table, Error>)
    requires Valid(t) && Implements(t, k, ItemOp.SoftDelete(d), r)
    ensures r.Ok? <==> Active(Abs(t), k)
    ensures r.Ok? ==> Valid(r.value) && Deleted(Abs(r.value), k)
  {
  }

  lemma RecoversDeleted(t: Table, k: Key, r: Result<Table, Error>)
    requires Valid(t) && Implements(t, k, ItemOp.Recover, r)
    ensures r.Ok? <==> Deleted(Abs(t), k)
  {
  }

  lemma MarkThenClear(t: Table, k: Key, at: int, scheduled: int, recoveryId: string, t1: Table, t2: Table)
    requires Valid(t) && Active(Abs(t), k)
    requires Marks(t, k, at, scheduled, recoveryId, t1) && Clears(t1, k, t2)
    ensures t2 == t
  {
  }
}
