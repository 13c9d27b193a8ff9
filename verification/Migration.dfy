// Migration 0003: the vault table is re-keyed from the old id, a host, to the first label of
// that id, and every table that refers to a vault is rebuilt. Foreign keys are off meanwhile.
module Migration {
  import opened Wrappers
  import opened Text
  import opened Catalog
  import opened Tables
  import VaultHost
  import Vaults
  import Worlds

  type Vault = Worlds.Vault

  datatype OldVault = OldVault(dnsName: string, tenant: string, created: int)

  /** CASE WHEN instr(id, '.') > 0 THEN substr(...) ELSE id END. */
  function Label(id: string): string { Before(id, '.') }

  function NewVault(id: string, v: OldVault): Vault {
    Worlds.Vault(Label(id), id, "Default Vault", v.tenant, v.created, v.created)
  }

  ghost predicate DistinctLabels(v1: map<string, OldVault>) {
    forall a, b :: a in v1 && b in v1 && Label(a) == Label(b) ==> a == b
  }

  predicate HostsUnique(v2: map<string, Vault>) {
    forall m, n :: m in v2 && n in v2 && v2[m].host == v2[n].host ==> m == n
  }

  // ---- INSERT OR IGNORE INTO vault_v2 ----

  predicate HostIn(v2: map<string, Vault>, host: string) {
    exists n :: n in v2 && v2[n].host == host
  }

  /** What the insert leaves, in whichever order it scans: one old vault for each first label. */
  ghost predicate VaultsMigrated(v1: map<string, OldVault>, v2: map<string, Vault>) {
    && (forall id :: id in v1 ==> Label(id) in v2)
    && (forall n :: n in v2 ==> v2[n].host in v1 && Label(v2[n].host) == n && v2[n] == NewVault(v2[n].host, v1[v2[n].host]))
  }

  method InsertVaults(v1: map<string, OldVault>) returns (v2: map<string, Vault>)
    ensures VaultsMigrated(v1, v2)
  {
    v2 := map[];
    var left := v1.Keys;
    while left != {}
      invariant left <= v1.Keys
      invariant forall id :: id in v1 && id !in left ==> Label(id) in v2
      invariant forall n :: n in v2 ==> v2[n].host in v1 && v2[n].host !in left
                                        && Label(v2[n].host) == n && v2[n] == NewVault(v2[n].host, v1[v2[n].host])
      decreases left
    {
      var id :| id in left;
      left := left - {id};
      if Label(id) !in v2 && !HostIn(v2, id) {
        v2 := v2[Label(id) := NewVault(id, v1[id])];
      }
    }
  }

  lemma MigratedHosts(v1: map<string, OldVault>, v2: map<string, Vault>)
    requires VaultsMigrated(v1, v2)
    ensures HostsUnique(v2)
    ensures DistinctLabels(v1) ==> forall id :: id in v1 ==> v2[Label(id)].host == id
  {
  }

  /** No vault is lost exactly when the first labels are pairwise distinct. */
  lemma VaultsKept(v1: map<string, OldVault>, v2: map<string, Vault>)
    requires VaultsMigrated(v1, v2)
    ensures (forall id :: id in v1 ==> HostIn(v2, id)) <==> DistinctLabels(v1)
  {
    if DistinctLabels(v1) {
      forall id | id in v1 ensures HostIn(v2, id) {
        assert v2[Label(id)].host == id;
      }
    }
    if forall id :: id in v1 ==> HostIn(v2, id) {
      forall a, b | a in v1 && b in v1 && Label(a) == Label(b) ensures a == b {
        var m :| m in v2 && v2[m].host == a;
        var n :| n in v2 && v2[n].host == b;
        assert m == Label(a) && n == Label(b);
      }
    }
  }

  /** COALESCE((SELECT name FROM vault_v2 WHERE host = id), id), host being UNIQUE. */
  function Rehome(v2: map<string, Vault>, id: string): (n: string)
    ensures HostsUnique(v2) && HostIn(v2, id) ==> n in v2 && v2[n].host == id
    ensures !HostIn(v2, id) ==> n == id
  {
    if HostsUnique(v2) && HostIn(v2, id) then (var n :| n in v2 && v2[n].host == id; n) else id
  }

  /** What becomes of the rows of a vault that lost its label to another. With a dot in its id they
      dangle; without one they end up, uncalled for, in the vault that kept the label. */
  lemma LostVault(v1: map<string, OldVault>, v2: map<string, Vault>, id: string)
    requires VaultsMigrated(v1, v2) && id in v1 && !HostIn(v2, id)
    ensures HostsUnique(v2)
    ensures '.' in id ==> Rehome(v2, id) !in v2
    ensures '.' !in id ==> Rehome(v2, id) in v2 && v2[Rehome(v2, id)].host != id
  {
    MigratedHosts(v1, v2);
    assert '.' !in id ==> Label(id) == id;
    assert forall n :: n in v2 ==> '.' !in Label(v2[n].host) && Label(v2[n].host) == n;
  }

  /** An old vault whose id is a host under the running base domain, with or without a port, is found
      under its first label after the migration, with its old columns, and requests for its old host
      resolve to it. */
  lemma OldHostResolves(v1: map<string, OldVault>, v2: map<string, Vault>, name: string, baseDomain: string, rest: string,
                        defaultVault: string, r: Option<Vault>)
    requires VaultsMigrated(v1, v2) && DistinctLabels(v1)
    requires name != "" && '.' !in name && ':' !in name && ':' !in baseDomain && (rest == "" || rest[0] == ':')
    requires name + ['.'] + baseDomain + rest in v1
    requires Vaults.ResolvesTo(v2, baseDomain, defaultVault, name + ['.'] + baseDomain + rest, r)
    ensures var id := name + ['.'] + baseDomain + rest;
            && name in v2 && r == Some(v2[name])
            && v2[name] == Worlds.Vault(name, id, "Default Vault", v1[id].tenant, v1[id].created, v1[id].created)
  {
    OldHostParts(name, baseDomain, rest);
    var id := name + ['.'] + baseDomain + rest;
    assert Label(id) in v2 && Label(v2[name].host) == name;
  }

  lemma OldHostParts(name: string, baseDomain: string, rest: string)
    requires '.' !in name && ':' !in name && ':' !in baseDomain && (rest == "" || rest[0] == ':')
    ensures var id := name + ['.'] + baseDomain + rest;
            Label(id) == name && VaultHost.VaultNameFromHost(id, baseDomain) == name
  {
    var front := name + ['.'] + baseDomain;
    var id := front + rest;
    assert id == name + ['.'] + (baseDomain + rest);
    IndexOfConcat(name, '.', baseDomain + rest);
    assert Label(id) == name;
    BeforePort(front, rest);
    assert front[|name|..] == "." + baseDomain;
  }

  lemma BeforePort(front: string, rest: string)
    requires ':' !in front && (rest == "" || rest[0] == ':')
    ensures Before(front + rest, ':') == front
  {
    if rest == "" {
      IndexOfConcat(front, ':', "");
      assert front + rest == front;
    } else {
      assert front + rest == front + [':'] + rest[1..];
      IndexOfConcat(front, ':', rest[1..]);
    }
  }

  // ---- INSERT INTO x_new SELECT ... FROM x; DROP TABLE x; ALTER TABLE x_new RENAME TO x ----

  function Moved(r: Row, v2: map<string, Vault>): Row { r.(vault := Rehome(v2, r.vault)) }

  function MovedKey(k: Key, v2: map<string, Vault>): Key { Key(Rehome(v2, k.vault), k.name) }

  function MovedTable(t: Table, v2: map<string, Vault>): Table {
    Table(map i | i in t.rows :: Moved(t.rows[i], v2), t.versions)
  }

  /** The rebuilt table: same rowids, same version rows, new vault ids. A UNIQUE violation stops it. */
  method CopyRows(t: Table, v2: map<string, Vault>) returns (r: Result<Table, Error>)
    ensures r.Ok? <==> UniqueNames(MovedTable(t, v2))
    ensures r.Ok? ==> r.value == MovedTable(t, v2)
  {
    ghost var moved := MovedTable(t, v2).rows;
    var rebuilt: map<nat, Row> := map[];
    var left := t.rows.Keys;
    while left != {}
      invariant left <= t.rows.Keys && rebuilt.Keys == t.rows.Keys - left
      invariant forall i :: i in rebuilt ==> rebuilt[i] == moved[i]
      invariant UniqueNames(Table(rebuilt, t.versions))
      decreases left
    {
      var i :| i in left;
      left := left - {i};
      var row := Moved(t.rows[i], v2);
      if j: nat :| j in rebuilt && RowKey(rebuilt[j]) == RowKey(row) {
        assert RowKey(moved[j]) == RowKey(moved[i]);
        return Err(UniqueViolation);
      }
      rebuilt := rebuilt[i := row];
    }
    assert rebuilt == moved;
    return Ok(Table(rebuilt, t.versions));
  }

  // The same for the table keyed by its vault, and the one keyed by vault and name.

  ghost predicate ContactsCollide(t: map<string, string>, v2: map<string, Vault>) {
    exists a, b :: a in t && b in t && a != b && Rehome(v2, a) == Rehome(v2, b)
  }

  ghost predicate ContactsMoved(before: map<string, string>, after: map<string, string>, v2: map<string, Vault>) {
    && (forall a :: a in before ==> Rehome(v2, a) in after && after[Rehome(v2, a)] == before[a])
    && (forall n :: n in after ==> exists a :: a in before && n == Rehome(v2, a))
  }

  method CopyContacts(t: map<string, string>, v2: map<string, Vault>) returns (r: Result<map<string, string>, Error>)
    ensures r.Ok? <==> !ContactsCollide(t, v2)
    ensures r.Ok? ==> ContactsMoved(t, r.value, v2)
  {
    var rebuilt: map<string, string> := map[];
    var left := t.Keys;
    while left != {}
      invariant left <= t.Keys
      invariant forall a :: a in t && a !in left ==> Rehome(v2, a) in rebuilt && rebuilt[Rehome(v2, a)] == t[a]
      invariant forall n :: n in rebuilt ==> exists a :: a in t && a !in left && n == Rehome(v2, a)
      invariant forall a, b :: a in t && b in t && a !in left && b !in left && Rehome(v2, a) == Rehome(v2, b) ==> a == b
      decreases left
    {
      var a :| a in left;
      if Rehome(v2, a) in rebuilt {
        ghost var b :| b in t && b !in left && Rehome(v2, a) == Rehome(v2, b);
        return Err(UniqueViolation);
      }
      left := left - {a};
      rebuilt := rebuilt[Rehome(v2, a) := t[a]];
    }
    return Ok(rebuilt);
  }

  ghost predicate IssuersCollide(t: map<Key, string>, v2: map<string, Vault>) {
    exists a, b :: a in t && b in t && a != b && MovedKey(a, v2) == MovedKey(b, v2)
  }

  ghost predicate IssuersMoved(before: map<Key, string>, after: map<Key, string>, v2: map<string, Vault>) {
    && (forall a :: a in before ==> MovedKey(a, v2) in after && after[MovedKey(a, v2)] == before[a])
    && (forall n :: n in after ==> exists a :: a in before && n == MovedKey(a, v2))
  }

  method CopyIssuers(t: map<Key, string>, v2: map<string, Vault>) returns (r: Result<map<Key, string>, Error>)
    ensures r.Ok? <==> !IssuersCollide(t, v2)
    ensures r.Ok? ==> IssuersMoved(t, r.value, v2)
  {
    var rebuilt: map<Key, string> := map[];
    var left := t.Keys;
    while left != {}
      invariant left <= t.Keys
      invariant forall a :: a in t && a !in left ==> MovedKey(a, v2) in rebuilt && rebuilt[MovedKey(a, v2)] == t[a]
      invariant forall n :: n in rebuilt ==> exists a :: a in t && a !in left && n == MovedKey(a, v2)
      invariant forall a, b :: a in t && b in t && a !in left && b !in left && MovedKey(a, v2) == MovedKey(b, v2) ==> a == b
      decreases left
    {
      var a :| a in left;
      if MovedKey(a, v2) in rebuilt {
        ghost var b :| b in t && b !in left && MovedKey(a, v2) == MovedKey(b, v2);
        return Err(UniqueViolation);
      }
      left := left - {a};
      rebuilt := rebuilt[MovedKey(a, v2) := t[a]];
    }
    return Ok(rebuilt);
  }

  // ---- what a rebuilt table means ----

  /** Every row belongs to an old vault: the foreign keys held before. */
  ghost predicate RowsOwned(t: Table, v1: map<string, OldVault>) {
    forall i :: i in t.rows ==> t.rows[i].vault in v1
  }

  lemma RehomedIsLabel(v1: map<string, OldVault>, v2: map<string, Vault>, id: string)
    requires VaultsMigrated(v1, v2) && HostsUnique(v2) && DistinctLabels(v1) && id in v1
    ensures Rehome(v2, id) == Label(id)
  {
  }

  /** The rows keep their rowids and versions; each old (vault id, name) is found, with the same
      item, under (first label, name); and no other name exists. */
  ghost predicate SameLookups(before: Catalog, after: Catalog) {
    && (forall k :: k in before ==> Key(Label(k.vault), k.name) in after && after[Key(Label(k.vault), k.name)] == before[k])
    && (forall k :: k in after ==> exists j :: j in before && k == Key(Label(j.vault), j.name))
  }

  lemma MovedRow(v1: map<string, OldVault>, v2: map<string, Vault>, t: Table, i: nat)
    requires VaultsMigrated(v1, v2) && HostsUnique(v2) && DistinctLabels(v1)
    requires i in t.rows && t.rows[i].vault in v1
    ensures RowKey(Moved(t.rows[i], v2)) == Key(Label(t.rows[i].vault), t.rows[i].name)
  {
  }

  lemma CopySucceeds(v1: map<string, OldVault>, v2: map<string, Vault>, t: Table)
    requires VaultsMigrated(v1, v2) && HostsUnique(v2) && DistinctLabels(v1)
    requires UniqueNames(t) && RowsOwned(t, v1)
    ensures UniqueNames(MovedTable(t, v2))
  {
  }

  lemma MovedTableValid(v2: map<string, Vault>, t: Table)
    requires Tables.Valid(t) && UniqueNames(MovedTable(t, v2))
    ensures Tables.Valid(MovedTable(t, v2))
  {
  }

  lemma MovedItem(v2: map<string, Vault>, t: Table, i: nat)
    requires Tables.Valid(t) && Tables.Valid(MovedTable(t, v2)) && i in t.rows
    ensures RowKey(t.rows[i]) in Abs(t) && MovedKey(RowKey(t.rows[i]), v2) in Abs(MovedTable(t, v2))
    ensures Abs(MovedTable(t, v2))[MovedKey(RowKey(t.rows[i]), v2)] == Abs(t)[RowKey(t.rows[i])]
  {
    AbsAt(t, i);
    AbsAt(MovedTable(t, v2), i);
    VersionsUnaffected(t, MovedTable(t, v2), i);
  }

  /** With distinct labels each old lookup finds the same item under the new vault name. */
  lemma MovedTableRefines(v1: map<string, OldVault>, v2: map<string, Vault>, t: Table)
    requires VaultsMigrated(v1, v2) && HostsUnique(v2) && DistinctLabels(v1)
    requires Tables.Valid(t) && RowsOwned(t, v1)
    ensures Tables.Valid(MovedTable(t, v2))
    ensures SameLookups(Abs(t), Abs(MovedTable(t, v2)))
  {
    var t' := MovedTable(t, v2);
    CopySucceeds(v1, v2, t);
    MovedTableValid(v2, t);
    forall k | k in Abs(t)
      ensures Key(Label(k.vault), k.name) in Abs(t') && Abs(t')[Key(Label(k.vault), k.name)] == Abs(t)[k]
    {
      var i := IdOf(t, k);
      MovedItem(v2, t, i);
      RehomedIsLabel(v1, v2, k.vault);
    }
    forall k | k in Abs(t')
      ensures exists j :: j in Abs(t) && k == Key(Label(j.vault), j.name)
    {
      var i := IdOf(t', k);
      MovedItem(v2, t, i);
      MovedRow(v1, v2, t, i);
      assert RowKey(t.rows[i]) in Abs(t);
    }
  }

  lemma KeyedCopySucceeds(v1: map<string, OldVault>, v2: map<string, Vault>, contacts: map<string, string>, issuers: map<Key, string>)
    requires VaultsMigrated(v1, v2) && HostsUnique(v2) && DistinctLabels(v1)
    requires contacts.Keys <= v1.Keys && forall k :: k in issuers ==> k.vault in v1
    ensures !ContactsCollide(contacts, v2)
    ensures !IssuersCollide(issuers, v2)
  {
  }

  ghost predicate ItemsCollide(s: Table, k: Table, c: Table, v2: map<string, Vault>) {
    !UniqueNames(MovedTable(s, v2)) || !UniqueNames(MovedTable(k, v2)) || !UniqueNames(MovedTable(c, v2))
  }

  ghost predicate NothingCollides(s: Table, k: Table, c: Table, contacts: map<string, string>, issuers: map<Key, string>,
                                  v2: map<string, Vault>) {
    && !ItemsCollide(s, k, c, v2)
    && !ContactsCollide(contacts, v2) && !IssuersCollide(issuers, v2)
  }

  /** With distinct labels, and the old UNIQUE and foreign key constraints, the script cannot fail. */
  lemma DistinctNeverFails(v1: map<string, OldVault>, v2: map<string, Vault>, s: Table, k: Table, c: Table,
                           contacts: map<string, string>, issuers: map<Key, string>)
    requires VaultsMigrated(v1, v2) && DistinctLabels(v1)
    requires UniqueNames(s) && RowsOwned(s, v1) && UniqueNames(k) && RowsOwned(k, v1) && UniqueNames(c) && RowsOwned(c, v1)
    requires contacts.Keys <= v1.Keys && forall k :: k in issuers ==> k.vault in v1
    ensures NothingCollides(s, k, c, contacts, issuers, v2)
  {
    MigratedHosts(v1, v2);
    CopySucceeds(v1, v2, s);
    CopySucceeds(v1, v2, k);
    CopySucceeds(v1, v2, c);
    KeyedCopySucceeds(v1, v2, contacts, issuers);
  }

  // ---- the whole script ----

  /** A table after its copy, which a failed statement before it or of its own leaves undone. */
  ghost function Rebuilt(t: Table, v2: map<string, Vault>, reached: bool): Table {
    if reached && UniqueNames(MovedTable(t, v2)) then MovedTable(t, v2) else t
  }

  /** The database while the script runs: the old vault table, the new one, and what refers to them. */
  class Schema {
    var oldVaults: map<string, OldVault>
    var vaults: map<string, Vault>
    var secrets: Table
    var keys: Table
    var certificates: Table
    var contacts: map<string, string>
    var issuers: map<Key, string>

    // Steps 3 to 5 of the script.
    method MoveItems(v2: map<string, Vault>) returns (r: Result<(), Error>)
      modifies this`secrets, this`keys, this`certificates
      ensures r.Ok? <==> UniqueNames(MovedTable(old(secrets), v2)) && UniqueNames(MovedTable(old(keys), v2))
                         && UniqueNames(MovedTable(old(certificates), v2))
      ensures secrets == Rebuilt(old(secrets), v2, true)
      ensures keys == Rebuilt(old(keys), v2, UniqueNames(MovedTable(old(secrets), v2)))
      ensures certificates == Rebuilt(old(certificates), v2, UniqueNames(MovedTable(old(secrets), v2))
                                                             && UniqueNames(MovedTable(old(keys), v2)))
    {
      var s := CopyRows(secrets, v2);
      if s.Err? { return Err(s.error); }
      secrets := s.value;
      var k := CopyRows(keys, v2);
      if k.Err? { return Err(k.error); }
      keys := k.value;
      var c := CopyRows(certificates, v2);
      if c.Err? { return Err(c.error); }
      certificates := c.value;
      return Ok(());
    }

    // Steps 6 and 7.
    method MoveOwned(v2: map<string, Vault>) returns (r: Result<(), Error>)
      modifies this`contacts, this`issuers
      ensures r.Ok? <==> !ContactsCollide(old(contacts), v2) && !IssuersCollide(old(issuers), v2)
      ensures if ContactsCollide(old(contacts), v2) then contacts == old(contacts) else ContactsMoved(old(contacts), contacts, v2)
      ensures if r.Err? then issuers == old(issuers) else IssuersMoved(old(issuers), issuers, v2)
    {
      var o := CopyContacts(contacts, v2);
      if o.Err? { return Err(o.error); }
      contacts := o.value;
      var i := CopyIssuers(issuers, v2);
      if i.Err? { return Err(i.error); }
      issuers := i.value;
      return Ok(());
    }

    /** Each rebuilt table is the old one with its vault ids replaced, whether or not labels
        collide. The script fails exactly when a UNIQUE pair would repeat, and then stops there: it
        is no transaction, so what it rebuilt before stays, and the rest is as it was. */
    method Migrate() returns (r: Result<(), Error>)
      modifies this`vaults, this`secrets, this`keys, this`certificates, this`contacts, this`issuers
      ensures VaultsMigrated(oldVaults, vaults)
      ensures r.Ok? <==> NothingCollides(old(secrets), old(keys), old(certificates), old(contacts), old(issuers), vaults)
      ensures secrets == Rebuilt(old(secrets), vaults, true)
      ensures keys == Rebuilt(old(keys), vaults, UniqueNames(MovedTable(old(secrets), vaults)))
      ensures certificates == Rebuilt(old(certificates), vaults, UniqueNames(MovedTable(old(secrets), vaults))
                                                                 && UniqueNames(MovedTable(old(keys), vaults)))
      ensures if ItemsCollide(old(secrets), old(keys), old(certificates), vaults) || ContactsCollide(old(contacts), vaults)
              then contacts == old(contacts) else ContactsMoved(old(contacts), contacts, vaults)
      ensures if r.Err? then issuers == old(issuers) else IssuersMoved(old(issuers), issuers, vaults)
    {
      vaults := InsertVaults(oldVaults);
      r := MoveItems(vaults);
      if r.Ok? {
        r := MoveOwned(vaults);
      }
    }
  }

  // ---- with distinct labels ----

  ghost predicate AllWhole(kind: Kind, c: Catalog) {
    forall k :: k in c ==> Worlds.ItemWhole(kind, c[k])
  }

  lemma MovedCatalogValid(v1: map<string, OldVault>, v2: map<string, Vault>, kind: Kind, t: Table)
    requires VaultsMigrated(v1, v2) && HostsUnique(v2) && DistinctLabels(v1)
    requires Tables.Valid(t) && RowsOwned(t, v1) && AllWhole(kind, Abs(t))
    ensures Tables.Valid(MovedTable(t, v2))
    ensures Worlds.CatalogValid(kind, Abs(MovedTable(t, v2)), v2.Keys)
  {
    MovedTableRefines(v1, v2, t);
    forall k | k in Abs(MovedTable(t, v2))
      ensures k.vault in v2 && Worlds.ItemWhole(kind, Abs(MovedTable(t, v2))[k])
    {
      var j :| j in Abs(t) && k == Key(Label(j.vault), j.name);
      assert t.rows[IdOf(t, j)].vault in v1;
    }
  }

  /** With distinct labels what Migrate leaves is a valid database for the service: no reference
      dangles, every constraint holds, and all later steps keep it so. */
  lemma MigratedWorldIsValid(v1: map<string, OldVault>, v2: map<string, Vault>, secrets: Table, keys: Table, certificates: Table,
                             contacts: map<string, string>, issuers: map<Key, string>,
                             contacts': map<string, string>, issuers': map<Key, string>)
    requires VaultsMigrated(v1, v2) && DistinctLabels(v1)
    requires Tables.Valid(secrets) && RowsOwned(secrets, v1) && AllWhole(Secrets, Abs(secrets))
    requires Tables.Valid(keys) && RowsOwned(keys, v1) && AllWhole(Keys, Abs(keys))
    requires Tables.Valid(certificates) && RowsOwned(certificates, v1) && AllWhole(Certificates, Abs(certificates))
    requires contacts.Keys <= v1.Keys && forall k :: k in issuers ==> k.vault in v1
    requires ContactsMoved(contacts, contacts', v2) && IssuersMoved(issuers, issuers', v2)
    ensures var s, k, c := MovedTable(secrets, v2), MovedTable(keys, v2), MovedTable(certificates, v2);
            && Tables.Valid(s) && Tables.Valid(k) && Tables.Valid(c)
            && Worlds.Valid(Worlds.World(v2, Abs(s), Abs(k), Abs(c), contacts', issuers'))
  {
    MigratedHosts(v1, v2);
    MovedCatalogValid(v1, v2, Secrets, secrets);
    MovedCatalogValid(v1, v2, Keys, keys);
    MovedCatalogValid(v1, v2, Certificates, certificates);
    forall id | id in v1 ensures Rehome(v2, id) in v2 { RehomedIsLabel(v1, v2, id); }
    var s, k, c := Abs(MovedTable(secrets, v2)), Abs(MovedTable(keys, v2)), Abs(MovedTable(certificates, v2));
    NewVaultsValid(v1, v2);
    OwnedVaults(v1, v2, contacts, issuers, contacts', issuers');
    WorldOf(Worlds.World(v2, s, k, c, contacts', issuers'));
  }

  lemma NewVaultsValid(v1: map<string, OldVault>, v2: map<string, Vault>)
    requires VaultsMigrated(v1, v2)
    ensures Worlds.VaultsValid(v2)
  {
  }

  lemma WorldOf(w: Worlds.World)
    requires Worlds.VaultsValid(w.vaults)
    requires Worlds.CatalogValid(Secrets, w.secrets, w.vaults.Keys)
    requires Worlds.CatalogValid(Keys, w.keys, w.vaults.Keys)
    requires Worlds.CatalogValid(Certificates, w.certificates, w.vaults.Keys)
    requires w.contacts.Keys <= w.vaults.Keys && forall k :: k in w.issuers ==> k.vault in w.vaults
    ensures Worlds.Valid(w)
  {
  }

  lemma OwnedVaults(v1: map<string, OldVault>, v2: map<string, Vault>, contacts: map<string, string>, issuers: map<Key, string>,
                    contacts': map<string, string>, issuers': map<Key, string>)
    requires forall id :: id in v1 ==> Rehome(v2, id) in v2
    requires contacts.Keys <= v1.Keys && forall k :: k in issuers ==> k.vault in v1
    requires ContactsMoved(contacts, contacts', v2) && IssuersMoved(issuers, issuers', v2)
    ensures contacts'.Keys <= v2.Keys
    ensures forall k :: k in issuers' ==> k.vault in v2
  {
  }
}
