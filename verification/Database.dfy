// The SQLite database behind its single pooled connection. Each method is one transaction or
// one stand-alone statement of a repository and takes exactly the step of the same name.
module Database {
  import opened Wrappers
  import opened Catalog
  import Tables
  import Transactions
  import Worlds

  type Table = Tables.Table

  /** The step committed, or was refused and left everything as it was. */
  ghost predicate Takes(before: Worlds.World, op: Worlds.Op, r: Result<(), Error>, after: Worlds.World) {
    match Worlds.Next(before, op)
    case Ok(w) => r.Ok? && after == w
    case Err(e) => r == Err(e) && after == before
  }

  /** What a transaction on one item of a table comes to, its foreign key checked. */
  ghost predicate Outcome(t: Table, hasVault: bool, k: Key, change: ItemOp, tx: Result<Table, Error>)
    requires Tables.Valid(t)
  {
    if change.Upsert? && !hasVault && k !in Tables.Abs(t) then tx == Err(ForeignKeyViolation)
    else Transactions.Implements(t, k, change, tx)
  }

  /** Seen as a step of the whole database. */
  ghost predicate Settles(w: Worlds.World, kind: Kind, k: Key, change: ItemOp, tx: Result<Table, Error>) {
    var next := Worlds.Next(w, Worlds.OnItem(kind, k, change));
    match tx
    case Ok(t) => Tables.Valid(t) && next == Ok(w.With(kind, Tables.Abs(t)))
    case Err(e) => next == Err(e)
  }

  lemma OutcomeSettles(w: Worlds.World, t: Table, kind: Kind, k: Key, change: ItemOp, tx: Result<Table, Error>)
    requires Tables.Valid(t) && w.Items(kind) == Tables.Abs(t)
    requires Outcome(t, k.vault in w.vaults, k, change, tx)
    ensures Settles(w, kind, k, change, tx)
  {
  }

  class Database {
    var vaults: map<string, Worlds.Vault>
    var secrets: Table
    var keys: Table
    var certificates: Table
    var contacts: map<string, string>
    var issuers: map<Key, string>

    function Items(kind: Kind): Table
      reads this
    {
      match kind
      case Secrets => secrets
      case Keys => keys
      case Certificates => certificates
    }

    ghost predicate Valid()
      reads this
    {
      Tables.Valid(secrets) && Tables.Valid(keys) && Tables.Valid(certificates)
    }

    /** The database as the steps see it. */
    ghost function World(): Worlds.World
      requires Valid()
      reads this
    {
      Worlds.World(vaults, Tables.Abs(secrets), Tables.Abs(keys), Tables.Abs(certificates), contacts, issuers)
    }

    lemma Shows(kind: Kind)
      requires Valid()
      ensures Tables.Valid(Items(kind)) && World().Items(kind) == Tables.Abs(Items(kind))
    {
    }

    constructor ()
      ensures Valid() && World() == Worlds.EMPTY
    {
      vaults, contacts, issuers := map[], map[], map[];
      secrets := Tables.Table(map[], map[]);
      keys := Tables.Table(map[], map[]);
      certificates := Tables.Table(map[], map[]);
    }

    // COMMIT of a transaction on the tables of one kind.
    method Publish(kind: Kind, t: Table)
      requires Valid() && Tables.Valid(t)
      modifies this`secrets, this`keys, this`certificates
      ensures Valid() && World() == old(World()).With(kind, Tables.Abs(t))
    {
      match kind
      case Secrets => secrets := t;
      case Keys => keys := t;
      case Certificates => certificates := t;
    }

    // The end of a transaction on one item: COMMIT, or ROLLBACK when a statement failed.
    method Finish(kind: Kind, k: Key, ghost change: ItemOp, tx: Result<Table, Error>) returns (r: Result<(), Error>)
      requires Valid() && Settles(World(), kind, k, change, tx)
      modifies this`secrets, this`keys, this`certificates
      ensures Valid() && Takes(old(World()), Worlds.OnItem(kind, k, change), r, World())
      ensures r.Err? ==> unchanged(this)
    {
      if tx.Err? { return Err(tx.error); }
      Publish(kind, tx.value);
      return Ok(());
    }

    method Upsert(kind: Kind, k: Key, version: string, body: Body, policy: Option<string>) returns (r: Result<(), Error>)
      requires Valid()
      modifies this`secrets, this`keys, this`certificates
      ensures Valid() && Takes(old(World()), Worlds.OnItem(kind, k, ItemOp.Upsert(version, body, policy)), r, World())
      ensures r.Err? ==> unchanged(this)
    {
      Shows(kind);
      var tx := Transactions.Upsert(Items(kind), k.vault in vaults, k, version, body, policy);
      OutcomeSettles(World(), Items(kind), kind, k, ItemOp.Upsert(version, body, policy), tx);
      r := Finish(kind, k, ItemOp.Upsert(version, body, policy), tx);
    }

    method SoftDelete(kind: Kind, k: Key, at: int, scheduled: int) returns (r: Result<(), Error>)
      requires Valid()
      modifies this`secrets, this`keys, this`certificates
      ensures Valid()
      ensures Takes(old(World()), Worlds.OnItem(kind, k, ItemOp.SoftDelete(Deletion(at, scheduled, Worlds.RecoveryId(kind, k)))), r, World())
      ensures r.Err? ==> unchanged(this)
    {
      Shows(kind);
      var tx := Transactions.SoftDelete(Items(kind), k, at, scheduled, Worlds.RecoveryId(kind, k));
      OutcomeSettles(World(), Items(kind), kind, k, ItemOp.SoftDelete(Deletion(at, scheduled, Worlds.RecoveryId(kind, k))), tx);
      r := Finish(kind, k, ItemOp.SoftDelete(Deletion(at, scheduled, Worlds.RecoveryId(kind, k))), tx);
    }

    method Recover(kind: Kind, k: Key) returns (r: Result<(), Error>)
      requires Valid()
      modifies this`secrets, this`keys, this`certificates
      ensures Valid() && Takes(old(World()), Worlds.OnItem(kind, k, ItemOp.Recover), r, World())
      ensures r.Err? ==> unchanged(this)
    {
      Shows(kind);
      var tx := Transactions.Recover(Items(kind), k);
      OutcomeSettles(World(), Items(kind), kind, k, ItemOp.Recover, tx);
      r := Finish(kind, k, ItemOp.Recover, tx);
    }

    method Purge(kind: Kind, k: Key) returns (r: Result<(), Error>)
      requires Valid()
      modifies this`secrets, this`keys, this`certificates
      ensures Valid() && Takes(old(World()), Worlds.OnItem(kind, k, ItemOp.Purge), r, World())
      ensures r.Err? ==> unchanged(this)
    {
      Shows(kind);
      var tx := Transactions.Purge(Items(kind), k);
      OutcomeSettles(World(), Items(kind), kind, k, ItemOp.Purge, tx);
      r := Finish(kind, k, ItemOp.Purge, tx);
    }

    /** SecretRepo.UpdateAttributes. */
    method UpdateAttributes(k: Key, version: string, patch: Patch) returns (r: Result<(), Error>)
      requires Valid()
      modifies this`secrets, this`keys, this`certificates
      ensures Valid() && Takes(old(World()), Worlds.OnItem(Secrets, k, ItemOp.PatchVersion(version, patch)), r, World())
      ensures r.Err? ==> unchanged(this)
    {
      Shows(Secrets);
      var tx := Transactions.UpdateVersion(secrets, k, version, patch);
      OutcomeSettles(World(), Items(Secrets), Secrets, k, ItemOp.PatchVersion(version, patch), tx);
      r := Finish(Secrets, k, ItemOp.PatchVersion(version, patch), tx);
    }

    /** CertRepo.UpdatePolicy. */
    method UpdatePolicy(k: Key, json: string) returns (r: Result<(), Error>)
      requires Valid()
      modifies this`secrets, this`keys, this`certificates
      ensures Valid() && Takes(old(World()), Worlds.OnItem(Certificates, k, ItemOp.SetPolicy(json)), r, World())
      ensures r.Err? ==> unchanged(this)
    {
      Shows(Certificates);
      var tx := Transactions.UpdatePolicy(certificates, k, json);
      OutcomeSettles(World(), Items(Certificates), Certificates, k, ItemOp.SetPolicy(json), tx);
      r := Finish(Certificates, k, ItemOp.SetPolicy(json), tx);
    }

    /** runAutoPurge: the due rows of the three tables, one after the other. */
    method RunAutoPurge(now: int)
      requires Valid()
      modifies this`secrets, this`keys, this`certificates
      ensures Valid()
      ensures World() == old(World()).(secrets := Sweep(old(World()).secrets, now), keys := Sweep(old(World()).keys, now),
                                       certificates := Sweep(old(World()).certificates, now))
    {
      var tables := [Secrets, Keys, Certificates];
      for i := 0 to |tables|
        invariant Valid()
        invariant World() == Swept(old(World()), now, i)
      {
        Shows(tables[i]);
        var t := Transactions.SweepDue(Items(tables[i]), now);
        SweptStep(old(World()), now, i, tables[i]);
        Publish(tables[i], t);
      }
    }

    // ---- vaults ----

    /** VaultRepo.Create: UNIQUE on the name and on the host. */
    method CreateVault(v: Worlds.Vault) returns (r: Result<(), Error>)
      requires Valid()
      modifies this`vaults
      ensures Valid() && Takes(old(World()), Worlds.AddVault(v), r, World())
    {
      if v.name in vaults || exists n :: n in vaults && vaults[n].host == v.host { return Err(VaultExists); }
      vaults := vaults[v.name := v];
      return Ok(());
    }

    /** VaultRepo.Update: the display name and the time of the change, nothing else. */
    method UpdateVault(name: string, displayName: string, now: int) returns (r: Result<(), Error>)
      requires Valid()
      modifies this`vaults
      ensures Valid() && Takes(old(World()), Worlds.RenameVault(name, displayName, now), r, World())
      ensures r.Ok? ==> vaults.Keys == old(vaults).Keys && vaults[name].displayName == displayName && vaults[name].updated == now
                        && vaults[name].host == old(vaults)[name].host && vaults[name].tenant == old(vaults)[name].tenant
    {
      if name !in vaults { return Err(NotFound); }
      vaults := vaults[name := vaults[name].(displayName := displayName, updated := now)];
      return Ok(());
    }

    method GetByName(name: string) returns (v: Option<Worlds.Vault>)
      ensures v == if name in vaults then Some(vaults[name]) else None
    {
      return if name in vaults then Some(vaults[name]) else None;
    }

    method GetByHost(host: string) returns (v: Option<Worlds.Vault>)
      ensures v.Some? ==> v.value.host == host && exists n :: n in vaults && vaults[n] == v.value
      ensures v.None? ==> forall n :: n in vaults ==> vaults[n].host != host
    {
      if n :| n in vaults && vaults[n].host == host { return Some(vaults[n]); }
      return None;
    }

    /** VaultRepo.Delete: the foreign keys of five tables are checked, and none cascades. */
    method DeleteVault(name: string) returns (r: Result<(), Error>)
      requires Valid()
      modifies this`vaults
      ensures Valid() && Takes(old(World()), Worlds.RemoveVault(name), r, World())
    {
      if name !in vaults { return Err(NotFound); }
      var referred := RowsOf(secrets, name) || RowsOf(keys, name) || RowsOf(certificates, name)
                      || name in contacts || exists k :: k in issuers && k.vault == name;
      RowsOfVault(secrets, name);
      RowsOfVault(keys, name);
      RowsOfVault(certificates, name);
      if referred { return Err(ForeignKeyViolation); }
      vaults := vaults - {name};
      return Ok(());
    }
  }

  predicate RowsOf(t: Table, vault: string) {
    exists i :: i in t.rows && t.rows[i].vault == vault
  }

  lemma RowsOfVault(t: Table, vault: string)
    requires Tables.Valid(t)
    ensures RowsOf(t, vault) <==> Worlds.HoldsItems(Tables.Abs(t), vault)
  {
    if i :| i in t.rows && t.rows[i].vault == vault { Tables.AbsAt(t, i); }
    if k :| k in Tables.Abs(t) && k.vault == vault { Tables.AbsMissing(t, k); }
  }

  ghost function Swept(w: Worlds.World, now: int, tables: nat): Worlds.World {
    w.(secrets := if tables > 0 then Sweep(w.secrets, now) else w.secrets,
       keys := if tables > 1 then Sweep(w.keys, now) else w.keys,
       certificates := if tables > 2 then Sweep(w.certificates, now) else w.certificates)
  }

  lemma SweptStep(w: Worlds.World, now: int, i: nat, kind: Kind)
    requires i < 3 && kind == [Secrets, Keys, Certificates][i]
    ensures Swept(w, now, i + 1) == Swept(w, now, i).With(kind, Sweep(Swept(w, now, i).Items(kind), now))
  {
  }
}
