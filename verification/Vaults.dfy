// VaultService, and the middleware that resolves a request to a vault by its Host header.
module Vaults {
  import opened Wrappers
  import opened Catalog
  import opened VaultHost
  import opened Text
  import Worlds
  import Runs
  import Db = Database

  const DEFAULT_NAME: string := "vault"

  /** Every vault stands under the host the running service builds for its name. */
  ghost predicate HostsBuilt(vaults: map<string, Worlds.Vault>, baseDomain: string, port: string) {
    forall n :: n in vaults ==> IsValidName(n) && vaults[n].host == BuildVaultHost(n, baseDomain, port)
  }

  class VaultService {
    const db: Db.Database
    const baseDomain: string
    const port: string

    constructor (db: Db.Database, baseDomain: string, port: string)
      ensures this.db == db && this.baseDomain == baseDomain && this.port == port
    {
      this.db, this.baseDomain, this.port := db, baseDomain, port;
    }

    /** Create: a bad name, then a taken name, then a taken host are refused. */
    method Create(name: string, displayName: string, tenant: string, now: int) returns (r: Result<Worlds.Vault, Error>)
      requires db.Valid()
      modifies db`vaults
      ensures db.Valid()
      ensures r.Ok? <==> IsValidName(name) && name !in old(db.vaults)
                         && !Worlds.HostTaken(old(db.World()), BuildVaultHost(name, baseDomain, port))
      ensures !IsValidName(name) ==> r == Err(BadParam)
      ensures r.Err? && IsValidName(name) ==> r == Err(VaultExists)
      ensures r.Ok? ==> db.vaults == old(db.vaults)[name := r.value]
                        && r.value == Worlds.Vault(name, BuildVaultHost(name, baseDomain, port),
                                                   if displayName == "" then name else displayName, tenant, now, now)
      ensures r.Err? ==> db.vaults == old(db.vaults)
      ensures HostsBuilt(old(db.vaults), baseDomain, port) ==> HostsBuilt(db.vaults, baseDomain, port)
    {
      if !IsValidName(name) { return Err(BadParam); }
      var found := db.GetByName(name);
      if found.Some? { return Err(VaultExists); }
      var v := Worlds.Vault(name, BuildVaultHost(name, baseDomain, port),
                            if displayName == "" then name else displayName, tenant, now, now);
      var created := db.CreateVault(v);
      return if created.Ok? then Ok(v) else Err(VaultExists);
    }

    /** Delete: the vault named "vault" is refused, a vault with rows too; see VaultDeletion. */
    method Delete(name: string) returns (r: Result<(), Error>)
      requires db.Valid()
      modifies db`vaults
      ensures db.Valid()
      ensures name == DEFAULT_NAME ==> r == Err(BadParam) && db.vaults == old(db.vaults)
      ensures name != DEFAULT_NAME ==> Db.Takes(old(db.World()), Worlds.RemoveVault(name), r, db.World())
    {
      if name == DEFAULT_NAME { return Err(BadParam); }
      r := db.DeleteVault(name);
    }
  }

  /** Where every vault stands under its built host, a valid new name never meets a taken host. */
  lemma FreshNameHasFreshHost(w: Worlds.World, name: string, baseDomain: string, port: string)
    requires HostsBuilt(w.vaults, baseDomain, port)
    ensures name !in w.vaults ==> !Worlds.HostTaken(w, BuildVaultHost(name, baseDomain, port))
  {
    if n :| n in w.vaults && w.vaults[n].host == BuildVaultHost(name, baseDomain, port) {
      HostsAreDistinct(n, name, baseDomain, port);
    }
  }

  // ---- resolving a request ----

  /** The vault the middleware attaches to a request, None for its 404. */
  ghost predicate ResolvesTo(vaults: map<string, Worlds.Vault>, baseDomain: string, defaultVault: string, host: string,
                             r: Option<Worlds.Vault>) {
    var name := VaultNameFromHost(host, baseDomain);
    if name != "" && name in vaults then r == Some(vaults[name])
    else if defaultVault in vaults then r == Some(vaults[defaultVault])
    else if r.None? then forall n :: n in vaults ==> vaults[n].host != host
    else r.value.host == host && exists n :: n in vaults && vaults[n] == r.value
  }

  /** VaultResolver: the label of the host, else the default vault, else the whole host. */
  method Resolve(db: Db.Database, baseDomain: string, defaultVault: string, host: string) returns (vault: Option<Worlds.Vault>)
    ensures ResolvesTo(db.vaults, baseDomain, defaultVault, host, vault)
  {
    var name := VaultNameFromHost(host, baseDomain);
    vault := None;
    if name != "" {
      vault := db.GetByName(name);
      if vault.None? { name := ""; }
    }
    if name == "" {
      vault := db.GetByName(defaultVault);
      if vault.None? {
        vault := db.GetByHost(host);
      }
    }
  }

  /** Under this service's base domain and port, a request for the stored host of a vault resolves
      to that vault, whatever other vaults there are and under whatever hosts, exactly when the base
      domain has no colon, or the vault is the default one, or the default one is gone. */
  lemma OwnHostResolves(vaults: map<string, Worlds.Vault>, baseDomain: string, port: string, defaultVault: string, name: string,
                        r: Option<Worlds.Vault>)
    requires Worlds.VaultsValid(vaults) && name in vaults && IsValidName(name)
    requires vaults[name].host == BuildVaultHost(name, baseDomain, port)
    requires ResolvesTo(vaults, baseDomain, defaultVault, vaults[name].host, r)
    ensures r == Some(vaults[name]) <==> ':' !in baseDomain || defaultVault == name || defaultVault !in vaults
    ensures r != Some(vaults[name]) ==> r == Some(vaults[defaultVault])
  {
    NameInvertsHost(name, baseDomain, port);
    if ':' in baseDomain {
      ColonHidesName(vaults[name].host, baseDomain);
    }
  }

  /** Requests that resolve to vault `a` by its stored host touch vault `a` only: a change they make
      leaves every other vault's items, listings and reads as they were. */
  lemma RequestStaysInItsVault(w: Worlds.World, baseDomain: string, port: string, defaultVault: string, a: string, r: Option<Worlds.Vault>,
                               kind: Kind, name: string, change: ItemOp, other: string)
    requires Worlds.Valid(w) && a in w.vaults && other != a && IsValidName(a)
    requires w.vaults[a].host == BuildVaultHost(a, baseDomain, port)
    requires ':' !in baseDomain || defaultVault == a || defaultVault !in w.vaults
    requires ResolvesTo(w.vaults, baseDomain, defaultVault, w.vaults[a].host, r)
    ensures r.Some? && r.value.name == a
    ensures var w' := Worlds.Step(w, Worlds.OnItem(kind, Key(r.value.name, name), change));
            && Runs.SameSlice(w, w', other)
            && forall k :: ActiveNames(w'.Items(k), other) == ActiveNames(w.Items(k), other)
  {
    OwnHostResolves(w.vaults, baseDomain, port, defaultVault, a, r);
    var op := Worlds.OnItem(kind, Key(a, name), change);
    Runs.StepOutsideVault(w, op, other);
    Runs.ReadsStayInVault(w, Worlds.Step(w, op), other);
  }

  /** What this service creates keeps hosts apart, so for its vaults no condition on hosts is left:
      in any run of its steps a vault stands as if only its own requests and the sweeps had run. */
  lemma VaultsDoNotInterfere(w: Worlds.World, ops: seq<Worlds.Op>, vault: string, baseDomain: string, port: string)
    requires Worlds.VaultsValid(w.vaults)
    requires HostsBuilt(w.vaults, baseDomain, port) || (vault in w.vaults && w.vaults[vault].host == BuildVaultHost(vault, baseDomain, port))
    requires forall op :: op in ops && op.AddVault? ==> op.vault.host == BuildVaultHost(op.vault.name, baseDomain, port)
    ensures Runs.SameSlice(Runs.Exec(w, ops), Runs.Exec(w, Runs.OnlyVault(ops, vault)), vault)
  {
    var host := BuildVaultHost(vault, baseDomain, port);
    forall n | n in w.vaults && w.vaults[n].host == host ensures n == vault {
      HostsAreDistinct(n, vault, baseDomain, port);
    }
    forall op | op in ops ensures Runs.KeepsApart(op, vault, host) {
      if op.AddVault? { HostsAreDistinct(op.vault.name, vault, baseDomain, port); }
    }
    Runs.Noninterference(w, ops, vault, host);
  }
}
