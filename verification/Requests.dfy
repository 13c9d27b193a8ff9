// Requests as clients send them: the Host header is resolved to a vault, and the secret service
// acts in the vault so found.
module Requests {
  import opened Wrappers
  import opened Catalog
  import opened Secrets
  import opened VaultHost
  import Runs
  import Vaults
  import Worlds

  class Server {
    const secrets: SecretService
    const baseDomain: string
    const port: string
    const defaultVault: string

    constructor (secrets: SecretService, baseDomain: string, port: string, defaultVault: string)
      ensures this.secrets == secrets && this.baseDomain == baseDomain && this.port == port && this.defaultVault == defaultVault
    {
      this.secrets, this.baseDomain, this.port, this.defaultVault := secrets, baseDomain, port, defaultVault;
    }

    /** `host` is the one vault `a` was created with, and it resolves to that vault. */
    ghost predicate Serves(host: string, a: string)
      reads secrets.db
    {
      var vaults := secrets.db.vaults;
      && a in vaults && IsValidName(a) && vaults[a].host == host == BuildVaultHost(a, baseDomain, port)
      && (':' !in baseDomain || defaultVault == a || defaultVault !in vaults)
    }

    // The vault name the resolver leaves in the request's context; None is its 404.
    method VaultOf(host: string) returns (name: Option<string>)
      requires secrets.Valid()
      ensures forall a :: Serves(host, a) ==> name == Some(a) && a != ""
      ensures name.None? ==> forall n :: n in secrets.db.vaults ==> secrets.db.vaults[n].host != host
    {
      var vault := Vaults.Resolve(secrets.db, baseDomain, defaultVault, host);
      forall a | Serves(host, a) ensures vault == Some(secrets.db.vaults[a]) && secrets.db.vaults[a].name == a {
        Vaults.OwnHostResolves(secrets.db.vaults, baseDomain, port, defaultVault, a, vault);
      }
      return if vault.Some? then Some(vault.value.name) else None;
    }

    /** PUT /secrets/{name}: under the host of vault `a` it stores into `a`, where the next Get finds
        it, and no other vault changes. */
    method Put(ghost a: string, host: string, name: string, value: string, contentType: string, tags: Tags,
               enabled: bool, nbf: Option<int>, exp: Option<int>, now: int, version: string, nonce: nat)
      returns (r: Option<Result<SecretVersion, Error>>)
      requires secrets.Valid()
      modifies secrets.db`secrets, secrets.db`keys, secrets.db`certificates
      ensures secrets.Valid()
      ensures r.None? ==> secrets.db.World() == old(secrets.db.World())
      ensures old(Serves(host, a)) ==>
                && r.Some?
                && (r.value.Ok? <==> SetAllowed(old(secrets.db.World()), Key(a, name), version))
                && (r.value.Ok? ==>
                      IsAnswer(secrets.masterKey, secrets.db.World().secrets, Key(a, name), "", r.value)
                      && r.value.value == SecretVersion(name, version, value, contentType, tags, Attributes(enabled, nbf, exp, now, now)))
                && Runs.OnlyTouches(old(secrets.db.World()), secrets.db.World(), a)
    {
      ghost var w := secrets.db.World();
      ghost var served := Serves(host, a);
      var vault := VaultOf(host);
      assert secrets.db.World() == w;
      assert served ==> vault == Some(a) && a != "";
      if vault.None? { return None; }
      var stored := secrets.Set(vault.value, name, value, contentType, tags, enabled, nbf, exp, now, version, nonce);
      return Some(stored);
    }

    /** GET /secrets/{name}/{version}: the answer is the vault's own. */
    method Fetch(ghost a: string, host: string, name: string, version: string) returns (r: Option<Result<SecretVersion, Error>>)
      requires secrets.Valid()
      ensures Serves(host, a) ==>
                r.Some? && IsAnswer(secrets.masterKey, secrets.db.World().secrets, Key(a, name), version, r.value)
    {
      var vault := VaultOf(host);
      if vault.None? { return None; }
      var found := secrets.Get(vault.value, name, version);
      return Some(found);
    }

    /** DELETE /secrets/{name}: the vault's own item is no longer found, and no other vault changes. */
    method Remove(ghost a: string, host: string, name: string, requested: int, offset: int, offsetThen: int, now: int)
      returns (r: Option<Result<(), Error>>)
      requires secrets.Valid()
      modifies secrets.db`secrets, secrets.db`keys, secrets.db`certificates
      ensures secrets.Valid()
      ensures r.None? ==> secrets.db.World() == old(secrets.db.World())
      ensures old(Serves(host, a)) ==>
                && r.Some? && (r.value.Ok? <==> Active(old(secrets.db.World()).secrets, Key(a, name)))
                && IsAnswer(secrets.masterKey, secrets.db.World().secrets, Key(a, name), "", Err(NotFound))
                && Runs.OnlyTouches(old(secrets.db.World()), secrets.db.World(), a)
    {
      ghost var w := secrets.db.World();
      ghost var served := Serves(host, a);
      var vault := VaultOf(host);
      assert secrets.db.World() == w;
      assert served ==> vault == Some(a) && a != "";
      if vault.None? { return None; }
      var gone := secrets.Delete(vault.value, name, requested, offset, offsetThen, now);
      return Some(gone);
    }

    /** GET /secrets: a page of the vault's own items, in the order of their names. */
    method ListPage(ghost a: string, host: string, max: int, token: string) returns (r: Option<Result<(seq<SecretVersion>, string), Error>>)
      requires secrets.Valid()
      ensures Serves(host, a) ==>
                r.Some? && IsListing(secrets.masterKey, secrets.db.World().secrets, a, max, token, r.value)
                && (r.value.Ok? ==> ListsInOrder(secrets.masterKey, secrets.db.World().secrets, a, r.value.value.0))
    {
      var vault := VaultOf(host);
      if vault.None? { return None; }
      var page := secrets.List(vault.value, max, token);
      return Some(page);
    }

    /** GET /secrets/{name}/versions: the versions of the vault's own item. */
    method ListVersionsPage(ghost a: string, host: string, name: string, max: int, token: string)
      returns (r: Option<Result<(seq<SecretVersion>, string), Error>>)
      requires secrets.Valid()
      ensures Serves(host, a) ==>
                r.Some? && IsVersionsAnswer(secrets.masterKey, secrets.db.World().secrets, Key(a, name), max, token, r.value)
    {
      var vault := VaultOf(host);
      if vault.None? { return None; }
      var page := secrets.ListVersions(vault.value, name, max, token);
      return Some(page);
    }
  }
}
