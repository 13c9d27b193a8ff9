// The store as its users think of it: a plain map from (vault, name) to an item with its
// versions. Secrets, keys and certificates are three such maps.
module Catalog {
  import opened Wrappers

  datatype Kind = Secrets | Keys | Certificates

  datatype Key = Key(vault: string, name: string)

  datatype Error = NotFound | UniqueViolation | ForeignKeyViolation | BadParam | VaultExists | Corrupt

  /** An AES-GCM ciphertext, kept symbolic: it opens under the key it was sealed with only. */
  datatype Sealed = Sealed(key: string, nonce: nat, text: string)

  function Seal(key: string, nonce: nat, text: string): Sealed { Sealed(key, nonce, text) }

  function Open(key: string, s: Sealed): Option<string> {
    if s.key == key then Some(s.text) else None
  }

  type Tags = map<string, string>

  /** What a version row of each kind stores beside its attributes. */
  datatype Payload =
    | SecretPayload(sealed: Sealed, contentType: Option<string>, tags: Option<Tags>)
    | KeyPayload(publicJwk: string, privateJwk: Option<Sealed>)
    | CertPayload(cer: string, backingSecret: Option<string>, backingKey: Option<string>)
  {
    predicate Fits(kind: Kind) {
      match kind
      case Secrets => SecretPayload?
      case Keys => KeyPayload?
      case Certificates => CertPayload?
    }
  }

  datatype Body = Body(payload: Payload, enabled: bool, nbf: Option<int>, exp: Option<int>, created: int, updated: int)

  datatype Deletion = Deletion(at: int, scheduled: int, recoveryId: string)

  datatype Item = Item(versions: map<string, Body>, current: string, policy: Option<string>, deletion: Option<Deletion>)

  type Catalog = map<Key, Item>

  predicate Active(c: Catalog, k: Key) { k in c && c[k].deletion.None? }

  predicate Deleted(c: Catalog, k: Key) { k in c && c[k].deletion.Some? }

  // ---- reading ----

  function GetCurrent(c: Catalog, k: Key): Option<(string, Body)> {
    if Active(c, k) && c[k].current in c[k].versions
    then Some((c[k].current, c[k].versions[c[k].current])) else None
  }

  function GetVersion(c: Catalog, k: Key, version: string): Option<Body> {
    if Active(c, k) && version in c[k].versions then Some(c[k].versions[version]) else None
  }

  /** Names a listing of a vault shows. */
  function ActiveNames(c: Catalog, vault: string): set<string> {
    set k | k in c && k.vault == vault && c[k].deletion.None? :: k.name
  }

  // ---- writing ----

  /** A PATCH. An absent field keeps its value; an empty content type or tag map clears it. */
  datatype Patch = Patch(enabled: bool, updated: int, contentType: Option<string>, tags: Option<Tags>,
                         nbf: Option<int>, exp: Option<int>)

  function NullIfEmpty(s: string): Option<string> { if s == "" then None else Some(s) }

  function NullIfNoTags(t: Tags): Option<Tags> { if t == map[] then None else Some(t) }

  function Patched(b: Body, p: Patch): Body {
    var payload :=
      if b.payload.SecretPayload? then
        b.payload.(contentType := if p.contentType.Some? then NullIfEmpty(p.contentType.value) else b.payload.contentType,
                   tags := if p.tags.Some? then NullIfNoTags(p.tags.value) else b.payload.tags)
      else b.payload;
    b.(payload := payload, enabled := p.enabled, updated := p.updated,
       nbf := if p.nbf.Some? then p.nbf else b.nbf, exp := if p.exp.Some? then p.exp else b.exp)
  }

  /** What one transaction does to one item. */
  datatype ItemOp =
    | Upsert(version: string, body: Body, policy: Option<string>)
    | PatchVersion(version: string, patch: Patch)
    | SetPolicy(json: string)
    | SoftDelete(deletion: Deletion)
    | Recover
    | Purge

  /** The item after the transaction, None when it is gone; an error rolls back. An Upsert
      makes its version current; a soft-deleted item blocks its name. */
  function NextItem(slot: Option<Item>, op: ItemOp): Result<Option<Item>, Error> {
    var active := slot.Some? && slot.value.deletion.None?;
    var deleted := slot.Some? && slot.value.deletion.Some?;
    match op
    case Upsert(version, body, policy) =>
      if slot.None? then Ok(Some(Item(map[version := body], version, policy, None)))
      else if deleted || version in slot.value.versions then Err(UniqueViolation)
      else Ok(Some(slot.value.(versions := slot.value.versions[version := body], current := version, policy := policy)))
    case PatchVersion(version, patch) =>
      if active && version in slot.value.versions
      then Ok(Some(slot.value.(versions := slot.value.versions[version := Patched(slot.value.versions[version], patch)])))
      else Err(NotFound)
    case SetPolicy(json) =>
      if active then Ok(Some(slot.value.(policy := Some(json)))) else Err(NotFound)
    case SoftDelete(deletion) =>
      if active then Ok(Some(slot.value.(deletion := Some(deletion)))) else Err(NotFound)
    case Recover =>
      if deleted then Ok(Some(slot.value.(deletion := None))) else Err(NotFound)
    case Purge =>
      if deleted then Ok(None) else Err(NotFound)
  }

  function At(c: Catalog, k: Key): Option<Item> {
    if k in c then Some(c[k]) else None
  }

  function Put(c: Catalog, k: Key, slot: Option<Item>): Catalog {
    if slot.Some? then c[k := slot.value] else c - {k}
  }

  predicate Due(item: Item, now: int) {
    item.deletion.Some? && item.deletion.value.scheduled <= now
  }

  function DueKeys(c: Catalog, now: int): set<Key> {
    set k | k in c && Due(c[k], now)
  }

  /** One statement of the purge scheduler. */
  function Sweep(c: Catalog, now: int): Catalog { c - DueKeys(c, now) }
}
