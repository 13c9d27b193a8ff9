// The whole database as its users think of it, and its committed steps: one per transaction
// or stand-alone statement. The pool holds one connection, so steps never overlap.
module Worlds {
  import opened Wrappers
  import opened Catalog
  import opened Text

  datatype Vault = Vault(name: string, host: string, displayName: string, tenant: string, created: int, updated: int)

  datatype World = World(vaults: map<string, Vault>, secrets: Catalog, keys: Catalog, certificates: Catalog,
                         contacts: map<string, string>, issuers: map<Key, string>)
  {
    function Items(kind: Kind): Catalog {
      match kind
      case Secrets => secrets
      case Keys => keys
      case Certificates => certificates
    }

    function With(kind: Kind, c: Catalog): World {
      match kind
      case Secrets => this.(secrets := c)
      case Keys => this.(keys := c)
      case Certificates => this.(certificates := c)
    }
  }

  // ---- the invariant ----

  predicate ItemWhole(kind: Kind, item: Item) {
    && item.current in item.versions
    && forall v :: v in item.versions ==> item.versions[v].payload.Fits(kind)
  }

  ghost predicate CatalogValid(kind: Kind, c: Catalog, vaults: set<string>) {
    forall k :: k in c ==> k.vault in vaults && ItemWhole(kind, c[k])
  }

  ghost predicate VaultsValid(vaults: map<string, Vault>) {
    && (forall n :: n in vaults ==> vaults[n].name == n)
    && (forall m, n :: m in vaults && n in vaults && vaults[m].host == vaults[n].host ==> m == n)
  }

  ghost predicate Valid(w: World) {
    && VaultsValid(w.vaults)
    && (forall kind :: CatalogValid(kind, w.Items(kind), w.vaults.Keys))
    && w.contacts.Keys <= w.vaults.Keys
    && (forall k :: k in w.issuers ==> k.vault in w.vaults)
  }

  const EMPTY: World := World(map[], map[], map[], map[], map[], map[])

  // ---- the steps ----

  datatype Op =
    | OnItem(kind: Kind, key: Key, change: ItemOp)
    | SweepItems(kind: Kind, now: int)
    | AddVault(vault: Vault)
    | RenameVault(name: string, displayName: string, now: int)
    | RemoveVault(name: string)
    | SetContacts(owner: string, json: string)
    | DropContacts(owner: string)
    | SetIssuer(issuer: Key, json: string)
    | DropIssuer(issuer: Key)

  function RecoveryId(kind: Kind, k: Key): string {
    "https://" + k.vault +
    (match kind
     case Secrets => "/deletedsecrets/"
     case Keys => "/deletedkeys/"
     case Certificates => "/deletedcertificates/") + k.name
  }

  function DeletedCollection(kind: Kind): (c: string)
    ensures '/' !in c
  {
    match kind
    case Secrets => "deletedsecrets"
    case Keys => "deletedkeys"
    case Certificates => "deletedcertificates"
  }

  /** The URL part by part: the vault, the deleted collection of the kind, the name. */
  lemma RecoveryIdParts(kind: Kind, k: Key)
    requires '/' !in k.vault && '/' !in k.name
    ensures var parts := Split(RecoveryId(kind, k), '/');
            |parts| == 5 && parts[0] == "https:" && parts[1] == "" && parts[2] == k.vault
            && parts[3] == DeletedCollection(kind) && parts[4] == k.name
  {
    Literals(kind);
    Reassociate("https:", k.vault, DeletedCollection(kind), k.name);
    FiveParts("https:", "", k.vault, DeletedCollection(kind), k.name);
  }

  lemma TwoMore(a: string, b: string, rest: string)
    requires '/' !in a && '/' !in b
    ensures Split(a + ['/'] + (b + ['/'] + rest), '/') == [a, b] + Split(rest, '/')
  {
    SplitFirst(a, '/', b + ['/'] + rest);
    SplitFirst(b, '/', rest);
  }

  lemma FiveParts(a: string, b: string, c: string, d: string, e: string)
    requires '/' !in a && '/' !in b && '/' !in c && '/' !in d && '/' !in e
    ensures Split(a + ['/'] + (b + ['/'] + (c + ['/'] + (d + ['/'] + e))), '/') == [a, b] + ([c, d] + [e])
  {
    TwoMore(a, b, c + ['/'] + (d + ['/'] + e));
    TwoMore(c, d, e);
    SplitWhole(e, '/');
  }

  lemma Literals(kind: Kind)
    ensures "https://" == "https:" + "/" + "/" && '/' !in "https:"
    ensures (match kind case Secrets => "/deletedsecrets/" case Keys => "/deletedkeys/" case Certificates => "/deletedcertificates/")
            == "/" + DeletedCollection(kind) + "/"
  {
  }

  lemma Reassociate(scheme: string, vault: string, collection: string, name: string)
    ensures (scheme + "/" + "/") + vault + ("/" + collection + "/") + name
            == scheme + ['/'] + ("" + ['/'] + (vault + ['/'] + (collection + ['/'] + name)))
  {
  }

  /** What the repositories issue: payloads of their own kind, PATCH on secrets only, a policy
      on certificates only. */
  predicate WellFormed(op: Op) {
    op.OnItem? ==>
      match op.change
      case Upsert(_, body, policy) => body.payload.Fits(op.kind) && (op.kind.Certificates? <==> policy.Some?)
      case PatchVersion(_, _) => op.kind.Secrets?
      case SetPolicy(_) => op.kind.Certificates?
      case SoftDelete(d) => d.recoveryId == RecoveryId(op.kind, op.key)
      case _ => true
  }

  predicate HoldsItems(c: Catalog, vault: string) { exists k :: k in c && k.vault == vault }

  /** Some row of the five tables refers to the vault. None of the foreign keys cascades. */
  predicate Referenced(w: World, vault: string) {
    || HoldsItems(w.secrets, vault) || HoldsItems(w.keys, vault) || HoldsItems(w.certificates, vault)
    || vault in w.contacts
    || exists k :: k in w.issuers && k.vault == vault
  }

  predicate HostTaken(w: World, host: string) {
    exists n :: n in w.vaults && w.vaults[n].host == host
  }

  function NextOnItem(w: World, kind: Kind, k: Key, change: ItemOp): Result<World, Error> {
    var c := w.Items(kind);
    if change.Upsert? && k !in c && k.vault !in w.vaults then Err(ForeignKeyViolation)
    else match NextItem(At(c, k), change)
         case Ok(slot) => Ok(w.With(kind, Put(c, k, slot)))
         case Err(e) => Err(e)
  }

  /** What a step commits, or why it is refused; a refused step rolls back. */
  function Next(w: World, op: Op): Result<World, Error> {
    match op
    case OnItem(kind, k, change) => NextOnItem(w, kind, k, change)
    case SweepItems(kind, now) => Ok(w.With(kind, Sweep(w.Items(kind), now)))
    case AddVault(v) =>
      if v.name in w.vaults || HostTaken(w, v.host) then Err(VaultExists)
      else Ok(w.(vaults := w.vaults[v.name := v]))
    case RenameVault(n, displayName, now) =>
      if n in w.vaults then Ok(w.(vaults := w.vaults[n := w.vaults[n].(displayName := displayName, updated := now)]))
      else Err(NotFound)
    case RemoveVault(n) =>
      if n !in w.vaults then Err(NotFound)
      else if Referenced(w, n) then Err(ForeignKeyViolation)
      else Ok(w.(vaults := w.vaults - {n}))
    case SetContacts(n, json) =>
      if n in w.vaults then Ok(w.(contacts := w.contacts[n := json])) else Err(ForeignKeyViolation)
    case DropContacts(n) => Ok(w.(contacts := w.contacts - {n}))
    case SetIssuer(k, json) =>
      if k.vault in w.vaults then Ok(w.(issuers := w.issuers[k := json])) else Err(ForeignKeyViolation)
    case DropIssuer(k) =>
      if k in w.issuers then Ok(w.(issuers := w.issuers - {k})) else Err(NotFound)
  }

  function Step(w: World, op: Op): World {
    var r := Next(w, op);
    if r.Ok? then r.value else w
  }

  // ---- one step, seen from one item ----

  /** What a step makes of one item: only a step on that very item or a due sweep touches it. */
  function SlotAfter(slot: Option<Item>, hasVault: bool, op: Op, kind: Kind, k: Key): Option<Item> {
    if op.OnItem? && op.kind == kind && op.key == k then
      if op.change.Upsert? && slot.None? && !hasVault then None
      else match NextItem(slot, op.change)
           case Ok(after) => after
           case Err(_) => slot
    else if op.SweepItems? && op.kind == kind && slot.Some? && Due(slot.value, op.now) then None
    else slot
  }

  lemma OnItemAt(w: World, target: Kind, key: Key, change: ItemOp, kind: Kind, k: Key)
    ensures var op := OnItem(target, key, change);
            At(Step(w, op).Items(kind), k) == SlotAfter(At(w.Items(kind), k), k.vault in w.vaults, op, kind, k)
  {
  }

  lemma SweepAt(w: World, target: Kind, now: int, kind: Kind, k: Key)
    ensures var op := SweepItems(target, now);
            At(Step(w, op).Items(kind), k) == SlotAfter(At(w.Items(kind), k), k.vault in w.vaults, op, kind, k)
  {
  }

  lemma OtherAt(w: World, op: Op, kind: Kind)
    requires !op.OnItem? && !op.SweepItems?
    ensures Step(w, op).Items(kind) == w.Items(kind)
  {
  }

  lemma StepAt(w: World, op: Op, kind: Kind, k: Key)
    ensures At(Step(w, op).Items(kind), k) == SlotAfter(At(w.Items(kind), k), k.vault in w.vaults, op, kind, k)
  {
    if op.OnItem? {
      OnItemAt(w, op.kind, op.key, op.change, kind, k);
    } else if op.SweepItems? {
      SweepAt(w, op.kind, op.now, kind, k);
    } else {
      OtherAt(w, op, kind);
    }
  }

  lemma WithKeepsRest(w: World, kind: Kind, c: Catalog)
    ensures var w' := w.With(kind, c); w'.vaults == w.vaults && w'.contacts == w.contacts && w'.issuers == w.issuers
  {
  }

  lemma WithKeepsValid(w: World, kind: Kind, c: Catalog)
    requires Valid(w) && CatalogValid(kind, c, w.vaults.Keys)
    ensures Valid(w.With(kind, c))
  {
    var w' := w.With(kind, c);
    forall other ensures CatalogValid(other, w'.Items(other), w'.vaults.Keys) {
      assert CatalogValid(other, w.Items(other), w.vaults.Keys);
    }
  }

  lemma ItemKeepsWhole(kind: Kind, slot: Option<Item>, change: ItemOp)
    requires slot.Some? ==> ItemWhole(kind, slot.value)
    requires change.Upsert? ==> change.body.payload.Fits(kind)
    ensures var r := NextItem(slot, change); r.Ok? && r.value.Some? ==> ItemWhole(kind, r.value.value)
  {
  }

  lemma VaultAdded(vaults: map<string, Vault>, v: Vault)
    requires VaultsValid(vaults) && v.name !in vaults && forall n :: n in vaults ==> vaults[n].host != v.host
    ensures VaultsValid(vaults[v.name := v])
  {
  }

  lemma VaultRenamed(vaults: map<string, Vault>, v: Vault)
    requires VaultsValid(vaults) && v.name in vaults && v.host == vaults[v.name].host
    ensures VaultsValid(vaults[v.name := v])
  {
  }

  lemma MoreVaultsKeepValid(w: World, vaults: map<string, Vault>)
    requires Valid(w) && VaultsValid(vaults) && w.vaults.Keys <= vaults.Keys
    ensures Valid(w.(vaults := vaults))
  {
    var w' := w.(vaults := vaults);
    forall kind
      ensures CatalogValid(kind, w'.Items(kind), vaults.Keys)
    {
      assert CatalogValid(kind, w.Items(kind), w.vaults.Keys) && w'.Items(kind) == w.Items(kind);
    }
  }

  lemma RemovalKeepsValid(w: World, name: string)
    requires Valid(w)
    ensures Valid(Step(w, RemoveVault(name)))
  {
    var w' := Step(w, RemoveVault(name));
    forall kind
      ensures CatalogValid(kind, w'.Items(kind), w'.vaults.Keys)
    {
      var c := w.Items(kind);
      assert CatalogValid(kind, c, w.vaults.Keys);
      assert w'.Items(kind) == c;
      if Next(w, RemoveVault(name)).Ok? {
        assert !HoldsItems(c, name);
      }
    }
  }

  lemma OnItemKeepsValid(w: World, kind: Kind, k: Key, change: ItemOp)
    requires Valid(w) && (change.Upsert? ==> change.body.payload.Fits(kind))
    requires NextOnItem(w, kind, k, change).Ok?
    ensures Valid(NextOnItem(w, kind, k, change).value)
  {
    var c := w.Items(kind);
    assert CatalogValid(kind, c, w.vaults.Keys);
    ItemKeepsWhole(kind, At(c, k), change);
    var c' := Put(c, k, NextItem(At(c, k), change).value);
    assert CatalogValid(kind, c', w.vaults.Keys);
    WithKeepsValid(w, kind, c');
  }

  lemma SweepKeepsValid(w: World, kind: Kind, now: int)
    requires Valid(w)
    ensures Valid(w.With(kind, Sweep(w.Items(kind), now)))
  {
    assert CatalogValid(kind, w.Items(kind), w.vaults.Keys);
    WithKeepsValid(w, kind, Sweep(w.Items(kind), now));
  }

  lemma OwnedKeepValid(w: World, contacts: map<string, string>, issuers: map<Key, string>)
    requires Valid(w)
    requires contacts.Keys <= w.vaults.Keys && forall k :: k in issuers ==> k.vault in w.vaults
    ensures Valid(w.(contacts := contacts, issuers := issuers))
  {
    var w' := w.(contacts := contacts, issuers := issuers);
    forall kind ensures CatalogValid(kind, w'.Items(kind), w'.vaults.Keys) {
      assert CatalogValid(kind, w.Items(kind), w.vaults.Keys);
    }
  }

  /** Every committed step, of every kind, keeps the invariant. */
  lemma StepKeepsValid(w: World, op: Op)
    requires Valid(w) && WellFormed(op)
    ensures Valid(Step(w, op))
  {
    if Next(w, op).Err? {
    } else if op.OnItem? {
      OnItemKeepsValid(w, op.kind, op.key, op.change);
    } else if op.SweepItems? {
      SweepKeepsValid(w, op.kind, op.now);
    } else if op.AddVault? {
      VaultAdded(w.vaults, op.vault);
      MoreVaultsKeepValid(w, w.vaults[op.vault.name := op.vault]);
    } else if op.RenameVault? {
      var v := w.vaults[op.name].(displayName := op.displayName, updated := op.now);
      VaultRenamed(w.vaults, v);
      MoreVaultsKeepValid(w, w.vaults[op.name := v]);
    } else if op.RemoveVault? {
      RemovalKeepsValid(w, op.name);
    } else {
      OwnedKeepValid(w, Step(w, op).contacts, Step(w, op).issuers);
    }
  }

  /** A vault can be deleted exactly when no row, soft-deleted rows included, refers to it;
      a refused deletion changes nothing. */
  lemma VaultDeletion(w: World, vault: string)
    ensures Next(w, RemoveVault(vault)).Ok? <==> vault in w.vaults && !Referenced(w, vault)
    ensures forall kind, k :: k in w.Items(kind) && k.vault == vault ==> Step(w, RemoveVault(vault)) == w
    ensures Next(w, RemoveVault(vault)).Ok? ==>
              var w' := Step(w, RemoveVault(vault));
              vault !in w'.vaults && forall kind :: w'.Items(kind) == w.Items(kind)
  {
    forall kind, k | k in w.Items(kind) && k.vault == vault
      ensures Step(w, RemoveVault(vault)) == w
    {
      assert HoldsItems(w.Items(kind), vault);
    }
  }

  /** Soft-deleting an item and recovering it restores the whole database. */
  lemma DeleteThenRecover(w: World, kind: Kind, k: Key, deletion: Deletion)
    requires Active(w.Items(kind), k)
    ensures Next(w, OnItem(kind, k, SoftDelete(deletion))).Ok?
    ensures Next(Step(w, OnItem(kind, k, SoftDelete(deletion))), OnItem(kind, k, Recover)) == Ok(w)
  {
    var w1 := Step(w, OnItem(kind, k, SoftDelete(deletion)));
    var w2 := Step(w1, OnItem(kind, k, Recover));
    assert w2.Items(kind)[k] == w.Items(kind)[k];
    assert w2.Items(kind) == w.Items(kind);
  }
}
