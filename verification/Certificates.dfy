// CertService.Create and Import: composite writes over three repositories, each its own
// transaction. Key generation, signing and PEM encoding are foreign and come as parameters.
module Certificates {
  import opened Wrappers
  import opened Catalog
  import opened Secrets
  import Tables
  import Transactions
  import Worlds
  import Runs
  import SetRequests

  type World = Worlds.World

  const PEM_TYPE: string := "application/x-pem-file"

  /** What the three writes of one Create draw from outside: their clocks, version strings and
      nonces, and the generated key pair (none when generation fails). */
  datatype Draw = Draw(keyAt: int, keyVersion: string, keyNonce: nat, pair: Option<(string, string)>,
                       secretAt: int, secretVersion: string, secretNonce: nat, certAt: int, certVersion: string)

  /** The attributes and policy a request asks for. */
  datatype Wanted = Wanted(enabled: bool, nbf: Option<int>, exp: Option<int>, policy: string)

  /** The signed certificate for a key pair, None when signing fails. */
  type Issuer = (string, string) -> Option<string>

  function KeyBody(masterKey: string, d: Draw): Body
    requires d.pair.Some?
  {
    Body(KeyPayload(d.pair.value.0, Some(Seal(masterKey, d.keyNonce, d.pair.value.1))), true, None, None, d.keyAt, d.keyAt)
  }

  /** A certificate row naming the versions it is backed by; an imported one has no key. */
  function CertBody(cer: string, keyVersion: string, d: Draw, a: Wanted): Body {
    Body(CertPayload(cer, NullIfEmpty(d.secretVersion), NullIfEmpty(keyVersion)), a.enabled, a.nbf, a.exp, d.certAt, d.certAt)
  }

  datatype CertVersion = CertVersion(name: string, version: string, cer: string, backingSecret: string, backingKey: string,
                                     attributes: Attributes)

  /** scanCertVersion: a NULL reference reads as the empty text. */
  function ScanCert(name: string, version: string, b: Body): Option<CertVersion> {
    if !b.payload.CertPayload? then None
    else Some(CertVersion(name, version, b.payload.cer,
                          if b.payload.backingSecret.Some? then b.payload.backingSecret.value else "",
                          if b.payload.backingKey.Some? then b.payload.backingKey.value else "",
                          Attributes(b.enabled, b.nbf, b.exp, b.created, b.updated)))
  }

  /** GetCurrent of the certificate repository. */
  function ReadCert(w: World, k: Key): Option<CertVersion> {
    var current := GetCurrent(w.certificates, k);
    if current.Some? then ScanCert(k.name, current.value.0, current.value.1) else None
  }

  // ---- what a certificate refers to ----

  /** `version` is the current version of the secret, and Get answers with this document. */
  ghost predicate SecretBehind(w: World, masterKey: string, k: Key, version: string, pem: string, storedAt: int) {
    && k in w.secrets && w.secrets[k].current == version
    && IsAnswer(masterKey, w.secrets, k, "",
                Ok(SecretVersion(k.name, version, pem, PEM_TYPE, map[], Attributes(true, None, None, storedAt, storedAt))))
  }

  /** `version` is the current version of the key, undeleted and enabled, and holds this pair. */
  ghost predicate KeyBehind(w: World, masterKey: string, k: Key, version: string, pair: (string, string)) {
    && k in w.keys && w.keys[k].deletion.None? && w.keys[k].current == version && version in w.keys[k].versions
    && w.keys[k].versions[version].payload.KeyPayload? && w.keys[k].versions[version].enabled
    && w.keys[k].versions[version].payload.publicJwk == pair.0
    && PrivateOf(w, masterKey, k, version) == Ok(pair.1)
  }

  function PemBody(masterKey: string, pem: string, d: Draw): Body {
    SealedBody(masterKey, d.secretNonce, pem, PEM_TYPE, map[], true, None, None, d.secretAt)
  }

  // ---- what the stages leave ----

  /** An Upsert of this version of this item would commit. */
  ghost predicate Puttable(w: World, kind: Kind, k: Key, version: string) {
    && k.vault in w.vaults
    && (k in w.Items(kind) ==> w.Items(kind)[k].deletion.None? && version !in w.Items(kind)[k].versions)
  }

  ghost function AfterPut(w: World, kind: Kind, k: Key, version: string, body: Body, policy: Option<string>): World {
    var r := Worlds.Next(w, Worlds.OnItem(kind, k, ItemOp.Upsert(version, body, policy)));
    if r.Ok? then r.value else w
  }

  lemma PutCommits(w: World, kind: Kind, k: Key, version: string, body: Body, policy: Option<string>)
    requires Worlds.Valid(w)
    ensures Worlds.Next(w, Worlds.OnItem(kind, k, ItemOp.Upsert(version, body, policy))).Ok? <==> Puttable(w, kind, k, version)
  {
  }

  lemma PutKeepsOthers(w: World, kind: Kind, k: Key, version: string, body: Body, policy: Option<string>)
    ensures var w' := AfterPut(w, kind, k, version, body, policy);
            && w'.vaults == w.vaults && w'.contacts == w.contacts && w'.issuers == w.issuers
            && (forall other :: other != kind ==> w'.Items(other) == w.Items(other))
            && (forall j :: j != k ==> At(w'.Items(kind), j) == At(w.Items(kind), j))
  {
  }

  lemma PutShows(w: World, kind: Kind, k: Key, version: string, body: Body, policy: Option<string>)
    requires Puttable(w, kind, k, version)
    ensures var c := AfterPut(w, kind, k, version, body, policy).Items(kind);
            GetCurrent(c, k) == Some((version, body)) && c[k].policy == policy
  {
  }

  lemma PutOutcome(w: World, kind: Kind, k: Key, version: string, body: Body, policy: Option<string>)
    requires Worlds.Valid(w) && body.payload.Fits(kind)
    ensures var w' := AfterPut(w, kind, k, version, body, policy);
            && Worlds.Valid(w') && w'.vaults == w.vaults && w'.contacts == w.contacts && w'.issuers == w.issuers
            && (forall other :: other != kind ==> w'.Items(other) == w.Items(other))
            && (forall j :: j != k ==> At(w'.Items(kind), j) == At(w.Items(kind), j))
            && (if Puttable(w, kind, k, version)
                then GetCurrent(w'.Items(kind), k) == Some((version, body)) && w'.Items(kind)[k].policy == policy else w' == w)
  {
    var op := Worlds.OnItem(kind, k, ItemOp.Upsert(version, body, policy));
    PutCommits(w, kind, k, version, body, policy);
    PutKeepsOthers(w, kind, k, version, body, policy);
    if Worlds.Next(w, op).Ok? {
      PutShows(w, kind, k, version, body, policy);
      Worlds.OnItemKeepsValid(w, kind, k, op.change);
    }
  }

  class CertService {
    const secretSvc: SecretService

    constructor (secretSvc: SecretService)
      ensures this.secretSvc == secretSvc
    {
      this.secretSvc := secretSvc;
    }

    /** KeyService.Create through store: generate, then Upsert. */
    method CreateKey(k: Key, d: Draw) returns (r: Result<(), Error>)
      requires secretSvc.Valid()
      modifies secretSvc.db`secrets, secretSvc.db`keys, secretSvc.db`certificates
      ensures secretSvc.Valid()
      ensures r.Ok? <==> KeyStage(old(secretSvc.db.World()), k, d)
      ensures secretSvc.db.World() == KeyLeft(old(secretSvc.db.World()), secretSvc.masterKey, k, d)
      ensures r.Ok? ==> PrivateOf(secretSvc.db.World(), secretSvc.masterKey, k, d.keyVersion) == Ok(d.pair.value.1)
    {
      if d.pair.None? { return Err(BadParam); }
      ghost var w := secretSvc.db.World();
      PutOutcome(w, Keys, k, d.keyVersion, KeyBody(secretSvc.masterKey, d), None);
      PutCommits(w, Keys, k, d.keyVersion, KeyBody(secretSvc.masterKey, d), None);
      if KeyStage(w, k, d) { NewKeyOpens(w, secretSvc.masterKey, k, d); }
      r := secretSvc.db.Upsert(Keys, k, d.keyVersion, KeyBody(secretSvc.masterKey, d), None);
    }

    /** GetPriv: the sealed private key of a version, soft-deleted or not. */
    method GetPriv(k: Key, version: string) returns (r: Result<string, Error>)
      requires secretSvc.Valid()
      ensures r == PrivateOf(secretSvc.db.World(), secretSvc.masterKey, k, version)
    {
      var t := secretSvc.db.keys;
      Transactions.NoRow(t, k);
      if i: nat :| i in t.rows && Tables.RowKey(t.rows[i]) == k && Tables.VersionId(i, version) in t.versions {
        Transactions.RowShows(t, i);
        return OpenPrivate(secretSvc.masterKey, t.versions[Tables.VersionId(i, version)]);
      }
      forall i: nat | i in t.rows && Tables.RowKey(t.rows[i]) == k
        ensures version !in Tables.Abs(t)[k].versions
      {
        Transactions.RowShows(t, i);
      }
      return Err(NotFound);
    }

    /** CertRepo.Upsert. */
    method PutCert(k: Key, version: string, body: Body, policy: string) returns (r: Result<(), Error>)
      requires secretSvc.Valid() && body.payload.CertPayload?
      modifies secretSvc.db`secrets, secretSvc.db`keys, secretSvc.db`certificates
      ensures secretSvc.Valid()
      ensures r.Ok? <==> Puttable(old(secretSvc.db.World()), Kind.Certificates, k, version)
      ensures secretSvc.db.World() == AfterPut(old(secretSvc.db.World()), Kind.Certificates, k, version, body, Some(policy))
    {
      PutOutcome(secretSvc.db.World(), Kind.Certificates, k, version, body, Some(policy));
      PutCommits(secretSvc.db.World(), Kind.Certificates, k, version, body, Some(policy));
      r := secretSvc.db.Upsert(Kind.Certificates, k, version, body, Some(policy));
    }

    /** The backing key, and the certificate signed with its stored private half. */
    method BackingKey(k: Key, d: Draw, issue: Issuer) returns (cer: Option<string>)
      requires secretSvc.Valid()
      modifies secretSvc.db`secrets, secretSvc.db`keys, secretSvc.db`certificates
      ensures secretSvc.Valid() && secretSvc.db.World() == KeyLeft(old(secretSvc.db.World()), secretSvc.masterKey, k, d)
      ensures cer == if KeyStage(old(secretSvc.db.World()), k, d) then issue(d.pair.value.0, d.pair.value.1) else None
    {
      var made := CreateKey(k, d);
      if made.Err? { return None; }
      var priv := GetPriv(k, d.keyVersion);
      if priv.Err? { return None; }
      return issue(d.pair.value.0, priv.value);
    }

    /** The tail Create and Import share: the backing secret, then the certificate row. */
    method StoreBacked(requestVault: string, name: string, pem: string, cer: string, keyVersion: string, d: Draw, a: Wanted)
      returns (ok: bool)
      requires secretSvc.Valid()
      modifies secretSvc.db`secrets, secretSvc.db`keys, secretSvc.db`certificates
      ensures secretSvc.Valid()
      ensures Backed(old(secretSvc.db.World()), secretSvc.masterKey,
                     Key(if requestVault != "" then requestVault else secretSvc.vaultID, name),
                     pem, cer, keyVersion, d, a, ok, secretSvc.db.World())
    {
      var stored := secretSvc.Set(requestVault, name, pem, PEM_TYPE, map[], true, None, None, d.secretAt, d.secretVersion, d.secretNonce);
      if stored.Err? { return false; }
      var r := PutCert(Key(secretSvc.Vid(requestVault), name), d.certVersion, CertBody(cer, keyVersion, d, a), a.policy);
      return r.Ok?;
    }

    /** Create: backing key, certificate, backing secret, then the certificate row. */
    method Create(requestVault: string, name: string, d: Draw, a: Wanted, issue: Issuer, encode: string -> string) returns (ok: bool)
      requires secretSvc.Valid()
      modifies secretSvc.db`secrets, secretSvc.db`keys, secretSvc.db`certificates
      ensures secretSvc.Valid()
      ensures Created(old(secretSvc.db.World()), secretSvc.masterKey,
                      Key(if requestVault != "" then requestVault else secretSvc.vaultID, name),
                      d, a, issue, encode, ok, secretSvc.db.World())
      ensures Runs.OnlyTouches(old(secretSvc.db.World()), secretSvc.db.World(),
                               if requestVault != "" then requestVault else secretSvc.vaultID)
    {
      ghost var w := secretSvc.db.World();
      var cer := BackingKey(Key(secretSvc.Vid(requestVault), name), d, issue);
      if cer.None? {
        ok := false;
      } else {
        ok := StoreBacked(requestVault, name, encode(cer.value), cer.value, d.keyVersion, d, a);
      }
      ghost var k := Key(secretSvc.Vid(requestVault), name);
      CreateOutcome(w, secretSvc.masterKey, k, d, a, issue, encode, ok, secretSvc.db.World());
      OtherVaultsKept(w, secretSvc.db.World(), k);
    }

    /** Import: the first PEM block of the upload, stored with the upload itself as its secret. */
    method Import(requestVault: string, name: string, upload: string, block: Option<string>, d: Draw, a: Wanted) returns (ok: bool)
      requires secretSvc.Valid()
      modifies secretSvc.db`secrets, secretSvc.db`keys, secretSvc.db`certificates
      ensures secretSvc.Valid()
      ensures block.None? ==> !ok && secretSvc.db.World() == old(secretSvc.db.World())
      ensures block.Some? ==>
                Backed(old(secretSvc.db.World()), secretSvc.masterKey,
                       Key(if requestVault != "" then requestVault else secretSvc.vaultID, name),
                       upload, block.value, "", d, a, ok, secretSvc.db.World())
      ensures Runs.OnlyTouches(old(secretSvc.db.World()), secretSvc.db.World(),
                               if requestVault != "" then requestVault else secretSvc.vaultID)
    {
      if block.None? { return false; }
      ghost var w, k := secretSvc.db.World(), Key(secretSvc.Vid(requestVault), name);
      ok := StoreBacked(requestVault, name, upload, block.value, "", d, a);
      BackedOutcome(w, secretSvc.masterKey, k, upload, block.value, "", d, a, ok, secretSvc.db.World());
      OtherVaultsKept(w, secretSvc.db.World(), k);
    }
  }

  function OpenPrivate(masterKey: string, b: Body): Result<string, Error> {
    if !b.payload.KeyPayload? then Err(Corrupt)
    else match b.payload.privateJwk
         case None => Ok("")
         case Some(s) => (match Open(masterKey, s) case Some(text) => Ok(text) case None => Err(Corrupt))
  }

  function PrivateOf(w: World, masterKey: string, k: Key, version: string): Result<string, Error> {
    if k !in w.keys || version !in w.keys[k].versions then Err(NotFound)
    else OpenPrivate(masterKey, w.keys[k].versions[version])
  }

  // ---- the outcome of a Create ----

  ghost predicate KeyStage(w: World, k: Key, d: Draw) {
    d.pair.Some? && Puttable(w, Keys, k, d.keyVersion)
  }

  ghost function KeyLeft(w: World, masterKey: string, k: Key, d: Draw): World {
    if KeyStage(w, k, d) then AfterPut(w, Keys, k, d.keyVersion, KeyBody(masterKey, d), None) else w
  }

  /** The private half just stored is the one GetPriv hands to the signer. */
  lemma NewKeyOpens(w: World, masterKey: string, k: Key, d: Draw)
    requires Worlds.Valid(w) && KeyStage(w, k, d)
    ensures PrivateOf(KeyLeft(w, masterKey, k, d), masterKey, k, d.keyVersion) == Ok(d.pair.value.1)
  {
    PutShows(w, Keys, k, d.keyVersion, KeyBody(masterKey, d), None);
    var c := KeyLeft(w, masterKey, k, d).Items(Keys);
    assert GetCurrent(c, k) == Some((d.keyVersion, KeyBody(masterKey, d)));
  }

  /** The secret and the certificate row, the second only after the first. */
  ghost predicate Backed(w: World, masterKey: string, k: Key, pem: string, cer: string, keyVersion: string, d: Draw, a: Wanted,
                         ok: bool, after: World) {
    if !SetAllowed(w, k, d.secretVersion) then !ok && after == w
    else
      var w' := AfterSet(w, k, d.secretVersion, PemBody(masterKey, pem, d));
      && (ok <==> Puttable(w', Kind.Certificates, k, d.certVersion))
      && after == AfterPut(w', Kind.Certificates, k, d.certVersion, CertBody(cer, keyVersion, d, a), Some(a.policy))
  }

  /** What a Create has written when it returns, and whether it succeeds. */
  ghost predicate Created(w: World, masterKey: string, k: Key, d: Draw, a: Wanted, issue: Issuer, encode: string -> string,
                          ok: bool, after: World) {
    if !KeyStage(w, k, d) then !ok && after == w
    else
      var cer := issue(d.pair.value.0, d.pair.value.1);
      var w' := KeyLeft(w, masterKey, k, d);
      if cer.None? then !ok && after == w'
      else Backed(w', masterKey, k, encode(cer.value), cer.value, d.keyVersion, d, a, ok, after)
  }

  // ---- what callers rely on ----

  /** Exactly when the tail succeeds, said of the state before it; what it leaves either way. */
  lemma BackedOutcome(w: World, masterKey: string, k: Key, pem: string, cer: string, keyVersion: string, d: Draw, a: Wanted,
                      ok: bool, after: World)
    requires Worlds.Valid(w) && Backed(w, masterKey, k, pem, cer, keyVersion, d, a, ok, after)
    ensures ok <==> SetAllowed(w, k, d.secretVersion) && Puttable(w, Kind.Certificates, k, d.certVersion)
    ensures Worlds.Valid(after) && after.vaults == w.vaults && after.keys == w.keys && OthersKept(w, after, k)
    ensures !ok ==> after.certificates == w.certificates
    ensures if SetAllowed(w, k, d.secretVersion) then GetCurrent(after.secrets, k) == Some((d.secretVersion, PemBody(masterKey, pem, d)))
            else after == w
    ensures ok ==> GetCurrent(after.certificates, k) == Some((d.certVersion, CertBody(cer, keyVersion, d, a)))
                   && after.certificates[k].policy == Some(a.policy)
  {
    if SetAllowed(w, k, d.secretVersion) {
      AfterSetIsValid(w, k, d.secretVersion, PemBody(masterKey, pem, d));
      var w' := AfterSet(w, k, d.secretVersion, PemBody(masterKey, pem, d));
      SetShows(w, k, d.secretVersion, PemBody(masterKey, pem, d));
      PutOutcome(w', Kind.Certificates, k, d.certVersion, CertBody(cer, keyVersion, d, a), Some(a.policy));
      assert after.Items(Kind.Secrets) == w'.Items(Kind.Secrets) && after.Items(Keys) == w'.Items(Keys);
    }
  }

  lemma SetShows(w: World, k: Key, version: string, body: Body)
    requires SetAllowed(w, k, version)
    ensures var w' := AfterSet(w, k, version, body);
            GetCurrent(w'.secrets, k) == Some((version, body)) && OthersKept(w, w', k)
  {
  }

  /** Only items of this name in this vault differ. */
  ghost predicate OthersKept(w: World, after: World, k: Key) {
    && after.vaults == w.vaults && after.contacts == w.contacts && after.issuers == w.issuers
    && forall kind, j :: j != k ==> At(after.Items(kind), j) == At(w.Items(kind), j)
  }

  lemma OtherVaultsKept(w: World, after: World, k: Key)
    requires OthersKept(w, after, k)
    ensures Runs.OnlyTouches(w, after, k.vault)
  {
    forall other | other != k.vault ensures Runs.SameSlice(w, after, other) {
      forall kind, j: Key | j.vault == other ensures At(w.Items(kind), j) == At(after.Items(kind), j) {}
    }
  }

  lemma KeyLeftShows(w: World, masterKey: string, k: Key, d: Draw)
    requires Worlds.Valid(w) && KeyStage(w, k, d)
    ensures var w' := KeyLeft(w, masterKey, k, d);
            && Worlds.Valid(w') && w'.vaults == w.vaults && OthersKept(w, w', k)
            && w'.secrets == w.secrets && w'.certificates == w.certificates
            && GetCurrent(w'.keys, k) == Some((d.keyVersion, KeyBody(masterKey, d)))
  {
    PutOutcome(w, Keys, k, d.keyVersion, KeyBody(masterKey, d), None);
    var w' := KeyLeft(w, masterKey, k, d);
    assert w'.Items(Kind.Secrets) == w.Items(Kind.Secrets) && w'.Items(Kind.Certificates) == w.Items(Kind.Certificates);
    assert GetCurrent(w'.Items(Keys), k) == Some((d.keyVersion, KeyBody(masterKey, d)));
  }

  /** A Create succeeds exactly when a key pair is generated and signed and all three Upserts
      would commit on the state it started from; then the three new versions are current, the
      certificate naming the other two. */
  lemma CreateOutcome(w: World, masterKey: string, k: Key, d: Draw, a: Wanted, issue: Issuer, encode: string -> string,
                      ok: bool, after: World)
    requires Worlds.Valid(w) && Created(w, masterKey, k, d, a, issue, encode, ok, after)
    ensures ok <==> KeyStage(w, k, d) && issue(d.pair.value.0, d.pair.value.1).Some?
                    && SetAllowed(w, k, d.secretVersion) && Puttable(w, Kind.Certificates, k, d.certVersion)
    ensures Worlds.Valid(after) && after.vaults == w.vaults && OthersKept(w, after, k)
    ensures ok ==> var cer := issue(d.pair.value.0, d.pair.value.1).value;
                   && GetCurrent(after.keys, k) == Some((d.keyVersion, KeyBody(masterKey, d)))
                   && GetCurrent(after.secrets, k) == Some((d.secretVersion, PemBody(masterKey, encode(cer), d)))
                   && GetCurrent(after.certificates, k) == Some((d.certVersion, CertBody(cer, d.keyVersion, d, a)))
                   && after.certificates[k].policy == Some(a.policy)
  {
    if KeyStage(w, k, d) {
      var w' := KeyLeft(w, masterKey, k, d);
      KeyLeftShows(w, masterKey, k, d);
      var cer := issue(d.pair.value.0, d.pair.value.1);
      if cer.Some? {
        BackedOutcome(w', masterKey, k, encode(cer.value), cer.value, d.keyVersion, d, a, ok, after);
      }
    }
  }

  /** Following its references in the database a successful Create leaves: the certificate read back is
      the signed one with the attributes asked for, its key is the current one and opens to the
      generated pair, its secret is the current one and reads as the encoded certificate. */
  lemma CreateIsBacked(w: World, masterKey: string, k: Key, d: Draw, a: Wanted, issue: Issuer, encode: string -> string, after: World)
    requires Worlds.Valid(w) && Created(w, masterKey, k, d, a, issue, encode, true, after)
    ensures d.pair.Some? && issue(d.pair.value.0, d.pair.value.1).Some? && ReadCert(after, k).Some?
    ensures var cer, read := issue(d.pair.value.0, d.pair.value.1).value, ReadCert(after, k).value;
            && read.name == k.name && read.version == d.certVersion && read.cer == cer
            && read.attributes == Attributes(a.enabled, a.nbf, a.exp, d.certAt, d.certAt)
            && KeyBehind(after, masterKey, k, read.backingKey, d.pair.value)
            && SecretBehind(after, masterKey, k, read.backingSecret, encode(cer), d.secretAt)
            && after.certificates[k].policy == Some(a.policy)
  {
    CreateOutcome(w, masterKey, k, d, a, issue, encode, true, after);
    var cer := issue(d.pair.value.0, d.pair.value.1).value;
    KeyReads(after, masterKey, k, d);
    SecretReads(after, masterKey, k, encode(cer), d);
    CertReads(after, k, cer, d.keyVersion, d, a);
  }

  /** An imported certificate names no key, and its secret reads as the upload. */
  lemma ImportIsBacked(w: World, masterKey: string, k: Key, upload: string, cer: string, d: Draw, a: Wanted, after: World)
    requires Worlds.Valid(w) && Backed(w, masterKey, k, upload, cer, "", d, a, true, after)
    ensures ReadCert(after, k).Some?
    ensures var read := ReadCert(after, k).value;
            && read.name == k.name && read.version == d.certVersion && read.cer == cer && read.backingKey == ""
            && read.attributes == Attributes(a.enabled, a.nbf, a.exp, d.certAt, d.certAt)
            && SecretBehind(after, masterKey, k, read.backingSecret, upload, d.secretAt)
            && after.certificates[k].policy == Some(a.policy)
  {
    BackedOutcome(w, masterKey, k, upload, cer, "", d, a, true, after);
    SecretReads(after, masterKey, k, upload, d);
    CertReads(after, k, cer, "", d, a);
  }

  lemma KeyReads(w: World, masterKey: string, k: Key, d: Draw)
    requires d.pair.Some? && GetCurrent(w.keys, k) == Some((d.keyVersion, KeyBody(masterKey, d)))
    ensures KeyBehind(w, masterKey, k, d.keyVersion, d.pair.value)
  {
  }

  lemma SecretReads(w: World, masterKey: string, k: Key, pem: string, d: Draw)
    requires GetCurrent(w.secrets, k) == Some((d.secretVersion, PemBody(masterKey, pem, d)))
    ensures SecretBehind(w, masterKey, k, d.secretVersion, pem, d.secretAt)
  {
    StoredIsRead(masterKey, masterKey, d.secretNonce, k.name, d.secretVersion, pem, PEM_TYPE, map[], true, None, None, d.secretAt);
  }

  lemma CertReads(w: World, k: Key, cer: string, keyVersion: string, d: Draw, a: Wanted)
    requires GetCurrent(w.certificates, k) == Some((d.certVersion, CertBody(cer, keyVersion, d, a)))
    ensures ReadCert(w, k) == Some(CertVersion(k.name, d.certVersion, cer, d.secretVersion, keyVersion,
                                               Attributes(a.enabled, a.nbf, a.exp, d.certAt, d.certAt)))
  {
  }

  /** A failed Create leaves the certificates as they were. One refused for its backing key, a
      soft-deleted one included, changes nothing at all; any later failure leaves the new key
      version current, and, when it is the certificate row that is refused, the new secret too:
      the three writes are not one transaction. */
  lemma FailedCreate(w: World, masterKey: string, k: Key, d: Draw, a: Wanted, issue: Issuer, encode: string -> string, after: World)
    requires Worlds.Valid(w) && Created(w, masterKey, k, d, a, issue, encode, false, after)
    ensures after.certificates == w.certificates
    ensures !KeyStage(w, k, d) ==> after == w
    ensures Deleted(w.keys, k) ==> after == w
    ensures KeyStage(w, k, d) ==> GetCurrent(after.keys, k) == Some((d.keyVersion, KeyBody(masterKey, d)))
    ensures KeyStage(w, k, d) && issue(d.pair.value.0, d.pair.value.1).Some? && SetAllowed(w, k, d.secretVersion) ==>
              var cer := issue(d.pair.value.0, d.pair.value.1).value;
              GetCurrent(after.secrets, k) == Some((d.secretVersion, PemBody(masterKey, encode(cer), d)))
  {
    assert Deleted(w.keys, k) ==> !KeyStage(w, k, d) by { assert w.Items(Keys) == w.keys; }
    if KeyStage(w, k, d) {
      var w' := KeyLeft(w, masterKey, k, d);
      KeyLeftShows(w, masterKey, k, d);
      var cer := issue(d.pair.value.0, d.pair.value.1);
      if cer.Some? {
        BackedOutcome(w', masterKey, k, encode(cer.value), cer.value, d.keyVersion, d, a, false, after);
      }
    }
  }
}
