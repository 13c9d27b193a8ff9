// SecretRepo's row conversions and SecretService over the database. The clock, the random
// version string and the random nonce are parameters.
module Secrets {
  import opened Wrappers
  import opened Catalog
  import Tables
  import Transactions
  import Worlds
  import opened Ordering
  import Pagination
  import SkipToken
  import Runs
  import SetRequests
  import VersionListing
  import Db = Database

  const RETENTION_SECONDS: int := 90 * 24 * 60 * 60

  /** time.Now().AddDate(0, 0, 90): the same wall-clock time ninety calendar days on. `offset` and
      `offsetThen` are the server zone's seconds east of UTC at the request and at that date. */
  function ScheduledPurge(requested: int, offset: int, offsetThen: int): int {
    requested + RETENTION_SECONDS + offset - offsetThen
  }

  const DAY: int := 24 * 60 * 60

  /** In local time: the same time of day, ninety days on. */
  lemma NinetyDaysOn(requested: int, offset: int, offsetThen: int)
    ensures var asked, then' := requested + offset, ScheduledPurge(requested, offset, offsetThen) + offsetThen;
            then' % DAY == asked % DAY && then' / DAY == asked / DAY + 90
  {
  }

  datatype Attributes = Attributes(enabled: bool, nbf: Option<int>, exp: Option<int>, created: int, updated: int)

  datatype SecretVersion = SecretVersion(name: string, version: string, value: string, contentType: string, tags: Tags,
                                         attributes: Attributes)

  // ---- rows ----

  /** What Upsert stores for a value. */
  function SealedBody(masterKey: string, nonce: nat, value: string, contentType: string, tags: Tags,
                      enabled: bool, nbf: Option<int>, exp: Option<int>, now: int): Body {
    Body(SecretPayload(Seal(masterKey, nonce, value), NullIfEmpty(contentType), NullIfNoTags(tags)), enabled, nbf, exp, now, now)
  }

  /** scanVersion: None when the value does not open under the master key. */
  function ScanVersion(masterKey: string, name: string, version: string, b: Body): Option<SecretVersion> {
    if !b.payload.SecretPayload? then None
    else match Open(masterKey, b.payload.sealed)
         case None => None
         case Some(value) =>
           Some(SecretVersion(name, version, value,
                              if b.payload.contentType.Some? then b.payload.contentType.value else "",
                              if b.payload.tags.Some? then b.payload.tags.value else map[],
                              Attributes(b.enabled, b.nbf, b.exp, b.created, b.updated)))
  }

  /** Reading back what was stored gives every field back, empty ones included, and under no
      other master key. */
  lemma StoredIsRead(masterKey: string, other: string, nonce: nat, name: string, version: string, value: string,
                     contentType: string, tags: Tags, enabled: bool, nbf: Option<int>, exp: Option<int>, now: int)
    ensures ScanVersion(other, name, version, SealedBody(masterKey, nonce, value, contentType, tags, enabled, nbf, exp, now)) ==
            if other == masterKey
            then Some(SecretVersion(name, version, value, contentType, tags, Attributes(enabled, nbf, exp, now, now))) else None
  {
  }

  /** A PATCH never changes the value that is read, nor when the version was created. */
  lemma PatchKeepsValue(masterKey: string, name: string, version: string, b: Body, p: Patch)
    ensures var before, after := ScanVersion(masterKey, name, version, b), ScanVersion(masterKey, name, version, Patched(b, p));
            && (before.Some? <==> after.Some?)
            && (before.Some? ==> after.value.value == before.value.value
                                 && after.value.attributes.created == before.value.attributes.created
                                 && after.value.attributes.enabled == p.enabled)
  {
  }

  /** What is read after a PATCH: of the dates, the content type and the tags those it gives, and the
      old ones where it gives none; an empty content type or tag map reads as empty. */
  lemma PatchIsRead(masterKey: string, name: string, version: string, b: Body, p: Patch)
    requires ScanVersion(masterKey, name, version, b).Some?
    ensures ScanVersion(masterKey, name, version, Patched(b, p)).Some?
    ensures var before, after := ScanVersion(masterKey, name, version, b).value, ScanVersion(masterKey, name, version, Patched(b, p)).value;
            && after.name == name && after.version == version && after.value == before.value
            && after.attributes.created == before.attributes.created
            && after.attributes.updated == p.updated && after.attributes.enabled == p.enabled
            && after.attributes.nbf == (if p.nbf.Some? then p.nbf else before.attributes.nbf)
            && after.attributes.exp == (if p.exp.Some? then p.exp else before.attributes.exp)
            && after.contentType == (if p.contentType.Some? then p.contentType.value else before.contentType)
            && after.tags == (if p.tags.Some? then p.tags.value else before.tags)
  {
  }

  /** Of two patches in a row the later wins field by field, and the earlier where it is silent. */
  lemma LastPatchWins(masterKey: string, name: string, version: string, b: Body, p: Patch, q: Patch)
    requires ScanVersion(masterKey, name, version, b).Some?
    ensures ScanVersion(masterKey, name, version, Patched(Patched(b, p), q)).Some?
    ensures var before := ScanVersion(masterKey, name, version, b).value;
            var after := ScanVersion(masterKey, name, version, Patched(Patched(b, p), q)).value;
            && after.attributes.updated == q.updated && after.attributes.enabled == q.enabled
            && after.attributes.nbf == (if q.nbf.Some? then q.nbf else if p.nbf.Some? then p.nbf else before.attributes.nbf)
            && after.attributes.exp == (if q.exp.Some? then q.exp else if p.exp.Some? then p.exp else before.attributes.exp)
            && after.contentType == (if q.contentType.Some? then q.contentType.value
                                     else if p.contentType.Some? then p.contentType.value else before.contentType)
            && after.tags == (if q.tags.Some? then q.tags.value else if p.tags.Some? then p.tags.value else before.tags)
  {
    PatchIsRead(masterKey, name, version, b, p);
    PatchIsRead(masterKey, name, version, Patched(b, p), q);
  }

  // ---- the answer to a Get ----

  /** The item's current version for "", the named one otherwise, as long as the item is there and
      carries no deletion; an error when the value does not open. */
  ghost predicate IsAnswer(masterKey: string, c: Catalog, k: Key, version: string, r: Result<SecretVersion, Error>) {
    if k !in c || c[k].deletion.Some? || (version != "" && version !in c[k].versions) then r == Err(NotFound)
    else
      var v := if version == "" then c[k].current else version;
      && v in c[k].versions
      && match ScanVersion(masterKey, k.name, v, c[k].versions[v])
         case Some(s) => r == Ok(s)
         case None => r == Err(Corrupt)
  }

  /** An answer carries the name and the version asked for, and the value that version was sealed with. */
  lemma AnswerIsStored(masterKey: string, c: Catalog, k: Key, version: string, s: SecretVersion)
    requires IsAnswer(masterKey, c, k, version, Ok(s))
    ensures k in c && c[k].deletion == None && s.version in c[k].versions && s.name == k.name
    ensures s.version == if version == "" then c[k].current else version
    ensures var payload := c[k].versions[s.version].payload; payload.SecretPayload? && payload.sealed == Seal(masterKey, payload.sealed.nonce, s.value)
  {
  }

  /** What a listing shows of a name: its current version with the value blanked. */
  function Shown(masterKey: string, c: Catalog, vault: string, name: string): Option<SecretVersion> {
    var current := GetCurrent(c, Key(vault, name));
    if current.None? then None
    else
      var scanned := ScanVersion(masterKey, name, current.value.0, current.value.1);
      if scanned.Some? then Some(scanned.value.(value := "")) else None
  }

  /** SetResult, for a Set with these arguments. */
  ghost function AfterSet(w: Worlds.World, k: Key, version: string, body: Body): Worlds.World {
    if SetAllowed(w, k, version)
    then w.(secrets := w.secrets[k := SetRequests.SetResult(At(w.secrets, k), version, body)]) else w
  }

  ghost predicate SetAllowed(w: Worlds.World, k: Key, version: string) {
    k.vault in w.vaults && (Active(w.secrets, k) ==> version !in w.secrets[k].versions)
  }

  lemma AfterSetIsValid(w: Worlds.World, k: Key, version: string, body: Body)
    requires Worlds.Valid(w) && body.payload.SecretPayload?
    ensures Worlds.Valid(AfterSet(w, k, version, body))
  {
    assert Worlds.CatalogValid(Kind.Secrets, w.Items(Kind.Secrets), w.vaults.Keys);
    if SetAllowed(w, k, version) {
      var c := w.secrets[k := SetRequests.SetResult(At(w.secrets, k), version, body)];
      assert Worlds.CatalogValid(Kind.Secrets, c, w.vaults.Keys);
      Worlds.WithKeepsValid(w, Kind.Secrets, c);
    }
  }

  /** A Set reaches no other vault, and what it stored is the answer to the next Get. */
  lemma AfterSetIsRead(w: Worlds.World, k: Key, version: string, masterKey: string, nonce: nat, value: string, contentType: string,
                       tags: Tags, enabled: bool, nbf: Option<int>, exp: Option<int>, now: int)
    requires SetAllowed(w, k, version)
    ensures var w' := AfterSet(w, k, version, SealedBody(masterKey, nonce, value, contentType, tags, enabled, nbf, exp, now));
            var stored := SecretVersion(k.name, version, value, contentType, tags, Attributes(enabled, nbf, exp, now, now));
            IsAnswer(masterKey, w'.secrets, k, "", Ok(stored)) && (version != "" ==> IsAnswer(masterKey, w'.secrets, k, version, Ok(stored)))
  {
    var body := SealedBody(masterKey, nonce, value, contentType, tags, enabled, nbf, exp, now);
    StoredIsRead(masterKey, masterKey, nonce, k.name, version, value, contentType, tags, enabled, nbf, exp, now);
    var item := AfterSet(w, k, version, body).secrets[k];
    assert item.deletion.None? && item.current == version && item.versions[version] == body;
  }

  lemma AfterSetStaysInVault(w: Worlds.World, k: Key, version: string, body: Body)
    ensures Runs.OnlyTouches(w, AfterSet(w, k, version, body), k.vault)
  {
    var w' := AfterSet(w, k, version, body);
    forall other | other != k.vault ensures Runs.SameSlice(w, w', other) {
      forall kind, j: Key | j.vault == other ensures At(w.Items(kind), j) == At(w'.Items(kind), j) {}
    }
  }

  class SecretService {
    const db: Db.Database
    const masterKey: string
    const vaultID: string

    constructor (db: Db.Database, masterKey: string, vaultID: string)
      ensures this.db == db && this.masterKey == masterKey && this.vaultID == vaultID
    {
      this.db, this.masterKey, this.vaultID := db, masterKey, vaultID;
    }

    /** vid: the vault the request was resolved to, or the one the service was built for. */
    function Vid(requestVault: string): string {
      if requestVault != "" then requestVault else vaultID
    }

    ghost predicate Valid()
      reads db
    {
      db.Valid() && Worlds.Valid(db.World())
    }

    /** Set, its three steps undisturbed (SetRequests has the interleavings). */
    method Set(requestVault: string, name: string, value: string, contentType: string, tags: Tags,
               enabled: bool, nbf: Option<int>, exp: Option<int>, now: int, version: string, nonce: nat)
      returns (r: Result<SecretVersion, Error>)
      requires Valid()
      modifies db`secrets, db`keys, db`certificates
      ensures Valid()
      ensures var k := Key(if requestVault != "" then requestVault else vaultID, name);
              var body := SealedBody(masterKey, nonce, value, contentType, tags, enabled, nbf, exp, now);
              && db.World() == AfterSet(old(db.World()), k, version, body)
              && (r.Ok? <==> SetAllowed(old(db.World()), k, version))
              && (r.Ok? ==> IsAnswer(masterKey, db.World().secrets, k, "", r))
      ensures r.Ok? ==> r.value == SecretVersion(name, version, value, contentType, tags, Attributes(enabled, nbf, exp, now, now))
      ensures Runs.OnlyTouches(old(db.World()), db.World(), if requestVault != "" then requestVault else vaultID)
    {
      var k := Key(Vid(requestVault), name);
      var body := SealedBody(masterKey, nonce, value, contentType, tags, enabled, nbf, exp, now);
      ghost var w := db.World();
      SetSteps(w, k, version, body);
      AfterSetIsValid(w, k, version, body);
      AfterSetStaysInVault(w, k, version, body);
      if SetAllowed(w, k, version) {
        AfterSetIsRead(w, k, version, masterKey, nonce, value, contentType, tags, enabled, nbf, exp, now);
      }
      var deleted := Transactions.IsDeleted(db.secrets, k);
      if deleted {
        var purged := db.Purge(Kind.Secrets, k);
        match purged
        case Err(e) => return Err(e);
        case Ok(_) =>
      }
      var stored := db.Upsert(Kind.Secrets, k, version, body, None);
      if stored.Err? { return Err(stored.error); }
      return Ok(SecretVersion(name, version, value, contentType, tags, Attributes(enabled, nbf, exp, now, now)));
    }

    /** Get: the current version for "", the named one otherwise; a soft-deleted item has none. */
    method Get(requestVault: string, name: string, version: string) returns (r: Result<SecretVersion, Error>)
      requires Valid()
      ensures IsAnswer(masterKey, db.World().secrets, Key(if requestVault != "" then requestVault else vaultID, name), version, r)
    {
      var k := Key(Vid(requestVault), name);
      Runs.ReadsFindUndeleted(db.World(), Kind.Secrets, k);
      assert db.World().Items(Kind.Secrets) == db.World().secrets;
      var found: Option<(string, Body)>;
      if version == "" {
        found := Transactions.SelectCurrent(db.secrets, k);
      } else {
        var body := Transactions.SelectVersion(db.secrets, k, version);
        found := if body.Some? then Some((version, body.value)) else None;
      }
      if found.None? { return Err(NotFound); }
      var scanned := ScanVersion(masterKey, name, found.value.0, found.value.1);
      return if scanned.Some? then Ok(scanned.value) else Err(Corrupt);
    }

    /** Delete: the item is scheduled for purge ninety calendar days from the request. */
    method Delete(requestVault: string, name: string, requested: int, offset: int, offsetThen: int, now: int)
      returns (r: Result<(), Error>)
      requires Valid()
      modifies db`secrets, db`keys, db`certificates
      ensures Valid()
      ensures var k := Key(if requestVault != "" then requestVault else vaultID, name);
              var d := Deletion(now, ScheduledPurge(requested, offset, offsetThen), Worlds.RecoveryId(Kind.Secrets, k));
              && Db.Takes(old(db.World()), Worlds.OnItem(Kind.Secrets, k, ItemOp.SoftDelete(d)), r, db.World())
              && (r.Ok? <==> Active(old(db.World()).secrets, k))
              && IsAnswer(masterKey, db.World().secrets, k, "", Err(NotFound))
      ensures Runs.OnlyTouches(old(db.World()), db.World(), if requestVault != "" then requestVault else vaultID)
    {
      var k := Key(Vid(requestVault), name);
      var scheduled := ScheduledPurge(requested, offset, offsetThen);
      ghost var d := Deletion(now, scheduled, Worlds.RecoveryId(Kind.Secrets, k));
      Worlds.StepKeepsValid(db.World(), Worlds.OnItem(Kind.Secrets, k, ItemOp.SoftDelete(d)));
      AfterDelete(masterKey, db.World(), k, d);
      r := db.SoftDelete(Kind.Secrets, k, now, scheduled);
    }

    /** List: one page of the vault's active secrets in name order, values blanked. */
    method List(requestVault: string, max: int, token: string) returns (r: Result<(seq<SecretVersion>, string), Error>)
      requires Valid()
      ensures IsListing(masterKey, db.World().secrets, if requestVault != "" then requestVault else vaultID, max, token, r)
      ensures r.Ok? ==> ListsInOrder(masterKey, db.World().secrets, if requestVault != "" then requestVault else vaultID, r.value.0)
    {
      r := ListPage(masterKey, db.secrets, Vid(requestVault), max, token);
      if r.Ok? {
        var list := BlankValues(r.value.0);
        r := Ok((list, r.value.1));
        ListingIsOrdered(masterKey, db.World().secrets, Vid(requestVault), max, token, r);
      }
    }

    /** ListVersions: one page of the versions of an active item, the newest first, values blanked;
        not found for any other name. */
    method ListVersions(requestVault: string, name: string, max: int, token: string)
      returns (r: Result<(seq<SecretVersion>, string), Error>)
      requires Valid()
      ensures IsVersionsAnswer(masterKey, db.World().secrets, Key(if requestVault != "" then requestVault else vaultID, name), max, token, r)
      ensures r.Ok? ==> forall i, j :: 0 <= i < j < |r.value.0| ==> r.value.0[i].attributes.created >= r.value.0[j].attributes.created
    {
      var k := Key(Vid(requestVault), name);
      var versions := Transactions.SelectVersions(db.secrets, k);
      var read, rows := VersionPage(masterKey, name, versions, max, token);
      if versions == map[] { NoVersions(masterKey, name, rows, max, token); }
      if read.Err? {
        BlankPage(masterKey, name, versions, rows, max, token, read, read);
        return read;
      }
      if read.value.0 == [] {
        var found := Transactions.IsActive(db.secrets, k);
        if !found { return Err(NotFound); }
      }
      var list := BlankValues(read.value.0);
      r := Ok((list, read.value.1));
      PageNewestFirst(masterKey, name, versions, rows, max, token, read.value.0);
      BlankPage(masterKey, name, versions, rows, max, token, read, r);
    }
  }

  /** The names a listing of one page reads: the page, and one more to know whether it is the last. */
  function NamesRead(c: Catalog, vault: string, max: int, token: string): seq<string> {
    Pagination.Window(Sorted(ActiveNames(c, vault)), Pagination.PageSize(max) + 1, SkipToken.Decode(token))
  }

  function PageOf(c: Catalog, vault: string, max: int, token: string): (seq<string>, string) {
    Pagination.Page(Sorted(ActiveNames(c, vault)), max, token)
  }

  ghost predicate AllOpen(masterKey: string, c: Catalog, vault: string, names: seq<string>) {
    forall i :: 0 <= i < |names| ==> Shown(masterKey, c, vault, names[i]).Some?
  }

  ghost predicate Shows(masterKey: string, c: Catalog, vault: string, names: seq<string>, list: seq<SecretVersion>) {
    && |list| == |names|
    && forall i :: 0 <= i < |names| ==> Shown(masterKey, c, vault, names[i]) == Some(list[i].(value := ""))
  }

  /** The page of the active names in order, each shown without its value, and its token. It fails
      when any name read, the one past the page included, does not open. */
  ghost predicate IsListing(masterKey: string, c: Catalog, vault: string, max: int, token: string,
                            r: Result<(seq<SecretVersion>, string), Error>) {
    var (page, next) := PageOf(c, vault, max, token);
    && (r.Ok? <==> AllOpen(masterKey, c, vault, NamesRead(c, vault, max, token)))
    && (r.Ok? ==> r.value.1 == next && Shows(masterKey, c, vault, page, r.value.0)
                  && forall i :: 0 <= i < |r.value.0| ==> r.value.0[i].value == "")
  }

  /** The entry is the answer to a Get of its name, less the value. */
  ghost predicate IsBlanked(masterKey: string, c: Catalog, vault: string, entry: SecretVersion) {
    entry.value == "" && exists value :: IsAnswer(masterKey, c, Key(vault, entry.name), "", Ok(entry.(value := value)))
  }

  /** Every entry is what Get answers for an item of the vault, less its value, and each name comes
      before the next. */
  ghost predicate ListsInOrder(masterKey: string, c: Catalog, vault: string, list: seq<SecretVersion>) {
    && (forall i :: 0 <= i < |list| ==> IsBlanked(masterKey, c, vault, list[i]))
    && (forall i, j :: 0 <= i < j < |list| ==> Precedes(list[i].name, list[j].name) && list[i].name != list[j].name)
  }

  lemma ListingIsOrdered(masterKey: string, c: Catalog, vault: string, max: int, token: string,
                         r: Result<(seq<SecretVersion>, string), Error>)
    requires IsListing(masterKey, c, vault, max, token, r) && r.Ok?
    ensures ListsInOrder(masterKey, c, vault, r.value.0)
  {
    var rows, list := Sorted(ActiveNames(c, vault)), r.value.0;
    var (page, next) := PageOf(c, vault, max, token);
    SortedIsOrderBy(ActiveNames(c, vault));
    var lo := PageStart(rows, max, token);
    forall i | 0 <= i < |list|
      ensures list[i].name == rows[lo + i] && IsBlanked(masterKey, c, vault, list[i])
    {
      assert Shown(masterKey, c, vault, page[i]) == Some(list[i].(value := ""));
      ShownIsBlanked(masterKey, c, vault, page[i], list[i]);
    }
  }

  lemma ShownIsBlanked(masterKey: string, c: Catalog, vault: string, name: string, entry: SecretVersion)
    requires Shown(masterKey, c, vault, name) == Some(entry) && entry.value == ""
    ensures entry.name == name && IsBlanked(masterKey, c, vault, entry)
  {
    var current := GetCurrent(c, Key(vault, name)).value;
    var s := ScanVersion(masterKey, name, current.0, current.1).value;
    assert entry.(value := s.value) == s;
    assert IsAnswer(masterKey, c, Key(vault, name), "", Ok(entry.(value := s.value)));
  }

  // A page is a stretch of the rows.
  lemma PageStart(rows: seq<string>, max: int, token: string) returns (lo: nat)
    ensures var page := Pagination.Page(rows, max, token).0; lo + |page| <= |rows| && page == rows[lo..lo + |page|]
  {
    var offset := SkipToken.Decode(token);
    return if offset < 0 then 0 else if offset > |rows| then |rows| else offset;
  }

  // ORDER BY name LIMIT ? OFFSET ?
  method SelectNames(t: Tables.Table, vault: string, max: int, token: string) returns (names: seq<string>)
    requires Tables.Valid(t)
    ensures names == NamesRead(Tables.Abs(t), vault, max, token)
  {
    Transactions.JoinedNamesAreActive(t, vault);
    names := Pagination.Window(Sorted(Transactions.JoinedNames(t, vault)), Pagination.PageSize(max) + 1, SkipToken.Decode(token));
  }

  // SecretRepo.List: the values are still in it.
  method ListPage(masterKey: string, t: Tables.Table, vault: string, max: int, token: string)
    returns (r: Result<(seq<SecretVersion>, string), Error>)
    requires Tables.Valid(t)
    ensures r.Ok? <==> AllOpen(masterKey, Tables.Abs(t), vault, NamesRead(Tables.Abs(t), vault, max, token))
    ensures r.Ok? ==> r.value.1 == PageOf(Tables.Abs(t), vault, max, token).1
    ensures r.Ok? ==> Shows(masterKey, Tables.Abs(t), vault, PageOf(Tables.Abs(t), vault, max, token).0, r.value.0)
  {
    var names := SelectNames(t, vault, max, token);
    var rows := OpenRows(masterKey, t, vault, names);
    if rows.Err? { return Err(rows.error); }
    var list, next := Pagination.ScanRows(rows.value, Pagination.PageSize(max), SkipToken.Decode(token));
    PageShown(masterKey, Tables.Abs(t), vault, max, token, rows.value);
    return Ok((list, next));
  }

  lemma PageShown(masterKey: string, c: Catalog, vault: string, max: int, token: string, rows: seq<SecretVersion>)
    requires Shows(masterKey, c, vault, NamesRead(c, vault, max, token), rows)
    ensures var size, offset := Pagination.PageSize(max), SkipToken.Decode(token);
            var (page, next) := PageOf(c, vault, max, token);
            && next == (if |rows| > size then SkipToken.Encode(offset + size) else "")
            && Shows(masterKey, c, vault, page, if |rows| > size then rows[..size] else rows)
  {
  }

  // Scanning the rows a listing reads, in their order.
  method OpenRows(masterKey: string, t: Tables.Table, vault: string, names: seq<string>) returns (r: Result<seq<SecretVersion>, Error>)
    requires Tables.Valid(t)
    ensures r.Ok? <==> AllOpen(masterKey, Tables.Abs(t), vault, names)
    ensures r.Ok? ==> Shows(masterKey, Tables.Abs(t), vault, names, r.value)
  {
    var rows: seq<SecretVersion> := [];
    for i := 0 to |names|
      invariant |rows| == i
      invariant forall j :: 0 <= j < i ==> Shown(masterKey, Tables.Abs(t), vault, names[j]) == Some(rows[j].(value := ""))
    {
      var current := Transactions.SelectCurrent(t, Key(vault, names[i]));
      var scanned := if current.Some? then ScanVersion(masterKey, names[i], current.value.0, current.value.1) else None;
      if scanned.None? {
        assert Shown(masterKey, Tables.Abs(t), vault, names[i]).None?;
        return Err(Corrupt);
      }
      rows := rows + [scanned.value];
    }
    return Ok(rows);
  }

  // Scanning the version rows a listing reads, in their order.
  method ScanVersions(masterKey: string, name: string, versions: map<string, Body>, rows: seq<string>)
    returns (r: Result<seq<SecretVersion>, Error>)
    requires forall i :: 0 <= i < |rows| ==> rows[i] in versions
    ensures r.Ok? <==> AllScan(masterKey, name, versions, rows)
    ensures r.Ok? ==> Scans(masterKey, name, versions, rows, r.value)
  {
    var scanned: seq<SecretVersion> := [];
    for i := 0 to |rows|
      invariant |scanned| == i
      invariant forall j :: 0 <= j < i ==> ScanVersion(masterKey, name, rows[j], versions[rows[j]]) == Some(scanned[j])
    {
      var s := ScanVersion(masterKey, name, rows[i], versions[rows[i]]);
      if s.None? { return Err(Corrupt); }
      scanned := scanned + [s.value];
    }
    return Ok(scanned);
  }

  // ORDER BY created DESC LIMIT ? OFFSET ?, and scanRows: the values are still in the page.
  method VersionPage(masterKey: string, name: string, versions: map<string, Body>, max: int, token: string)
    returns (r: Result<(seq<SecretVersion>, string), Error>, ghost rows: seq<string>)
    ensures VersionListing.NewestFirst(rows, versions)
    ensures r.Ok? <==> AllScan(masterKey, name, versions, VersionsRead(rows, max, token))
    ensures r.Ok? ==> r.value.1 == Pagination.Page(rows, max, token).1
                      && Scans(masterKey, name, versions, Pagination.Page(rows, max, token).0, r.value.0)
  {
    var order := VersionListing.Order(versions);
    rows := order;
    WindowPart(order, Pagination.PageSize(max) + 1, SkipToken.Decode(token));
    var scanned := ScanVersions(masterKey, name, versions, VersionsRead(order, max, token));
    if scanned.Err? { return Err(scanned.error), rows; }
    var list, next := Pagination.ScanRows(scanned.value, Pagination.PageSize(max), SkipToken.Decode(token));
    return Ok((list, next)), rows;
  }

  lemma WindowPart(rows: seq<string>, limit: nat, offset: int)
    ensures forall i :: 0 <= i < |Pagination.Window(rows, limit, offset)| ==> Pagination.Window(rows, limit, offset)[i] in rows
  {
  }

  lemma NoVersions(masterKey: string, name: string, rows: seq<string>, max: int, token: string)
    requires VersionListing.NewestFirst(rows, map[])
    ensures AllScan(masterKey, name, map[], VersionsRead(rows, max, token)) && Pagination.Page(rows, max, token).0 == []
  {
    VersionListing.FirstIsVersion(rows, map[]);
  }

  lemma PageNewestFirst(masterKey: string, name: string, versions: map<string, Body>, rows: seq<string>, max: int, token: string,
                        list: seq<SecretVersion>)
    requires VersionListing.NewestFirst(rows, versions)
    requires Scans(masterKey, name, versions, Pagination.Page(rows, max, token).0, list)
    ensures forall i, j :: 0 <= i < j < |list| ==> list[i].attributes.created >= list[j].attributes.created
  {
    var lo := PageStart(rows, max, token);
    var page := Pagination.Page(rows, max, token).0;
    forall i | 0 <= i < |list|
      ensures page[i] == rows[lo + i] && page[i] in versions && versions[page[i]].created == list[i].attributes.created
    {
      assert rows[lo + i] in rows;
    }
  }

  lemma BlankPage(masterKey: string, name: string, versions: map<string, Body>, rows: seq<string>, max: int, token: string,
                  read: Result<(seq<SecretVersion>, string), Error>, r: Result<(seq<SecretVersion>, string), Error>)
    requires VersionListing.NewestFirst(rows, versions)
    requires read.Ok? <==> AllScan(masterKey, name, versions, VersionsRead(rows, max, token))
    requires read.Ok? ==> read.value.1 == Pagination.Page(rows, max, token).1
                          && Scans(masterKey, name, versions, Pagination.Page(rows, max, token).0, read.value.0)
    requires read.Ok? <==> r.Ok?
    requires read.Ok? ==> r.value.1 == read.value.1 && |r.value.0| == |read.value.0|
                          && forall i :: 0 <= i < |r.value.0| ==> r.value.0[i] == read.value.0[i].(value := "")
    ensures IsVersionListing(masterKey, name, versions, max, token, r)
  {
    assert IsPageOf(masterKey, name, versions, rows, max, token, r);
  }

  /** What a listing of versions reads for one page of an order. */
  function VersionsRead(rows: seq<string>, max: int, token: string): seq<string> {
    Pagination.Window(rows, Pagination.PageSize(max) + 1, SkipToken.Decode(token))
  }

  ghost predicate Scans(masterKey: string, name: string, versions: map<string, Body>, rows: seq<string>, list: seq<SecretVersion>) {
    && |list| == |rows|
    && forall i :: 0 <= i < |rows| ==> rows[i] in versions && ScanVersion(masterKey, name, rows[i], versions[rows[i]]) == Some(list[i])
  }

  ghost predicate ScansBlank(masterKey: string, name: string, versions: map<string, Body>, rows: seq<string>, list: seq<SecretVersion>) {
    && |list| == |rows|
    && forall i :: 0 <= i < |rows| ==>
         rows[i] in versions
         && var scanned := ScanVersion(masterKey, name, rows[i], versions[rows[i]]);
            scanned.Some? && list[i] == scanned.value.(value := "")
  }

  predicate AllScan(masterKey: string, name: string, versions: map<string, Body>, rows: seq<string>) {
    forall i :: 0 <= i < |rows| ==> rows[i] in versions && ScanVersion(masterKey, name, rows[i], versions[rows[i]]).Some?
  }

  /** A page of some newest-first order of all the versions, each as stored but for its value. */
  ghost predicate IsVersionListing(masterKey: string, name: string, versions: map<string, Body>, max: int, token: string,
                                   r: Result<(seq<SecretVersion>, string), Error>) {
    exists rows :: VersionListing.NewestFirst(rows, versions) && IsPageOf(masterKey, name, versions, rows, max, token, r)
  }

  /** Not found unless the item is there and carries no deletion. */
  ghost predicate IsVersionsAnswer(masterKey: string, c: Catalog, k: Key, max: int, token: string,
                                   r: Result<(seq<SecretVersion>, string), Error>) {
    if k !in c || c[k].deletion.Some? then r == Err(NotFound)
    else IsVersionListing(masterKey, k.name, c[k].versions, max, token, r)
  }

  /** The services' answers depend on the vault they are asked about only: on two databases that
      look the same from inside it, whatever is an answer on one is an answer on the other. */
  lemma AnswersStayInVault(masterKey: string, w1: Worlds.World, w2: Worlds.World, vault: string)
    requires Runs.SameSlice(w1, w2, vault)
    ensures forall name, version, r :: IsAnswer(masterKey, w1.secrets, Key(vault, name), version, r) <==>
                                       IsAnswer(masterKey, w2.secrets, Key(vault, name), version, r)
    ensures forall max, token, r :: IsListing(masterKey, w1.secrets, vault, max, token, r) <==>
                                    IsListing(masterKey, w2.secrets, vault, max, token, r)
    ensures forall name, max, token, r :: IsVersionsAnswer(masterKey, w1.secrets, Key(vault, name), max, token, r) <==>
                                          IsVersionsAnswer(masterKey, w2.secrets, Key(vault, name), max, token, r)
  {
    assert w1.Items(Kind.Secrets) == w1.secrets && w2.Items(Kind.Secrets) == w2.secrets;
    forall name ensures At(w1.secrets, Key(vault, name)) == At(w2.secrets, Key(vault, name)) {}
    Runs.ReadsStayInVault(w1, w2, vault);
    assert ActiveNames(w1.secrets, vault) == ActiveNames(w2.secrets, vault);
    forall name ensures Shown(masterKey, w1.secrets, vault, name) == Shown(masterKey, w2.secrets, vault, name) {
      assert At(w1.secrets, Key(vault, name)) == At(w2.secrets, Key(vault, name));
    }
    forall max, token, r
      ensures IsListing(masterKey, w1.secrets, vault, max, token, r) <==> IsListing(masterKey, w2.secrets, vault, max, token, r)
    {
      if IsListing(masterKey, w1.secrets, vault, max, token, r) { ListingsAgree(masterKey, w1.secrets, w2.secrets, vault, max, token, r); }
      if IsListing(masterKey, w2.secrets, vault, max, token, r) { ListingsAgree(masterKey, w2.secrets, w1.secrets, vault, max, token, r); }
    }
    forall name, version, r
      ensures IsAnswer(masterKey, w1.secrets, Key(vault, name), version, r) <==>
              IsAnswer(masterKey, w2.secrets, Key(vault, name), version, r)
    {
      assert At(w1.secrets, Key(vault, name)) == At(w2.secrets, Key(vault, name));
    }
    forall name, max, token, r
      ensures IsVersionsAnswer(masterKey, w1.secrets, Key(vault, name), max, token, r) <==>
              IsVersionsAnswer(masterKey, w2.secrets, Key(vault, name), max, token, r)
    {
      assert At(w1.secrets, Key(vault, name)) == At(w2.secrets, Key(vault, name));
    }
  }

  lemma ListingsAgree(masterKey: string, c1: Catalog, c2: Catalog, vault: string, max: int, token: string,
                      r: Result<(seq<SecretVersion>, string), Error>)
    requires ActiveNames(c1, vault) == ActiveNames(c2, vault)
    requires forall name :: Shown(masterKey, c1, vault, name) == Shown(masterKey, c2, vault, name)
    requires IsListing(masterKey, c1, vault, max, token, r)
    ensures IsListing(masterKey, c2, vault, max, token, r)
  {
    var page, names := PageOf(c1, vault, max, token).0, NamesRead(c1, vault, max, token);
    assert PageOf(c2, vault, max, token) == PageOf(c1, vault, max, token);
    assert NamesRead(c2, vault, max, token) == names;
    assert AllOpen(masterKey, c1, vault, names) <==> AllOpen(masterKey, c2, vault, names);
    if r.Ok? {
      assert Shows(masterKey, c2, vault, page, r.value.0);
    }
  }

  lemma AfterDelete(masterKey: string, w: Worlds.World, k: Key, d: Deletion)
    ensures var w' := Worlds.Step(w, Worlds.OnItem(Kind.Secrets, k, ItemOp.SoftDelete(d)));
            && (Worlds.Next(w, Worlds.OnItem(Kind.Secrets, k, ItemOp.SoftDelete(d))).Ok? <==> Active(w.secrets, k))
            && IsAnswer(masterKey, w'.secrets, k, "", Err(NotFound))
            && Runs.OnlyTouches(w, w', k.vault)
  {
    var op := Worlds.OnItem(Kind.Secrets, k, ItemOp.SoftDelete(d));
    assert Worlds.Step(w, op).Items(Kind.Secrets) == Worlds.Step(w, op).secrets && w.Items(Kind.Secrets) == w.secrets;
    Worlds.StepAt(w, op, Kind.Secrets, k);
    forall other | other != k.vault ensures Runs.SameSlice(w, Worlds.Step(w, op), other) {
      Runs.StepOutsideVault(w, op, other);
    }
  }

  ghost predicate IsPageOf(masterKey: string, name: string, versions: map<string, Body>, rows: seq<string>, max: int, token: string,
                           r: Result<(seq<SecretVersion>, string), Error>) {
    var (page, next) := Pagination.Page(rows, max, token);
    && (r.Ok? <==> AllScan(masterKey, name, versions, VersionsRead(rows, max, token)))
    && (r.Ok? ==> r.value.1 == next && ScansBlank(masterKey, name, versions, page, r.value.0))
  }

  // The loop that empties each value of a listing.
  method BlankValues(rows: seq<SecretVersion>) returns (list: seq<SecretVersion>)
    ensures |list| == |rows| && forall i :: 0 <= i < |rows| ==> list[i] == rows[i].(value := "")
  {
    list := rows;
    for i := 0 to |rows|
      invariant |list| == |rows|
      invariant forall j :: 0 <= j < i ==> list[j] == rows[j].(value := "")
      invariant forall j :: i <= j < |rows| ==> list[j] == rows[j]
    {
      list := list[i := list[i].(value := "")];
    }
  }

  /** An undisturbed Set is the interleaving in which no other step comes between its own. */
  lemma SetIsRunAlone(w: Worlds.World, k: Key, version: string, body: Body)
    requires Worlds.Valid(w)
    ensures var alone := SetRequests.Alone(w, k, version, body);
            && alone.world == AfterSet(w, k, version, body)
            && alone.calls[0].phase.Returned? && (alone.calls[0].phase.result.Ok? <==> SetAllowed(w, k, version))
            && (SetAllowed(w, k, version) ==> alone.calls[0].phase.result == Ok(version))
  {
    SetRequests.SetAlone(w, k, version, body);
  }

  // The writes of an undisturbed Set.
  lemma SetSteps(w: Worlds.World, k: Key, version: string, body: Body)
    requires Worlds.Valid(w)
    ensures Deleted(w.secrets, k) ==>
              && Worlds.Next(w, Worlds.OnItem(Kind.Secrets, k, ItemOp.Purge)).Ok?
              && InsertsInto(Worlds.Step(w, Worlds.OnItem(Kind.Secrets, k, ItemOp.Purge)), w, k, version, body)
    ensures !Deleted(w.secrets, k) ==> InsertsInto(w, w, k, version, body)
  {
    assert Worlds.CatalogValid(Kind.Secrets, w.Items(Kind.Secrets), w.vaults.Keys);
    if Deleted(w.secrets, k) {
      assert (w.secrets - {k})[k := SetRequests.SetResult(None, version, body)] == w.secrets[k := SetRequests.SetResult(None, version, body)];
    }
  }

  ghost predicate InsertsInto(now: Worlds.World, w: Worlds.World, k: Key, version: string, body: Body) {
    var r := Worlds.Next(now, Worlds.OnItem(Kind.Secrets, k, ItemOp.Upsert(version, body, None)));
    if SetAllowed(w, k, version) then r == Ok(AfterSet(w, k, version, body)) else r.Err? && now == w
  }
}
