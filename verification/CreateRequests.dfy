// CertService.Create as the separate steps it is: the key write, the read of the private half, the
// up to three steps of the inner Set, the certificate write. Any number of such calls run at once,
// their steps interleaved with each other and with any other step.
module CreateRequests {
  import opened Wrappers
  import opened Catalog
  import opened Worlds
  import opened Runs
  import opened Secrets
  import SetRequests
  import opened Certificates

  type Set = SetRequests.SetCall

  datatype Phase = MakingKey | ReadingKey | Setting(call: Set, cer: string) | StoringCert(cer: string) | Returned(ok: bool)

  datatype CreateCall = CreateCall(key: Key, d: Draw, a: Wanted, phase: Phase)

  /** The master key, the signer and the PEM encoder the service works with. */
  datatype Tools = Tools(masterKey: string, issue: Issuer, encode: string -> string)

  datatype System = System(world: World, calls: seq<CreateCall>)

  datatype Event = Advance(call: nat) | Other(op: Op)

  function Write(tools: Tools, call: CreateCall): Option<Op> {
    match call.phase
    case MakingKey =>
      if call.d.pair.None? then None
      else Some(OnItem(Keys, call.key, Upsert(call.d.keyVersion, KeyBody(tools.masterKey, call.d), None)))
    case Setting(inner, _) => SetRequests.Write(inner)
    case StoringCert(cer) =>
      Some(OnItem(Certificates, call.key, Upsert(call.d.certVersion, CertBody(cer, call.d.keyVersion, call.d, call.a), Some(call.a.policy))))
    case _ => None
  }

  function NextPhase(tools: Tools, call: CreateCall, w: World): Phase {
    var write := Write(tools, call);
    match call.phase
    case MakingKey => if write.Some? && Next(w, write.value).Ok? then ReadingKey else Returned(false)
    case ReadingKey =>
      var priv := PrivateOf(w, tools.masterKey, call.key, call.d.keyVersion);
      if call.d.pair.None? || priv.Err? || tools.issue(call.d.pair.value.0, priv.value).None? then Returned(false)
      else
        var cer := tools.issue(call.d.pair.value.0, priv.value).value;
        var body := PemBody(tools.masterKey, tools.encode(cer), call.d);
        Setting(SetRequests.SetCall(call.key, call.d.secretVersion, body, SetRequests.Checking), cer)
    case Setting(inner, cer) =>
      var p := SetRequests.NextPhase(inner, w);
      if !p.Returned? then Setting(inner.(phase := p), cer)
      else if p.result.Ok? then StoringCert(cer) else Returned(false)
    case StoringCert(_) => Returned(write.Some? && Next(w, write.value).Ok?)
    case Returned(_) => call.phase
  }

  function OpOf(tools: Tools, s: System, e: Event): Option<Op> {
    match e
    case Other(op) => Some(op)
    case Advance(i) => if i < |s.calls| then Write(tools, s.calls[i]) else None
  }

  function NextSystem(tools: Tools, s: System, e: Event): (s': System)
    ensures |s'.calls| == |s.calls|
  {
    var op := OpOf(tools, s, e);
    var w := if op.Some? then Step(s.world, op.value) else s.world;
    if e.Advance? && e.call < |s.calls| then
      var call := s.calls[e.call];
      System(w, s.calls[e.call := call.(phase := NextPhase(tools, call, s.world))])
    else System(w, s.calls)
  }

  function Run(tools: Tools, s: System, events: seq<Event>): (s': System)
    ensures |s'.calls| == |s.calls|
  {
    if events == [] then s else NextSystem(tools, Run(tools, s, events[..|events| - 1]), events[|events| - 1])
  }

  // ---- a Create that succeeds ----

  /** Right after event `j`, a step of call `i`, this version of its item is the current one. */
  ghost predicate StoredAt(tools: Tools, s: System, events: seq<Event>, i: nat, j: nat, kind: Kind, version: string, body: Body) {
    && i < |s.calls| && j < |events| && events[j] == Advance(i)
    && GetCurrent(Run(tools, s, events[..j + 1]).world.Items(kind), s.calls[i].key) == Some((version, body))
  }

  ghost predicate KeyStored(tools: Tools, s: System, events: seq<Event>, i: nat, j: nat) {
    i < |s.calls| && s.calls[i].d.pair.Some?
    && StoredAt(tools, s, events, i, j, Keys, s.calls[i].d.keyVersion, KeyBody(tools.masterKey, s.calls[i].d))
  }

  ghost predicate SecretStored(tools: Tools, s: System, events: seq<Event>, i: nat, j: nat, cer: string) {
    i < |s.calls| && StoredAt(tools, s, events, i, j, Secrets, s.calls[i].d.secretVersion,
                              PemBody(tools.masterKey, tools.encode(cer), s.calls[i].d))
  }

  ghost predicate CertStored(tools: Tools, s: System, events: seq<Event>, i: nat, j: nat, cer: string) {
    i < |s.calls| && StoredAt(tools, s, events, i, j, Certificates, s.calls[i].d.certVersion,
                              CertBody(cer, s.calls[i].d.keyVersion, s.calls[i].d, s.calls[i].a))
  }

  lemma StoredEarlier(tools: Tools, s: System, events: seq<Event>, i: nat, j: nat, kind: Kind, version: string, body: Body)
    requires events != [] && StoredAt(tools, s, events[..|events| - 1], i, j, kind, version, body)
    ensures StoredAt(tools, s, events, i, j, kind, version, body)
  {
    assert events[..|events| - 1][..j + 1] == events[..j + 1];
  }

  // A write of call `i` that commits stores its version as the current one.
  lemma StoresNow(tools: Tools, s: System, events: seq<Event>, i: nat, kind: Kind, version: string, body: Body, policy: Option<string>)
    requires events != [] && i < |s.calls| && events[|events| - 1] == Advance(i)
    requires var before := Run(tools, s, events[..|events| - 1]);
             var op := OnItem(kind, s.calls[i].key, Upsert(version, body, policy));
             Write(tools, before.calls[i]) == Some(op) && Next(before.world, op).Ok?
    ensures StoredAt(tools, s, events, i, |events| - 1, kind, version, body)
  {
    var before := Run(tools, s, events[..|events| - 1]);
    assert events[..|events|] == events;
    UpsertShows(before.world, kind, s.calls[i].key, version, body, policy);
  }

  lemma UpsertShows(w: World, kind: Kind, k: Key, version: string, body: Body, policy: Option<string>)
    requires Next(w, OnItem(kind, k, Upsert(version, body, policy))).Ok?
    ensures GetCurrent(Step(w, OnItem(kind, k, Upsert(version, body, policy))).Items(kind), k) == Some((version, body))
  {
  }

  /** What call `i` has stored when it stands in its present phase. */
  ghost predicate Progress(tools: Tools, s: System, events: seq<Event>, i: nat, jk: nat, js: nat, jc: nat, cer: string)
    requires i < |s.calls|
  {
    match Run(tools, s, events).calls[i].phase
    case MakingKey => true
    case ReadingKey => KeyStored(tools, s, events, i, jk)
    case Setting(inner, c) =>
      && KeyStored(tools, s, events, i, jk) && c == cer && !inner.phase.Returned?
      && inner.key == s.calls[i].key && inner.version == s.calls[i].d.secretVersion
      && inner.body == PemBody(tools.masterKey, tools.encode(cer), s.calls[i].d)
    case StoringCert(c) =>
      KeyStored(tools, s, events, i, jk) && c == cer && SecretStored(tools, s, events, i, js, cer) && jk < js
    case Returned(ok) =>
      ok ==> KeyStored(tools, s, events, i, jk) && SecretStored(tools, s, events, i, js, cer)
             && CertStored(tools, s, events, i, jc, cer) && jk < js < jc
  }

  lemma CallStep(tools: Tools, s: System, e: Event, i: nat)
    requires i < |s.calls|
    ensures NextSystem(tools, s, e).calls[i] ==
            if e == Advance(i) then s.calls[i].(phase := NextPhase(tools, s.calls[i], s.world)) else s.calls[i]
  {
  }

  lemma ProgressWaits(tools: Tools, s: System, events: seq<Event>, i: nat, jk: nat, js: nat, jc: nat, cer: string)
    requires events != [] && i < |s.calls| && Progress(tools, s, events[..|events| - 1], i, jk, js, jc, cer)
    requires Run(tools, s, events).calls[i] == Run(tools, s, events[..|events| - 1]).calls[i]
    ensures Progress(tools, s, events, i, jk, js, jc, cer)
  {
    StoredStays(tools, s, events, i, jk, js, jc, cer);
  }

  lemma StoredStays(tools: Tools, s: System, events: seq<Event>, i: nat, jk: nat, js: nat, jc: nat, cer: string)
    requires events != [] && i < |s.calls|
    ensures KeyStored(tools, s, events[..|events| - 1], i, jk) ==> KeyStored(tools, s, events, i, jk) && jk < |events| - 1
    ensures SecretStored(tools, s, events[..|events| - 1], i, js, cer) ==> SecretStored(tools, s, events, i, js, cer) && js < |events| - 1
    ensures CertStored(tools, s, events[..|events| - 1], i, jc, cer) ==> CertStored(tools, s, events, i, jc, cer)
  {
    var pre, d := events[..|events| - 1], s.calls[i].d;
    if KeyStored(tools, s, pre, i, jk) { StoredEarlier(tools, s, events, i, jk, Keys, d.keyVersion, KeyBody(tools.masterKey, d)); }
    var pem, body := PemBody(tools.masterKey, tools.encode(cer), d), CertBody(cer, d.keyVersion, d, s.calls[i].a);
    if SecretStored(tools, s, pre, i, js, cer) { StoredEarlier(tools, s, events, i, js, Secrets, d.secretVersion, pem); }
    if CertStored(tools, s, pre, i, jc, cer) { StoredEarlier(tools, s, events, i, jc, Certificates, d.certVersion, body); }
  }

  // One step of the call itself. It yields the positions and the certificate it has now.
  lemma AdvanceProgresses(tools: Tools, s: System, events: seq<Event>, i: nat, jk: nat, js: nat, jc: nat, cer: string)
    returns (jk': nat, js': nat, jc': nat, cer': string)
    requires i < |s.calls| && events != [] && events[|events| - 1] == Advance(i)
    requires var call := Run(tools, s, events[..|events| - 1]).calls[i];
             !call.phase.Returned? && call.(phase := MakingKey) == s.calls[i].(phase := MakingKey)
    requires Progress(tools, s, events[..|events| - 1], i, jk, js, jc, cer)
    ensures Progress(tools, s, events, i, jk', js', jc', cer')
  {
    var last := |events| - 1;
    var before := Run(tools, s, events[..last]);
    var d, a := s.calls[i].d, s.calls[i].a;
    jk', js', jc', cer' := jk, js, jc, cer;
    CallStep(tools, before, events[last], i);
    StoredStays(tools, s, events, i, jk, js, jc, cer);
    var next := NextPhase(tools, before.calls[i], before.world);
    match before.calls[i].phase
    case MakingKey =>
      if next.ReadingKey? {
        StoresNow(tools, s, events, i, Keys, d.keyVersion, KeyBody(tools.masterKey, d), None);
        jk' := last;
      }
    case ReadingKey =>
      if next.Setting? { cer' := next.cer; }
    case Setting(inner, _) =>
      if next.StoringCert? {
        StoresNow(tools, s, events, i, Secrets, d.secretVersion, inner.body, None);
        js' := last;
      }
    case StoringCert(_) =>
      if next.ok {
        StoresNow(tools, s, events, i, Certificates, d.certVersion, CertBody(cer, d.keyVersion, d, a), Some(a.policy));
        jc' := last;
      }
  }

  lemma {:induction false} MakesProgress(tools: Tools, s: System, events: seq<Event>, i: nat)
    returns (jk: nat, js: nat, jc: nat, cer: string)
    requires i < |s.calls| && s.calls[i].phase.MakingKey?
    ensures Run(tools, s, events).calls[i].(phase := MakingKey) == s.calls[i]
    ensures Progress(tools, s, events, i, jk, js, jc, cer)
    decreases |events|
  {
    if events == [] { return 0, 0, 0, ""; }
    var pre, e := events[..|events| - 1], events[|events| - 1];
    jk, js, jc, cer := MakesProgress(tools, s, pre, i);
    CallStep(tools, Run(tools, s, pre), e, i);
    if e != Advance(i) || Run(tools, s, pre).calls[i].phase.Returned? {
      ProgressWaits(tools, s, events, i, jk, js, jc, cer);
    } else {
      jk, js, jc, cer := AdvanceProgresses(tools, s, events, i, jk, js, jc, cer);
    }
  }

  /** In every interleaving, a Create that reports success stored its key, its secret and its
      certificate in that order, each the current version of the name in one and the same vault
      right after its own step, the secret and the certificate holding one and the same document. */
  lemma SuccessStoredAll(tools: Tools, s: System, events: seq<Event>, i: nat)
    requires i < |s.calls| && s.calls[i].phase.MakingKey?
    requires Run(tools, s, events).calls[i].phase == Returned(true)
    ensures exists jk: nat, js: nat, jc: nat, cer: string :: jk < js < jc && KeyStored(tools, s, events, i, jk)
              && SecretStored(tools, s, events, i, js, cer) && CertStored(tools, s, events, i, jc, cer)
  {
    var jk, js, jc, cer := MakesProgress(tools, s, events, i);
  }

  /** What the three stores mean to a reader: right after its step the key opens to the generated
      pair, the secret reads as the encoded certificate, and the certificate reads as the signed one
      and names the versions of those two. */
  lemma StoredReads(tools: Tools, s: System, events: seq<Event>, i: nat, jk: nat, js: nat, jc: nat, cer: string)
    requires KeyStored(tools, s, events, i, jk)
    requires SecretStored(tools, s, events, i, js, cer) && CertStored(tools, s, events, i, jc, cer)
    ensures var k, d, a := s.calls[i].key, s.calls[i].d, s.calls[i].a;
            var read := ReadCert(Run(tools, s, events[..jc + 1]).world, k);
            && read.Some? && read.value.version == d.certVersion && read.value.cer == cer
            && read.value.attributes == Attributes(a.enabled, a.nbf, a.exp, d.certAt, d.certAt)
            && KeyBehind(Run(tools, s, events[..jk + 1]).world, tools.masterKey, k, read.value.backingKey, d.pair.value)
            && SecretBehind(Run(tools, s, events[..js + 1]).world, tools.masterKey, k, read.value.backingSecret, tools.encode(cer), d.secretAt)
  {
    var k, d := s.calls[i].key, s.calls[i].d;
    var wk, ws, wc := Run(tools, s, events[..jk + 1]).world, Run(tools, s, events[..js + 1]).world, Run(tools, s, events[..jc + 1]).world;
    assert wk.Items(Keys) == wk.keys && ws.Items(Secrets) == ws.secrets && wc.Items(Certificates) == wc.certificates;
    KeyReads(wk, tools.masterKey, k, d);
    SecretReads(ws, tools.masterKey, k, tools.encode(cer), d);
    CertReads(wc, k, cer, d.keyVersion, d, s.calls[i].a);
  }

  // ---- what becomes of the three versions ----

  function Trace(tools: Tools, s: System, events: seq<Event>): seq<Op> {
    if events == [] then []
    else
      var pre := events[..|events| - 1];
      var op := OpOf(tools, Run(tools, s, pre), events[|events| - 1]);
      if op.Some? then Trace(tools, s, pre) + [op.value] else Trace(tools, s, pre)
  }

  lemma {:induction false} InterleavingIsRun(tools: Tools, s: System, events: seq<Event>)
    ensures Run(tools, s, events).world == Exec(s.world, Trace(tools, s, events))
    decreases |events|
  {
    if events != [] {
      var pre := events[..|events| - 1];
      InterleavingIsRun(tools, s, pre);
      var op := OpOf(tools, Run(tools, s, pre), events[|events| - 1]);
      if op.Some? {
        assert (Trace(tools, s, pre) + [op.value])[..|Trace(tools, s, pre)|] == Trace(tools, s, pre);
      }
    }
  }

  lemma {:induction false} RunConcat(tools: Tools, s: System, a: seq<Event>, b: seq<Event>)
    ensures Run(tools, s, a + b) == Run(tools, Run(tools, s, a), b)
    decreases |b|
  {
    if b == [] {
      assert a + b == a;
    } else {
      assert (a + b)[..|a + b| - 1] == a + b[..|b| - 1];
      RunConcat(tools, s, a, b[..|b| - 1]);
    }
  }

  /** A version so stored is there ever after, with its content, unless a later step destroys its item,
      which is soft-deleted at that moment. */
  lemma StoredSurvives(tools: Tools, s: System, events: seq<Event>, i: nat, j: nat, kind: Kind, version: string, body: Body)
    requires StoredAt(tools, s, events, i, j, kind, version, body)
    ensures var k, c := s.calls[i].key, Run(tools, s, events).world.Items(kind);
            var mid := Run(tools, s, events[..j + 1]);
            var later := Trace(tools, mid, events[j + 1..]);
            || (k in c && version in c[k].versions && Content(c[k].versions[version].payload) == Content(body.payload)
                && c[k].versions[version].created == body.created)
            || exists n :: 0 <= n < |later| && Destroys(StateAt(mid.world, later, n), later[n], kind, k)
  {
    var mid := Run(tools, s, events[..j + 1]);
    assert events == events[..j + 1] + events[j + 1..];
    RunConcat(tools, s, events[..j + 1], events[j + 1..]);
    InterleavingIsRun(tools, mid, events[j + 1..]);
    VersionsSurvive(mid.world, Trace(tools, mid, events[j + 1..]), kind, s.calls[i].key);
  }

  // ---- a success whose key is gone ----

  lemma RunStep(tools: Tools, s: System, events: seq<Event>, e: Event)
    ensures Run(tools, s, events + [e]) == NextSystem(tools, Run(tools, s, events), e)
  {
    assert (events + [e])[..|events|] == events;
  }

  // Three writes of one fresh name, its key deleted and purged after the signing.
  lemma FreshWrites(w: World, k: Key, kv: string, kb: Body, sv: string, sb: Body, cv: string, cb: Body, policy: string, x: Deletion)
    requires k.vault in w.vaults && k !in w.secrets && k !in w.keys && k !in w.certificates
    ensures var put := OnItem(Keys, k, Upsert(kv, kb, None));
            var w1 := w.(keys := w.keys[k := Item(map[kv := kb], kv, None, None)]);
            var gone := OnItem(Keys, k, SoftDelete(x));
            var w2 := w.(secrets := w.secrets[k := Item(map[sv := sb], sv, None, None)]);
            var insert := OnItem(Secrets, k, Upsert(sv, sb, None));
            var cert := OnItem(Certificates, k, Upsert(cv, cb, Some(policy)));
            && Next(w, put) == Ok(w1) && Step(Step(w1, gone), OnItem(Keys, k, Purge)) == w
            && Next(w, insert) == Ok(w2)
            && Next(w2, cert) == Ok(w2.(certificates := w.certificates[k := Item(map[cv := cb], cv, Some(policy), None)]))
  {
    assert w.keys[k := Item(map[kv := kb], kv, None, Some(x))] - {k} == w.keys;
  }

  // The key is stored and read, then deleted and purged.
  function KeyComesAndGoes(k: Key, x: Deletion): seq<Event> {
    [Advance(0)] + [Advance(0)] + [Other(OnItem(Keys, k, SoftDelete(x)))] + [Other(OnItem(Keys, k, Purge))]
  }

  lemma AfterKeyIsGone(tools: Tools, w: World, k: Key, d: Draw, a: Wanted, x: Deletion, cer: string, inner: Set)
    requires k.vault in w.vaults && k !in w.secrets && k !in w.keys && k !in w.certificates
    requires d.pair.Some? && tools.issue(d.pair.value.0, d.pair.value.1) == Some(cer)
    requires inner == SetRequests.SetCall(k, d.secretVersion, PemBody(tools.masterKey, tools.encode(cer), d), SetRequests.Checking)
    ensures Run(tools, System(w, [CreateCall(k, d, a, MakingKey)]), KeyComesAndGoes(k, x)) ==
            System(w, [CreateCall(k, d, a, Setting(inner, cer))])
  {
    var call, kb := CreateCall(k, d, a, MakingKey), KeyBody(tools.masterKey, d);
    var gone, purge := OnItem(Keys, k, SoftDelete(x)), OnItem(Keys, k, Purge);
    var w1 := w.(keys := w.keys[k := Item(map[d.keyVersion := kb], d.keyVersion, None, None)]);
    RunFour(tools, System(w, [call]), Advance(0), Advance(0), Other(gone), Other(purge));
    FreshWrites(w, k, d.keyVersion, kb, "", kb, "", kb, "", x);
    OneCall(tools, w, call);
    SignsWithStoredKey(tools, w1, call.(phase := ReadingKey));
  }

  lemma SignsWithStoredKey(tools: Tools, w: World, call: CreateCall)
    requires call.phase.ReadingKey? && call.d.pair.Some? && tools.issue(call.d.pair.value.0, call.d.pair.value.1).Some?
    requires call.key in w.keys && call.d.keyVersion in w.keys[call.key].versions
    requires w.keys[call.key].versions[call.d.keyVersion] == KeyBody(tools.masterKey, call.d)
    ensures var cer := tools.issue(call.d.pair.value.0, call.d.pair.value.1).value;
            var body := PemBody(tools.masterKey, tools.encode(cer), call.d);
            var inner := SetRequests.SetCall(call.key, call.d.secretVersion, body, SetRequests.Checking);
            NextSystem(tools, System(w, [call]), Advance(0)) == System(w, [call.(phase := Setting(inner, cer))])
  {
    OneCall(tools, w, call);
  }

  lemma RunFour(tools: Tools, s: System, e1: Event, e2: Event, e3: Event, e4: Event)
    ensures Run(tools, s, [e1] + [e2] + [e3] + [e4]) ==
            NextSystem(tools, NextSystem(tools, NextSystem(tools, NextSystem(tools, s, e1), e2), e3), e4)
  {
    RunStep(tools, s, [], e1);
    RunStep(tools, s, [e1], e2);
    RunStep(tools, s, [e1] + [e2], e3);
    RunStep(tools, s, [e1] + [e2] + [e3], e4);
    assert [] + [e1] == [e1];
  }

  // The three steps left: the check and the insert of the secret, the certificate.
  lemma FreshSetting(tools: Tools, w: World, call: CreateCall, x: Deletion)
    requires var k := call.key; k.vault in w.vaults && k !in w.secrets && k !in w.keys && k !in w.certificates
    requires call.phase.Setting? && call.phase.call.phase.Checking? && call.phase.call.key == call.key
    ensures var s, cb := System(w, [call]), CertBody(call.phase.cer, call.d.keyVersion, call.d, call.a);
            var end := NextSystem(tools, NextSystem(tools, NextSystem(tools, s, Advance(0)), Advance(0)), Advance(0));
            && end.calls[0].phase == Returned(true) && call.key !in end.world.keys
            && GetCurrent(end.world.certificates, call.key) == Some((call.d.certVersion, cb))
            && GetCurrent(end.world.secrets, call.key) == Some((call.phase.call.version, call.phase.call.body))
  {
    var k, inner, cer := call.key, call.phase.call, call.phase.cer;
    var cb := CertBody(cer, call.d.keyVersion, call.d, call.a);
    FreshWrites(w, k, "", cb, inner.version, inner.body, call.d.certVersion, cb, call.a.policy, x);
    OneCall(tools, w, call);
    OneCall(tools, w, call.(phase := Setting(inner.(phase := SetRequests.Inserting), cer)));
    OneCall(tools, w.(secrets := w.secrets[k := Item(map[inner.version := inner.body], inner.version, None, None)]),
            call.(phase := StoringCert(cer)));
  }

  /** The key may be deleted and purged once it was read: the Create still succeeds, and the current
      certificate names a key version that no longer exists. */
  lemma KeyMayVanish(tools: Tools, w: World, k: Key, d: Draw, a: Wanted, x: Deletion)
    requires k.vault in w.vaults && k !in w.secrets && k !in w.keys && k !in w.certificates
    requires d.pair.Some? && tools.issue(d.pair.value.0, d.pair.value.1).Some?
    ensures var events := KeyComesAndGoes(k, x) + [Advance(0)] + [Advance(0)] + [Advance(0)];
            var end := Run(tools, System(w, [CreateCall(k, d, a, MakingKey)]), events);
            var cer, read := tools.issue(d.pair.value.0, d.pair.value.1).value, ReadCert(end.world, k);
            && end.calls[0].phase == Returned(true) && k !in end.world.keys
            && read.Some? && read.value.cer == cer && read.value.backingKey == d.keyVersion
            && SecretBehind(end.world, tools.masterKey, k, read.value.backingSecret, tools.encode(cer), d.secretAt)
  {
    var me, s, first := Advance(0), System(w, [CreateCall(k, d, a, MakingKey)]), KeyComesAndGoes(k, x);
    var cer := tools.issue(d.pair.value.0, d.pair.value.1).value;
    var inner := SetRequests.SetCall(k, d.secretVersion, PemBody(tools.masterKey, tools.encode(cer), d), SetRequests.Checking);
    AfterKeyIsGone(tools, w, k, d, a, x, cer, inner);
    RunStep(tools, s, first, me);
    RunStep(tools, s, first + [me], me);
    RunStep(tools, s, first + [me] + [me], me);
    FreshSetting(tools, w, CreateCall(k, d, a, Setting(inner, cer)), x);
    var end := Run(tools, s, first + [me] + [me] + [me]);
    CertReads(end.world, k, cer, d.keyVersion, d, a);
    SecretReads(end.world, tools.masterKey, k, tools.encode(cer), d);
  }

  lemma OneCall(tools: Tools, w: World, call: CreateCall)
    ensures NextSystem(tools, System(w, [call]), Advance(0)) ==
            System(if Write(tools, call).Some? then Step(w, Write(tools, call).value) else w,
                   [call.(phase := NextPhase(tools, call, w))])
  {
  }
}
