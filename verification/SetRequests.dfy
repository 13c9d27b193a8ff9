// SecretService.Set is three database steps: look whether the name is soft-deleted, purge it,
// insert the new version. Any number of such calls run at once, their steps interleaved with
// each other and with the steps of any other request.
module SetRequests {
  import opened Wrappers
  import opened Catalog
  import opened Worlds
  import opened Runs

  datatype Phase = Checking | Purging | Inserting | Returned(result: Result<string, Error>)

  datatype SetCall = SetCall(key: Key, version: string, body: Body, phase: Phase)

  datatype System = System(world: World, calls: seq<SetCall>)

  datatype Event = Advance(call: nat) | Other(op: Op)

  /** The write a call makes next, if its next step is one. */
  function Write(call: SetCall): Option<Op> {
    match call.phase
    case Purging => Some(OnItem(Secrets, call.key, Purge))
    case Inserting => Some(OnItem(Secrets, call.key, Upsert(call.version, call.body, None)))
    case _ => None
  }

  function NextPhase(call: SetCall, w: World): Phase {
    match call.phase
    case Checking => if Deleted(w.secrets, call.key) then Purging else Inserting
    case Purging =>
      (match Next(w, OnItem(Secrets, call.key, Purge))
       case Ok(_) => Inserting
       case Err(e) => Returned(Err(e)))
    case Inserting =>
      (match Next(w, OnItem(Secrets, call.key, Upsert(call.version, call.body, None)))
       case Ok(_) => Returned(Ok(call.version))
       case Err(e) => Returned(Err(e)))
    case Returned(_) => call.phase
  }

  /** The database step an event takes, if any. */
  function OpOf(s: System, e: Event): Option<Op> {
    match e
    case Other(op) => Some(op)
    case Advance(i) => if i < |s.calls| then Write(s.calls[i]) else None
  }

  function NextSystem(s: System, e: Event): (s': System)
    ensures |s'.calls| == |s.calls|
  {
    var op := OpOf(s, e);
    var w := if op.Some? then Step(s.world, op.value) else s.world;
    if e.Advance? && e.call < |s.calls| then
      var call := s.calls[e.call];
      System(w, s.calls[e.call := call.(phase := NextPhase(call, s.world))])
    else System(w, s.calls)
  }

  function Run(s: System, events: seq<Event>): (s': System)
    ensures |s'.calls| == |s.calls|
  {
    if events == [] then s else NextSystem(Run(s, events[..|events| - 1]), events[|events| - 1])
  }

  function SystemAt(s: System, events: seq<Event>, i: nat): System
    requires i <= |events|
  {
    Run(s, events[..i])
  }

  // ---- an interleaving is a run of database steps ----

  function Trace(s: System, events: seq<Event>): seq<Op> {
    if events == [] then []
    else
      var pre := events[..|events| - 1];
      var op := OpOf(Run(s, pre), events[|events| - 1]);
      if op.Some? then Trace(s, pre) + [op.value] else Trace(s, pre)
  }

  /** So everything proved of runs holds of interleaved requests. */
  lemma {:induction false} InterleavingIsRun(s: System, events: seq<Event>)
    ensures Run(s, events).world == Exec(s.world, Trace(s, events))
    decreases |events|
  {
    if events != [] {
      var pre := events[..|events| - 1];
      InterleavingIsRun(s, pre);
      var op := OpOf(Run(s, pre), events[|events| - 1]);
      if op.Some? {
        assert (Trace(s, pre) + [op.value])[..|Trace(s, pre)|] == Trace(s, pre);
      }
    }
  }

  // ---- what one step of a Set can do ----

  /** The purge inside a Set never touches an active item, its own or another. If someone else
      recovered or purged the item since the check, it affects no row and the call reports that. */
  lemma PurgeSparesActive(s: System, i: nat, kind: Kind, k: Key)
    requires i < |s.calls| && s.calls[i].phase.Purging?
    ensures var s' := NextSystem(s, Advance(i));
            && (Active(s.world.Items(kind), k) ==>
                  k in s'.world.Items(kind) && s'.world.Items(kind)[k] == s.world.Items(kind)[k])
            && (Deleted(s.world.secrets, s.calls[i].key) <==> s'.calls[i].phase == Inserting)
            && (!Deleted(s.world.secrets, s.calls[i].key) ==>
                  s'.world == s.world && s'.calls[i].phase == Returned(Err(NotFound)))
  {
  }

  /** No step of any Set, whichever phase it is in, loses a version of an item that is active
      when the step runs, and the item stays active. */
  lemma SetStepSparesActive(s: System, i: nat, kind: Kind, k: Key)
    requires Active(s.world.Items(kind), k)
    ensures var after := NextSystem(s, Advance(i)).world.Items(kind);
            Active(after, k) && VersionsKept(s.world.Items(kind)[k], after[k])
  {
    var op := OpOf(s, Advance(i));
    if op.Some? {
      OtherStepSparesActive(s.world, op.value, kind, k);
    }
  }

  predicate SoftDeletes(op: Op, kind: Kind, k: Key) {
    op.OnItem? && op.kind == kind && op.key == k && op.change.SoftDelete?
  }

  lemma OtherStepSparesActive(w: World, op: Op, kind: Kind, k: Key)
    requires Active(w.Items(kind), k) && !SoftDeletes(op, kind, k)
    ensures Active(Step(w, op).Items(kind), k) && VersionsKept(w.Items(kind)[k], Step(w, op).Items(kind)[k])
  {
    StepAt(w, op, kind, k);
  }

  /** In every interleaving of any number of Sets with anything else, recovers, explicit purges and
      sweeps of the same name included, an active item stays active and keeps every version with
      its content, as long as nobody soft-deletes it. */
  lemma {:induction false} OnlySoftDeleteEndangers(s: System, events: seq<Event>, kind: Kind, k: Key)
    requires Active(s.world.Items(kind), k)
    requires forall i :: 0 <= i < |events| && events[i].Other? ==> !SoftDeletes(events[i].op, kind, k)
    ensures var after := Run(s, events).world.Items(kind);
            Active(after, k) && VersionsKept(s.world.Items(kind)[k], after[k])
    decreases |events|
  {
    if events != [] {
      var pre, e := events[..|events| - 1], events[|events| - 1];
      OnlySoftDeleteEndangers(s, pre, kind, k);
      var op := OpOf(Run(s, pre), e);
      if op.Some? {
        OtherStepSparesActive(Run(s, pre).world, op.value, kind, k);
      }
    }
  }

  // ---- a call that succeeds, a call that fails ----

  lemma CallStep(s: System, e: Event, i: nat)
    requires i < |s.calls|
    ensures var s' := NextSystem(s, e);
            s'.calls[i] == (if e == Advance(i) then s.calls[i].(phase := NextPhase(s.calls[i], s.world)) else s.calls[i])
  {
  }

  ghost predicate StoredAt(s: System, events: seq<Event>, i: nat, j: nat) {
    && i < |s.calls| && j < |events| && events[j] == Advance(i)
    && GetCurrent(SystemAt(s, events, j + 1).world.secrets, s.calls[i].key) == Some((s.calls[i].version, s.calls[i].body))
  }

  lemma StoredEarlier(s: System, events: seq<Event>, i: nat, j: nat)
    requires events != [] && StoredAt(s, events[..|events| - 1], i, j)
    ensures StoredAt(s, events, i, j)
  {
    assert events[..|events| - 1][..j + 1] == events[..j + 1];
  }

  /** A Set that reports success committed its version as the current one, at one of its own steps. */
  lemma {:induction false} SuccessWasStored(s: System, events: seq<Event>, i: nat)
    requires i < |s.calls| && s.calls[i].phase.Checking?
    ensures Run(s, events).calls[i].(phase := Checking) == s.calls[i]
    ensures var r := Run(s, events).calls[i].phase;
            r.Returned? && r.result.Ok? ==> r.result.value == s.calls[i].version && exists j: nat :: StoredAt(s, events, i, j)
    decreases |events|
  {
    if events != [] {
      var pre, e := events[..|events| - 1], events[|events| - 1];
      var before := Run(s, pre);
      SuccessWasStored(s, pre, i);
      CallStep(before, e, i);
      if before.calls[i].phase.Returned? && before.calls[i].phase.result.Ok? {
        var j: nat :| StoredAt(s, pre, i, j);
        StoredEarlier(s, events, i, j);
      } else if e == Advance(i) && before.calls[i].phase.Inserting? {
        var call := before.calls[i];
        InsertStores(before.world, call.key, call.version, call.body);
        assert events[..|events|] == events;
        assert SystemAt(s, events, |events|) == NextSystem(before, e);
        if NextPhase(call, before.world).result.Ok? {
          assert StoredAt(s, events, i, |pre|);
        }
      }
    }
  }

  lemma InsertStores(w: World, k: Key, version: string, body: Body)
    ensures var op := OnItem(Secrets, k, Upsert(version, body, None));
            Next(w, op).Ok? ==> GetCurrent(Step(w, op).secrets, k) == Some((version, body))
  {
  }

  // ---- exactly which steps of others make a call fail ----

  /** The step after `j` of the events is `op`, whoever's. */
  predicate Took(s: System, events: seq<Event>, j: nat, op: Op) {
    j < |events| && OpOf(SystemAt(s, events, j), events[j]) == Some(op)
  }

  predicate Undeletes(w: World, op: Op, k: Key) {
    Deleted(w.secrets, k) && (op == OnItem(Secrets, k, Recover) || Destroys(w, op, Secrets, k))
  }

  lemma StepUndeletes(w: World, op: Op, k: Key)
    requires Deleted(w.secrets, k)
    ensures Deleted(Step(w, op).secrets, k) <==> !Undeletes(w, op, k)
  {
    assert w.Items(Secrets) == w.secrets && Step(w, op).Items(Secrets) == Step(w, op).secrets;
    StepAt(w, op, Secrets, k);
  }

  ghost predicate Undeleted(s: System, events: seq<Event>, j: nat, k: Key) {
    exists op :: Took(s, events, j, op) && Undeletes(SystemAt(s, events, j).world, op, k)
  }

  // What happened in the run less its last event happened in the run.
  lemma TookInPrefix(s: System, events: seq<Event>, j: nat)
    requires events != [] && j < |events| - 1
    ensures SystemAt(s, events[..|events| - 1], j) == SystemAt(s, events, j)
    ensures forall op :: Took(s, events[..|events| - 1], j, op) <==> Took(s, events, j, op)
  {
    assert events[..|events| - 1][..j] == events[..j];
  }

  lemma {:induction false} SomeoneUndeleted(s: System, events: seq<Event>, k: Key)
    requires Deleted(s.world.secrets, k) && !Deleted(Run(s, events).world.secrets, k)
    ensures exists j: nat :: Undeleted(s, events, j, k)
    decreases |events|
  {
    var pre, last := events[..|events| - 1], |events| - 1;
    if Deleted(Run(s, pre).world.secrets, k) {
      var op := OpOf(Run(s, pre), events[last]);
      if op.Some? {
        StepUndeletes(Run(s, pre).world, op.value, k);
        assert Took(s, events, last, op.value);
        assert Undeleted(s, events, last, k);
      }
    } else {
      SomeoneUndeleted(s, pre, k);
      var j: nat :| Undeleted(s, pre, j, k);
      TookInPrefix(s, events, j);
      assert Undeleted(s, events, j, k);
    }
  }

  /** A call is told NotFound by its purge only if, since its check, a step of another request
      recovered the item or removed it. */
  lemma FailedPurgeWasRaced(s: System, events: seq<Event>, i: nat)
    requires i < |s.calls| && s.calls[i].phase == Purging && Deleted(s.world.secrets, s.calls[i].key)
    requires forall j :: 0 <= j < |events| ==> events[j] != Advance(i)
    requires NextSystem(Run(s, events), Advance(i)).calls[i].phase.Returned?
    ensures exists j: nat :: Undeleted(s, events, j, s.calls[i].key)
  {
    CallWaits(s, events, i);
    SomeoneUndeleted(s, events, s.calls[i].key);
  }

  lemma {:induction false} CallWaits(s: System, events: seq<Event>, i: nat)
    requires i < |s.calls| && forall j :: 0 <= j < |events| ==> events[j] != Advance(i)
    ensures Run(s, events).calls[i] == s.calls[i]
    decreases |events|
  {
    if events != [] {
      var pre := events[..|events| - 1];
      CallWaits(s, pre, i);
      CallStep(Run(s, pre), events[|events| - 1], i);
    }
  }

  /** An insert of this version would commit. */
  predicate Insertable(w: World, k: Key, version: string) {
    && (k in w.secrets || k.vault in w.vaults)
    && !Deleted(w.secrets, k)
    && (k in w.secrets ==> version !in w.secrets[k].versions)
  }

  /** The steps that stand in its way. */
  predicate Blocks(op: Op, k: Key, version: string) {
    || SoftDeletes(op, Secrets, k)
    || (op.OnItem? && op.kind.Secrets? && op.key == k && op.change.Upsert? && op.change.version == version)
    || op == RemoveVault(k.vault)
  }

  lemma StepBlocks(w: World, op: Op, k: Key, version: string)
    requires Insertable(w, k, version) && !Blocks(op, k, version)
    ensures Insertable(Step(w, op), k, version)
  {
    assert w.Items(Secrets) == w.secrets && Step(w, op).Items(Secrets) == Step(w, op).secrets;
    StepAt(w, op, Secrets, k);
    if op.OnItem? || op.SweepItems? {
      ItemStepKeepsRest(w, op);
    }
  }

  ghost predicate Blocked(s: System, events: seq<Event>, j: nat, k: Key, version: string) {
    exists op :: Took(s, events, j, op) && Blocks(op, k, version)
                 && var w := SystemAt(s, events, j).world; Insertable(w, k, version) && !Insertable(Step(w, op), k, version)
  }

  lemma {:induction false} SomeoneBlocked(s: System, events: seq<Event>, k: Key, version: string)
    requires Insertable(s.world, k, version) && !Insertable(Run(s, events).world, k, version)
    ensures exists j: nat :: Blocked(s, events, j, k, version)
    decreases |events|
  {
    var pre, last := events[..|events| - 1], |events| - 1;
    if Insertable(Run(s, pre).world, k, version) {
      var op := OpOf(Run(s, pre), events[last]);
      if op.Some? {
        if !Blocks(op.value, k, version) { StepBlocks(Run(s, pre).world, op.value, k, version); }
        assert Took(s, events, last, op.value);
        assert Blocked(s, events, last, k, version);
      }
    } else {
      SomeoneBlocked(s, pre, k, version);
      var j: nat :| Blocked(s, pre, j, k, version);
      TookInPrefix(s, events, j);
      assert Blocked(s, events, j, k, version);
    }
  }

  /** The insert of a call fails exactly when the item cannot take the version at that moment; if
      it could when the call got there, a step of another request soft-deleted the item, took the
      version string or removed the vault. */
  lemma FailedInsertWasRaced(s: System, events: seq<Event>, i: nat)
    requires i < |s.calls| && s.calls[i].phase == Inserting
    requires forall j :: 0 <= j < |events| ==> events[j] != Advance(i)
    ensures var k, version, r := s.calls[i].key, s.calls[i].version, NextSystem(Run(s, events), Advance(i)).calls[i].phase;
            && r.Returned? && (r.result.Ok? <==> Insertable(Run(s, events).world, k, version))
            && (r.result.Err? && Insertable(s.world, k, version) ==> exists j: nat :: Blocked(s, events, j, k, version))
  {
    var k, version := s.calls[i].key, s.calls[i].version;
    CallWaits(s, events, i);
    if Insertable(s.world, k, version) && !Insertable(Run(s, events).world, k, version) {
      SomeoneBlocked(s, events, k, version);
    }
  }

  /** The event leaves the item and the existence of its vault as they are. */
  ghost predicate Quiet(s: System, e: Event, k: Key) {
    var w, w' := s.world, NextSystem(s, e).world;
    At(w'.secrets, k) == At(w.secrets, k) && (k.vault in w'.vaults <==> k.vault in w.vaults)
  }

  /** Where a call that will succeed stands. */
  predicate OnTrack(call: SetCall, w: World) {
    && call.key.vault in w.vaults
    && match call.phase
       case Checking => Active(w.secrets, call.key) ==> call.version !in w.secrets[call.key].versions
       case Purging => Deleted(w.secrets, call.key)
       case Inserting => Insertable(w, call.key, call.version)
       case Returned(r) => r.Ok?
  }

  lemma AdvanceStaysOnTrack(s: System, i: nat)
    requires i < |s.calls| && OnTrack(s.calls[i], s.world)
    ensures OnTrack(NextSystem(s, Advance(i)).calls[i], NextSystem(s, Advance(i)).world)
  {
    var call := s.calls[i];
    CallStep(s, Advance(i), i);
    if Write(call).Some? {
      ItemStepKeepsRest(s.world, Write(call).value);
      StepAt(s.world, Write(call).value, Secrets, call.key);
    }
  }

  /** A Set whose vault exists and whose version string is new to the item, if that is active,
      never fails while no other step touches that item or its vault, whatever else runs in
      between: each failure is owed to a race. */
  lemma {:induction false} UndisturbedSetSucceeds(s: System, events: seq<Event>, i: nat)
    requires i < |s.calls| && OnTrack(s.calls[i], s.world)
    requires forall j :: 0 <= j < |events| && events[j] != Advance(i) ==> Quiet(SystemAt(s, events, j), events[j], s.calls[i].key)
    ensures OnTrack(Run(s, events).calls[i], Run(s, events).world)
    ensures Run(s, events).calls[i].key == s.calls[i].key
    ensures Run(s, events).calls[i].phase.Returned? ==> Run(s, events).calls[i].phase.result.Ok?
    decreases |events|
  {
    if events != [] {
      var pre, e := events[..|events| - 1], events[|events| - 1];
      forall j | 0 <= j < |pre| && pre[j] != Advance(i)
        ensures Quiet(SystemAt(s, pre, j), pre[j], s.calls[i].key)
      {
        TookInPrefix(s, events, j);
      }
      UndisturbedSetSucceeds(s, pre, i);
      CallStep(Run(s, pre), e, i);
      if e == Advance(i) {
        AdvanceStaysOnTrack(Run(s, pre), i);
      } else {
        assert Quiet(SystemAt(s, events, |pre|), e, s.calls[i].key);
      }
    }
  }

  // ---- a call that nobody disturbs ----

  function Alone(w: World, k: Key, version: string, body: Body): (s: System)
    ensures |s.calls| == 1
  {
    var s := System(w, [SetCall(k, version, body, Checking)]);
    Run(s, [Advance(0), Advance(0), Advance(0)])
  }

  lemma AloneSteps(w: World, k: Key, version: string, body: Body)
    ensures var s0 := System(w, [SetCall(k, version, body, Checking)]);
            Alone(w, k, version, body) == NextSystem(NextSystem(NextSystem(s0, Advance(0)), Advance(0)), Advance(0))
  {
    var s0 := System(w, [SetCall(k, version, body, Checking)]);
    var a := Advance(0);
    assert [a, a, a][..2] == [a, a] && [a, a][..1] == [a] && [a][..0] == [];
    assert Run(s0, [a]) == NextSystem(s0, a);
    assert Run(s0, [a, a]) == NextSystem(NextSystem(s0, a), a);
  }

  /** What a Set by itself makes of its item: a soft-deleted one is replaced, an active one gains
      a version. */
  function SetResult(slot: Option<Item>, version: string, body: Body): Item {
    if slot.None? || slot.value.deletion.Some? then Item(map[version := body], version, None, None)
    else slot.value.(versions := slot.value.versions[version := body], current := version, policy := None)
  }

  /** A Set nobody disturbs succeeds exactly when its vault exists and its version string is new to
      the active item, and then changes its own item only. A soft-deleted name is no obstacle. */
  lemma SetAlone(w: World, k: Key, version: string, body: Body)
    requires Valid(w)
    ensures var after := Alone(w, k, version, body);
            var allowed := k.vault in w.vaults && (Active(w.secrets, k) ==> version !in w.secrets[k].versions);
            && after.calls[0].phase.Returned?
            && (after.calls[0].phase.result.Ok? <==> allowed) && (allowed ==> after.calls[0].phase.result == Ok(version))
            && after.world == if allowed then w.(secrets := w.secrets[k := SetResult(At(w.secrets, k), version, body)]) else w
  {
    AloneInserts(w, k, version, body);
    assert CatalogValid(Secrets, w.Items(Secrets), w.vaults.Keys);
    if Deleted(w.secrets, k) {
      InsertOutcome(w.(secrets := w.secrets - {k}), k, version, body);
      assert (w.secrets - {k})[k := SetResult(None, version, body)] == w.secrets[k := SetResult(None, version, body)];
    } else {
      InsertOutcome(w, k, version, body);
    }
  }

  // Alone, a call inserts into what its purge, if it needs one, leaves.
  lemma AloneInserts(w: World, k: Key, version: string, body: Body)
    ensures var start := if Deleted(w.secrets, k) then w.(secrets := w.secrets - {k}) else w;
            var call := SetCall(k, version, body, Inserting);
            Alone(w, k, version, body) == System(Step(start, Write(call).value), [call.(phase := NextPhase(call, start))])
  {
    AloneSteps(w, k, version, body);
    var call := SetCall(k, version, body, Checking);
    OneCall(w, call);
    if Deleted(w.secrets, k) {
      assert Step(w, OnItem(Secrets, k, Purge)) == w.(secrets := w.secrets - {k});
      OneCall(w, call.(phase := Purging));
      OneCall(w.(secrets := w.secrets - {k}), call.(phase := Inserting));
    } else {
      OneCall(w, call.(phase := Inserting));
    }
  }

  lemma OneCall(w: World, call: SetCall)
    ensures NextSystem(System(w, [call]), Advance(0)) ==
            System(if Write(call).Some? then Step(w, Write(call).value) else w, [call.(phase := NextPhase(call, w))])
  {
  }

  lemma InsertOutcome(w: World, k: Key, version: string, body: Body)
    requires !Deleted(w.secrets, k) && (k in w.secrets ==> k.vault in w.vaults)
    ensures var op := OnItem(Secrets, k, Upsert(version, body, None));
            var allowed := k.vault in w.vaults && (Active(w.secrets, k) ==> version !in w.secrets[k].versions);
            && (Next(w, op).Ok? <==> allowed)
            && Step(w, op) == if allowed then w.(secrets := w.secrets[k := SetResult(At(w.secrets, k), version, body)]) else w
  {
  }

  /** Two Sets of one soft-deleted secret that both check before either purges: the second purge
      finds nothing and that call fails, though each alone succeeds. */
  lemma ConcurrentSetsMayFail(w: World, k: Key, v0: string, v1: string, body: Body)
    requires Valid(w) && Deleted(w.secrets, k)
    ensures var s := System(w, [SetCall(k, v0, body, Checking), SetCall(k, v1, body, Checking)]);
            Run(s, [Advance(0), Advance(1), Advance(0), Advance(1)]).calls[1].phase == Returned(Err(NotFound))
    ensures Succeeds(Alone(w, k, v0, body)) && Succeeds(Alone(w, k, v1, body))
  {
    SecondPurgeFails(w, k, v0, v1, body);
    SucceedsAlone(w, k, v0, body);
    SucceedsAlone(w, k, v1, body);
  }

  lemma SecondPurgeFails(w: World, k: Key, v0: string, v1: string, body: Body)
    requires Deleted(w.secrets, k)
    ensures var s := System(w, [SetCall(k, v0, body, Checking), SetCall(k, v1, body, Checking)]);
            Run(s, [Advance(0), Advance(1), Advance(0), Advance(1)]).calls[1].phase == Returned(Err(NotFound))
  {
    var s := System(w, [SetCall(k, v0, body, Checking), SetCall(k, v1, body, Checking)]);
    var events := [Advance(0), Advance(1), Advance(0), Advance(1)];
    assert events[..3] == [Advance(0), Advance(1), Advance(0)];
    assert events[..3][..2] == [Advance(0), Advance(1)] && [Advance(0), Advance(1)][..1] == [Advance(0)];
    assert [Advance(0)][..0] == [];
    var s1 := NextSystem(s, Advance(0));
    var s2 := NextSystem(s1, Advance(1));
    var s3 := NextSystem(s2, Advance(0));
    assert Run(s, [Advance(0)]) == s1;
    assert Run(s, [Advance(0), Advance(1)]) == s2;
    assert Run(s, events[..3]) == s3;
    assert s2.calls[0].phase == Purging && s2.calls[1].phase == Purging;
    assert k !in s3.world.secrets && s3.calls[1].phase == Purging;
  }

  predicate Succeeds(s: System)
    requires s.calls != []
  {
    s.calls[0].phase.Returned? && s.calls[0].phase.result.Ok?
  }

  lemma SucceedsAlone(w: World, k: Key, version: string, body: Body)
    requires Valid(w) && k in w.secrets && (Active(w.secrets, k) ==> version !in w.secrets[k].versions)
    ensures Succeeds(Alone(w, k, version, body))
  {
    assert CatalogValid(Secrets, w.Items(Secrets), w.vaults.Keys) && w.Items(Secrets) == w.secrets;
    SetAlone(w, k, version, body);
  }

  /** A Set of an active secret that a soft delete overtakes after the check is refused, though a Set
      of a soft-deleted secret purges it, and this one succeeds both alone and after the delete. */
  lemma SetLosesToDelete(w: World, k: Key, version: string, body: Body, d: Deletion)
    requires Valid(w) && Active(w.secrets, k) && version !in w.secrets[k].versions
    ensures var s, delete := System(w, [SetCall(k, version, body, Checking)]), OnItem(Secrets, k, SoftDelete(d));
            && Run(s, [Advance(0), Other(delete), Advance(0)]).calls[0].phase == Returned(Err(UniqueViolation))
            && Succeeds(Alone(w, k, version, body))
            && (WellFormed(delete) ==> Succeeds(Alone(Step(w, delete), k, version, body)))
  {
    var delete := OnItem(Secrets, k, SoftDelete(d));
    InsertFindsDeleted(w, k, version, body, delete);
    SucceedsAlone(w, k, version, body);
    if WellFormed(delete) {
      StepKeepsValid(w, delete);
      SucceedsAlone(Step(w, delete), k, version, body);
    }
  }

  lemma InsertFindsDeleted(w: World, k: Key, version: string, body: Body, delete: Op)
    requires Active(w.secrets, k) && SoftDeletes(delete, Secrets, k)
    ensures Deleted(Step(w, delete).secrets, k)
    ensures var s := System(w, [SetCall(k, version, body, Checking)]);
            Run(s, [Advance(0), Other(delete), Advance(0)]).calls[0].phase == Returned(Err(UniqueViolation))
  {
    var s := System(w, [SetCall(k, version, body, Checking)]);
    var events := [Advance(0), Other(delete), Advance(0)];
    assert events[..2] == [Advance(0), Other(delete)] && [Advance(0), Other(delete)][..1] == [Advance(0)];
    assert [Advance(0)][..0] == [];
    var s1 := NextSystem(s, Advance(0));
    assert Run(s, [Advance(0)]) == s1 && s1.world == w && s1.calls[0].phase == Inserting;
    var s2 := NextSystem(s1, Other(delete));
    assert Run(s, [Advance(0), Other(delete)]) == s2 && Deleted(s2.world.secrets, k);
  }
}
