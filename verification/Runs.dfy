// Facts about whole runs: any sequence of committed or refused steps, from any valid state,
// whatever requests they come from and however those requests interleave.
module Runs {
  import opened Wrappers
  import opened Catalog
  import opened Worlds

  function Exec(w: World, ops: seq<Op>): World {
    if ops == [] then w else Step(Exec(w, ops[..|ops| - 1]), ops[|ops| - 1])
  }

  /** The state before step `i`. */
  function StateAt(w: World, ops: seq<Op>, i: nat): World
    requires i <= |ops|
  {
    Exec(w, ops[..i])
  }

  ghost predicate WellFormedRun(ops: seq<Op>) {
    forall i :: 0 <= i < |ops| ==> WellFormed(ops[i])
  }

  predicate Commits(w: World, ops: seq<Op>, i: nat)
    requires i < |ops|
  {
    Next(StateAt(w, ops, i), ops[i]).Ok?
  }

  lemma StateInPrefix(w: World, ops: seq<Op>, i: nat)
    requires i < |ops|
    ensures StateAt(w, ops[..|ops| - 1], i) == StateAt(w, ops, i)
    ensures i < |ops| - 1 ==> (Commits(w, ops[..|ops| - 1], i) <==> Commits(w, ops, i))
  {
    assert ops[..|ops| - 1][..i] == ops[..i];
  }

  // The run less its last step passes through the same states.
  lemma StatesOfPrefix(w: World, ops: seq<Op>)
    requires ops != []
    ensures var pre := ops[..|ops| - 1];
            && StateAt(w, ops, |ops|) == Step(Exec(w, pre), ops[|ops| - 1])
            && forall i :: 0 <= i <= |pre| ==> StateAt(w, pre, i) == StateAt(w, ops, i)
  {
    assert ops[..|ops|] == ops;
    var pre := ops[..|ops| - 1];
    forall i | 0 <= i <= |pre|
      ensures StateAt(w, pre, i) == StateAt(w, ops, i)
    {
      assert pre[..i] == ops[..i];
    }
  }

  /** Every reachable state is valid. */
  lemma {:induction false} RunKeepsValid(w: World, ops: seq<Op>)
    requires Valid(w) && WellFormedRun(ops)
    ensures Valid(Exec(w, ops))
    decreases |ops|
  {
    if ops != [] {
      RunKeepsValid(w, ops[..|ops| - 1]);
      StepKeepsValid(Exec(w, ops[..|ops| - 1]), ops[|ops| - 1]);
    }
  }

  /** Said out in full: in every state reached from the empty database no row names a vault that is
      not there, every item has its current version, every version is of the kind of its table,
      and no two vaults share a name or a host. */
  lemma ReachableIsWhole(ops: seq<Op>)
    requires WellFormedRun(ops)
    ensures var w := Exec(EMPTY, ops);
            && (forall kind, k :: k in w.Items(kind) ==>
                  k.vault in w.vaults && w.Items(kind)[k].current in w.Items(kind)[k].versions)
            && (forall k, v :: k in w.secrets && v in w.secrets[k].versions ==> w.secrets[k].versions[v].payload.SecretPayload?)
            && (forall k, v :: k in w.keys && v in w.keys[k].versions ==> w.keys[k].versions[v].payload.KeyPayload?)
            && (forall k, v :: k in w.certificates && v in w.certificates[k].versions ==>
                  w.certificates[k].versions[v].payload.CertPayload?)
            && (forall n :: n in w.contacts ==> n in w.vaults)
            && (forall k :: k in w.issuers ==> k.vault in w.vaults)
            && (forall m, n :: m in w.vaults && n in w.vaults && m != n ==>
                  w.vaults[m].host != w.vaults[n].host && w.vaults[m].name != w.vaults[n].name)
  {
    EmptyIsValid();
    RunKeepsValid(EMPTY, ops);
    var w := Exec(EMPTY, ops);
    assert CatalogValid(Secrets, w.Items(Secrets), w.vaults.Keys) && w.Items(Secrets) == w.secrets;
    assert CatalogValid(Keys, w.Items(Keys), w.vaults.Keys) && w.Items(Keys) == w.keys;
    assert CatalogValid(Certificates, w.Items(Certificates), w.vaults.Keys) && w.Items(Certificates) == w.certificates;
  }

  lemma EmptyIsValid()
    ensures Valid(EMPTY)
  {
  }

  // ---- versions are immutable and only destroyed with a soft-deleted item ----

  /** What a PATCH leaves alone: the value, the key material or the certificate. */
  function Content(p: Payload): Payload {
    if p.SecretPayload? then p.(contentType := None, tags := None) else p
  }

  lemma ContentIs(p: Payload, q: Payload)
    ensures Content(p) == Content(q) <==>
            if p.SecretPayload? && q.SecretPayload? then p.sealed == q.sealed else p == q
  {
  }

  ghost predicate VersionsKept(before: Item, after: Item) {
    forall v :: v in before.versions ==>
                  && v in after.versions
                  && Content(after.versions[v].payload) == Content(before.versions[v].payload)
                  && after.versions[v].created == before.versions[v].created
  }

  /** The step destroys the item: an explicit purge, or a sweep that is due. */
  predicate Destroys(w: World, op: Op, kind: Kind, k: Key) {
    && Deleted(w.Items(kind), k)
    && (op == OnItem(kind, k, Purge) || (op.SweepItems? && op.kind == kind && Due(w.Items(kind)[k], op.now)))
  }

  lemma StepOnItem(w: World, op: Op, kind: Kind, k: Key)
    requires k in w.Items(kind)
    ensures Destroys(w, op, kind, k) <==> k !in Step(w, op).Items(kind)
    ensures k in Step(w, op).Items(kind) ==> VersionsKept(w.Items(kind)[k], Step(w, op).Items(kind)[k])
  {
    StepAt(w, op, kind, k);
  }

  /** In any run, the versions of an item survive with their content and creation time, unless
      some step destroys the item, and then the item is soft-deleted at that very moment. */
  lemma {:induction false} VersionsSurvive(w: World, ops: seq<Op>, kind: Kind, k: Key)
    requires k in w.Items(kind)
    ensures || (k in Exec(w, ops).Items(kind) && VersionsKept(w.Items(kind)[k], Exec(w, ops).Items(kind)[k]))
            || exists i :: 0 <= i < |ops| && Destroys(StateAt(w, ops, i), ops[i], kind, k)
    decreases |ops|
  {
    if ops != [] {
      var pre := ops[..|ops| - 1];
      VersionsSurvive(w, pre, kind, k);
      StatesOfPrefix(w, ops);
      if i :| 0 <= i < |pre| && Destroys(StateAt(w, pre, i), pre[i], kind, k) {
        assert Destroys(StateAt(w, ops, i), ops[i], kind, k);
      } else {
        StepOnItem(Exec(w, pre), ops[|ops| - 1], kind, k);
        assert StateAt(w, ops, |ops| - 1) == Exec(w, pre);
      }
    }
  }

  // ---- what a soft delete hides ----

  /** Nothing of the item can be read: not its current version, not a named one, not its name. */
  ghost predicate Hidden(c: Catalog, k: Key) {
    GetCurrent(c, k).None? && (forall v :: GetVersion(c, k, v).None?) && k.name !in ActiveNames(c, k.vault)
  }

  ghost predicate SameReads(c1: Catalog, c2: Catalog, k: Key) {
    && GetCurrent(c1, k) == GetCurrent(c2, k)
    && (forall v :: GetVersion(c1, k, v) == GetVersion(c2, k, v))
    && (k.name in ActiveNames(c1, k.vault) <==> k.name in ActiveNames(c2, k.vault))
  }

  /** An item is read exactly while it carries no deletion: its current version is then found, and
      of the named ones exactly those it has; otherwise nothing of it is. */
  lemma ReadsFindUndeleted(w: World, kind: Kind, k: Key)
    requires Valid(w)
    ensures var c := w.Items(kind);
            if k in c && c[k].deletion == None then
              && c[k].current in c[k].versions
              && GetCurrent(c, k) == Some((c[k].current, c[k].versions[c[k].current]))
              && (forall v :: GetVersion(c, k, v) == if v in c[k].versions then Some(c[k].versions[v]) else None)
              && k.name in ActiveNames(c, k.vault)
            else Hidden(c, k)
  {
    assert CatalogValid(kind, w.Items(kind), w.vaults.Keys);
    if k.name in ActiveNames(w.Items(kind), k.vault) {
      var j :| j in w.Items(kind) && j.vault == k.vault && w.Items(kind)[j].deletion.None? && j.name == k.name;
      assert j == k;
    }
  }

  predicate Revives(op: Op, kind: Kind, k: Key) {
    op.OnItem? && op.kind == kind && op.key == k && (op.change.Recover? || op.change.Upsert?)
  }

  lemma {:induction false} StaysHidden(w: World, ops: seq<Op>, kind: Kind, k: Key)
    requires !(k in w.Items(kind) && w.Items(kind)[k].deletion == None)
    requires forall i :: 0 <= i < |ops| && Revives(ops[i], kind, k) ==> !Commits(w, ops, i)
    ensures !(k in Exec(w, ops).Items(kind) && Exec(w, ops).Items(kind)[k].deletion == None)
    decreases |ops|
  {
    if ops != [] {
      var pre, last := ops[..|ops| - 1], |ops| - 1;
      forall i | 0 <= i < |pre| && Revives(pre[i], kind, k) ensures !Commits(w, pre, i) {
        StateInPrefix(w, ops, i);
      }
      StaysHidden(w, pre, kind, k);
      StatesOfPrefix(w, ops);
      assert StateAt(w, ops, last) == Exec(w, pre);
      StepRevives(Exec(w, pre), ops[last], kind, k);
    }
  }

  lemma StepRevives(w: World, op: Op, kind: Kind, k: Key)
    requires !(k in w.Items(kind) && w.Items(kind)[k].deletion == None)
    requires Revives(op, kind, k) ==> Next(w, op).Err?
    ensures !(k in Step(w, op).Items(kind) && Step(w, op).Items(kind)[k].deletion == None)
  {
    StepAt(w, op, kind, k);
  }

  /** From a committed soft delete on, through any run, nothing of the item is read, until a recover
      or a new Upsert of that very item commits. */
  lemma DeletedIsNotFound(w: World, kind: Kind, k: Key, d: Deletion, ops: seq<Op>)
    requires Valid(w) && WellFormed(OnItem(kind, k, SoftDelete(d))) && WellFormedRun(ops)
    requires Next(w, OnItem(kind, k, SoftDelete(d))).Ok?
    requires var w1 := Step(w, OnItem(kind, k, SoftDelete(d)));
             forall i :: 0 <= i < |ops| && Revives(ops[i], kind, k) ==> !Commits(w1, ops, i)
    ensures Hidden(Exec(Step(w, OnItem(kind, k, SoftDelete(d))), ops).Items(kind), k)
  {
    var w1 := Step(w, OnItem(kind, k, SoftDelete(d)));
    StepAt(w, OnItem(kind, k, SoftDelete(d)), kind, k);
    StaysHidden(w1, ops, kind, k);
    StepKeepsValid(w, OnItem(kind, k, SoftDelete(d)));
    RunKeepsValid(w1, ops);
    ReadsFindUndeleted(Exec(w1, ops), kind, k);
  }

  /** A recover brings back every answer of before the delete, whatever ran in between, unless the
      item was purged or recovered before. */
  lemma RecoverBringsBack(w: World, kind: Kind, k: Key, d: Deletion, ops: seq<Op>)
    requires k in w.Items(kind) && w.Items(kind)[k].deletion == None
    requires forall i :: 0 <= i < |ops| ==> ops[i] != OnItem(kind, k, Purge) && ops[i] != OnItem(kind, k, Recover)
    requires forall i :: 0 <= i < |ops| && ops[i].SweepItems? ==> ops[i].now < d.scheduled
    ensures var recovered := Step(Exec(Step(w, OnItem(kind, k, SoftDelete(d))), ops), OnItem(kind, k, Recover));
            At(recovered.Items(kind), k) == At(w.Items(kind), k) && SameReads(w.Items(kind), recovered.Items(kind), k)
  {
    var w1 := Step(w, OnItem(kind, k, SoftDelete(d)));
    Marks(w, kind, k, d);
    KeptWhileNoSweepIsDue(w1, ops, kind, k);
    Clears(Exec(w1, ops), kind, k);
    SameItemSameReads(w.Items(kind), Step(Exec(w1, ops), OnItem(kind, k, Recover)).Items(kind), k);
  }

  lemma Marks(w: World, kind: Kind, k: Key, d: Deletion)
    requires Active(w.Items(kind), k)
    ensures At(Step(w, OnItem(kind, k, SoftDelete(d))).Items(kind), k) == Some(w.Items(kind)[k].(deletion := Some(d)))
  {
    StepAt(w, OnItem(kind, k, SoftDelete(d)), kind, k);
  }

  lemma Clears(w: World, kind: Kind, k: Key)
    requires Deleted(w.Items(kind), k)
    ensures At(Step(w, OnItem(kind, k, Recover)).Items(kind), k) == Some(w.Items(kind)[k].(deletion := None))
  {
    StepAt(w, OnItem(kind, k, Recover), kind, k);
  }

  lemma SameItemSameReads(c1: Catalog, c2: Catalog, k: Key)
    requires At(c1, k) == At(c2, k)
    ensures SameReads(c1, c2, k)
  {
    SameItemListed(c1, c2, k);
    SameItemListed(c2, c1, k);
  }

  lemma SameItemListed(c1: Catalog, c2: Catalog, k: Key)
    requires At(c1, k) == At(c2, k)
    ensures k.name in ActiveNames(c1, k.vault) ==> k.name in ActiveNames(c2, k.vault)
  {
    if k.name in ActiveNames(c1, k.vault) {
      var j :| j in c1 && j.vault == k.vault && c1[j].deletion.None? && j.name == k.name;
      assert j == k && k in c2;
    }
  }

  // ---- policies ----

  /** The policy of an item is the last one written to it: a policy update or an Upsert that commits
      sets the one it carries, and no other step changes it while the item is there. */
  lemma PolicyIsLastWritten(w: World, op: Op, kind: Kind, k: Key)
    requires k in w.Items(kind) && k in Step(w, op).Items(kind)
    ensures Step(w, op).Items(kind)[k].policy ==
            if op.OnItem? && op.kind == kind && op.key == k && Next(w, op).Ok? && op.change.SetPolicy? then Some(op.change.json)
            else if op.OnItem? && op.kind == kind && op.key == k && Next(w, op).Ok? && op.change.Upsert? then op.change.policy
            else w.Items(kind)[k].policy
  {
    StepAt(w, op, kind, k);
  }

  // ---- the current version is the last one put ----

  predicate IsUpsertOf(op: Op, kind: Kind, k: Key) {
    op.OnItem? && op.kind == kind && op.key == k && op.change.Upsert?
  }

  /** Step `i` is the last Upsert of the item that committed, and the item stayed from then on. */
  ghost predicate LastUpsertAt(w: World, ops: seq<Op>, i: nat, kind: Kind, k: Key) {
    && i < |ops| && IsUpsertOf(ops[i], kind, k) && Commits(w, ops, i)
    && NoneSince(w, ops, i, kind, k) && StaysFrom(w, ops, i, kind, k)
  }

  ghost predicate NoneSince(w: World, ops: seq<Op>, i: nat, kind: Kind, k: Key) {
    forall j :: i < j < |ops| && IsUpsertOf(ops[j], kind, k) ==> !Commits(w, ops, j)
  }

  ghost predicate StaysFrom(w: World, ops: seq<Op>, i: nat, kind: Kind, k: Key) {
    forall j :: i < j <= |ops| ==> k in StateAt(w, ops, j).Items(kind)
  }

  lemma UpsertCommits(w: World, op: Op, kind: Kind, k: Key)
    requires IsUpsertOf(op, kind, k)
    ensures var after := Step(w, op).Items(kind);
            Next(w, op).Ok? ==> k in after && after[k].current == op.change.version
                                && op.change.version in after[k].versions
                                && after[k].versions[op.change.version] == op.change.body
  {
  }

  lemma OtherStepsKeepCurrent(w: World, op: Op, kind: Kind, k: Key)
    requires k in w.Items(kind) && k in Step(w, op).Items(kind)
    requires !IsUpsertOf(op, kind, k) || Next(w, op).Err?
    ensures Step(w, op).Items(kind)[k].current == w.Items(kind)[k].current
    ensures Step(w, op).Items(kind)[k].versions.Keys == w.Items(kind)[k].versions.Keys
  {
    StepAt(w, op, kind, k);
  }

  lemma OnlyUpsertCreates(w: World, op: Op, kind: Kind, k: Key)
    requires k !in w.Items(kind) && k in Step(w, op).Items(kind)
    ensures IsUpsertOf(op, kind, k) && Next(w, op).Ok?
  {
    StepAt(w, op, kind, k);
  }

  lemma LastUpsertExtends(w: World, ops: seq<Op>, i: nat, kind: Kind, k: Key)
    requires ops != [] && LastUpsertAt(w, ops[..|ops| - 1], i, kind, k)
    requires k in Exec(w, ops).Items(kind)
    requires !IsUpsertOf(ops[|ops| - 1], kind, k) || !Commits(w, ops, |ops| - 1)
    ensures LastUpsertAt(w, ops, i, kind, k)
  {
    StateInPrefix(w, ops, i);
    assert Commits(w, ops, i);
    assert NoneSince(w, ops, i, kind, k) by { NoneSinceExtends(w, ops, i, kind, k); }
    assert StaysFrom(w, ops, i, kind, k) by { StaysExtends(w, ops, i, kind, k); }
  }

  lemma NoneSinceExtends(w: World, ops: seq<Op>, i: nat, kind: Kind, k: Key)
    requires ops != [] && NoneSince(w, ops[..|ops| - 1], i, kind, k)
    requires !IsUpsertOf(ops[|ops| - 1], kind, k) || !Commits(w, ops, |ops| - 1)
    ensures NoneSince(w, ops, i, kind, k)
  {
    forall j | i < j < |ops| && IsUpsertOf(ops[j], kind, k)
      ensures !Commits(w, ops, j)
    {
      StateInPrefix(w, ops, j);
    }
  }

  lemma StaysExtends(w: World, ops: seq<Op>, i: nat, kind: Kind, k: Key)
    requires ops != [] && k in Exec(w, ops).Items(kind)
    requires StaysFrom(w, ops[..|ops| - 1], i, kind, k)
    ensures StaysFrom(w, ops, i, kind, k)
  {
    forall j | i < j <= |ops|
      ensures k in StateAt(w, ops, j).Items(kind)
    {
      if j < |ops| {
        StateInPrefix(w, ops, j);
        assert k in StateAt(w, ops[..|ops| - 1], j).Items(kind);
      } else {
        assert ops[..j] == ops;
      }
    }
  }

  /** GetCurrent after a run returns what the last committed Upsert since the item was created
      stored, with its content and creation time unchanged. */
  lemma {:induction false} CurrentIsLastUpsert(w: World, ops: seq<Op>, kind: Kind, k: Key)
    requires k !in w.Items(kind) && k in Exec(w, ops).Items(kind)
    ensures exists i: nat :: LastUpsertAt(w, ops, i, kind, k) && HoldsUpsert(Exec(w, ops).Items(kind)[k], ops[i])
    decreases |ops|
  {
    var last := |ops| - 1;
    var pre := ops[..last];
    var before := Exec(w, pre);
    var op := ops[last];
    StatesOfPrefix(w, ops);
    assert StateAt(w, ops, last) == before;
    if IsUpsertOf(op, kind, k) && Next(before, op).Ok? {
      UpsertCommits(before, op, kind, k);
      assert LastUpsertAt(w, ops, last, kind, k) by { assert Commits(w, ops, last); }
    } else {
      if k !in before.Items(kind) {
        OnlyUpsertCreates(before, op, kind, k);
      }
      CurrentIsLastUpsert(w, pre, kind, k);
      var i: nat :| LastUpsertAt(w, pre, i, kind, k) && HoldsUpsert(before.Items(kind)[k], pre[i]);
      LastUpsertExtends(w, ops, i, kind, k);
      OtherStepsKeepCurrent(before, op, kind, k);
      StepOnItem(before, op, kind, k);
      assert pre[i] == ops[i];
    }
  }

  predicate HoldsUpsert(item: Item, op: Op) {
    && op.OnItem? && op.change.Upsert?
    && item.current == op.change.version && item.current in item.versions
    && Content(item.versions[item.current].payload) == Content(op.change.body.payload)
    && item.versions[item.current].created == op.change.body.created
  }

  // ---- scheduled purge ----

  /** When a step happened, for the steps that read the clock. */
  function TimeOf(op: Op): Option<int> {
    match op
    case OnItem(_, _, Upsert(_, body, _)) => Some(body.updated)
    case OnItem(_, _, PatchVersion(_, patch)) => Some(patch.updated)
    case OnItem(_, _, SoftDelete(d)) => Some(d.at)
    case SweepItems(_, now) => Some(now)
    case RenameVault(_, _, now) => Some(now)
    case _ => None
  }

  /** No step happened after `now`, as when the clock never goes back. */
  ghost predicate ClockUpTo(ops: seq<Op>, now: int) {
    forall i :: 0 <= i < |ops| && TimeOf(ops[i]).Some? ==> TimeOf(ops[i]).value <= now
  }

  lemma StepKeepsDeleted(w: World, op: Op, kind: Kind, k: Key)
    requires Deleted(w.Items(kind), k)
    requires op != OnItem(kind, k, Purge) && op != OnItem(kind, k, Recover)
    requires op.SweepItems? ==> op.now < w.Items(kind)[k].deletion.value.scheduled
    ensures k in Step(w, op).Items(kind) && Step(w, op).Items(kind)[k] == w.Items(kind)[k]
  {
    StepAt(w, op, kind, k);
  }

  /** A soft-deleted item that nobody purges or recovers by name stays exactly as it is while
      the clock is short of its scheduled date, and can be recovered whole. (A Set on the name of
      a secret is one that purges by name.) */
  lemma KeptUntilScheduled(w: World, ops: seq<Op>, kind: Kind, k: Key, now: int)
    requires Deleted(w.Items(kind), k)
    requires forall i :: 0 <= i < |ops| ==> ops[i] != OnItem(kind, k, Purge) && ops[i] != OnItem(kind, k, Recover)
    requires ClockUpTo(ops, now) && now < w.Items(kind)[k].deletion.value.scheduled
    ensures k in Exec(w, ops).Items(kind) && Exec(w, ops).Items(kind)[k] == w.Items(kind)[k]
    ensures Active(Step(Exec(w, ops), OnItem(kind, k, Recover)).Items(kind), k)
    ensures Step(Exec(w, ops), OnItem(kind, k, Recover)).Items(kind)[k] == w.Items(kind)[k].(deletion := None)
  {
    forall i | 0 <= i < |ops| && ops[i].SweepItems?
      ensures ops[i].now < w.Items(kind)[k].deletion.value.scheduled
    {
      assert TimeOf(ops[i]).Some?;
    }
    KeptWhileNoSweepIsDue(w, ops, kind, k);
  }

  lemma {:induction false} KeptWhileNoSweepIsDue(w: World, ops: seq<Op>, kind: Kind, k: Key)
    requires Deleted(w.Items(kind), k)
    requires forall i :: 0 <= i < |ops| ==> ops[i] != OnItem(kind, k, Purge) && ops[i] != OnItem(kind, k, Recover)
    requires forall i :: 0 <= i < |ops| && ops[i].SweepItems? ==> ops[i].now < w.Items(kind)[k].deletion.value.scheduled
    ensures k in Exec(w, ops).Items(kind) && Exec(w, ops).Items(kind)[k] == w.Items(kind)[k]
    decreases |ops|
  {
    if ops != [] {
      var pre := ops[..|ops| - 1];
      KeptWhileNoSweepIsDue(w, pre, kind, k);
      StepKeepsDeleted(Exec(w, pre), ops[|ops| - 1], kind, k);
    }
  }

  /** runAutoPurge at time `now`: a statement for each of the three tables. */
  function AutoPurge(now: int): seq<Op> {
    [SweepItems(Secrets, now), SweepItems(Keys, now), SweepItems(Certificates, now)]
  }

  /** It takes exactly the soft-deleted items scheduled at or before `now`: active and recovered items,
      and those scheduled later, are untouched. */
  lemma AutoPurgeIsExact(w: World, now: int)
    ensures var w' := Exec(w, AutoPurge(now));
            && w' == w.(secrets := w'.secrets, keys := w'.keys, certificates := w'.certificates)
            && forall kind, k ::
                 At(w'.Items(kind), k) ==
                 if k in w.Items(kind) && w.Items(kind)[k].deletion.Some? && w.Items(kind)[k].deletion.value.scheduled <= now
                 then None else At(w.Items(kind), k)
  {
    AutoPurgeSteps(w, now);
  }

  lemma AutoPurgeSteps(w: World, now: int)
    ensures Exec(w, AutoPurge(now)) ==
            w.(secrets := Sweep(w.secrets, now), keys := Sweep(w.keys, now), certificates := Sweep(w.certificates, now))
  {
    var a, b, c := SweepItems(Secrets, now), SweepItems(Keys, now), SweepItems(Certificates, now);
    assert AutoPurge(now)[..2] == [a, b] && [a, b][..1] == [a] && [a][..0] == [];
    var w1 := w.(secrets := Sweep(w.secrets, now));
    var w2 := w1.(keys := Sweep(w.keys, now));
    assert Exec(w, [a]) == Step(w, a) == w1;
    assert Exec(w, [a, b]) == Step(w1, b) == w2;
    assert Exec(w, AutoPurge(now)) == Step(w2, c);
  }

  // ---- vaults do not interfere ----

  function Found<K, V>(m: map<K, V>, k: K): Option<V> {
    if k in m then Some(m[k]) else None
  }

  ghost predicate SameItems(w1: World, w2: World, vault: string) {
    forall kind, k: Key :: k.vault == vault ==> At(w1.Items(kind), k) == At(w2.Items(kind), k)
  }

  ghost predicate SameRest(w1: World, w2: World, vault: string) {
    && Found(w1.vaults, vault) == Found(w2.vaults, vault)
    && Found(w1.contacts, vault) == Found(w2.contacts, vault)
    && forall k: Key :: k.vault == vault ==> Found(w1.issuers, k) == Found(w2.issuers, k)
  }

  /** The two states look the same from inside the vault: its own record, its items of every kind,
      its contacts and its issuers. */
  ghost predicate SameSlice(w1: World, w2: World, vault: string) {
    SameItems(w1, w2, vault) && SameRest(w1, w2, vault)
  }

  /** Every other vault looks as it did. */
  ghost predicate OnlyTouches(before: World, after: World, vault: string) {
    forall other :: other != vault ==> SameSlice(before, after, other)
  }

  /** The steps of one vault's requests, its own creation and removal included, and the sweeps,
      which act on all vaults. */
  predicate Concerns(op: Op, vault: string) {
    match op
    case OnItem(_, k, _) => k.vault == vault
    case SweepItems(_, _) => true
    case AddVault(v) => v.name == vault
    case RenameVault(n, _, _) => n == vault
    case RemoveVault(n) => n == vault
    case SetContacts(n, _) => n == vault
    case DropContacts(n) => n == vault
    case SetIssuer(k, _) => k.vault == vault
    case DropIssuer(k) => k.vault == vault
  }

  function OnlyVault(ops: seq<Op>, vault: string): seq<Op> {
    if ops == [] then []
    else
      var pre, op := OnlyVault(ops[..|ops| - 1], vault), ops[|ops| - 1];
      if Concerns(op, vault) then pre + [op] else pre
  }

  /** No other vault stands under `host`. Hosts built from names are like that. */
  ghost predicate HostApart(w: World, vault: string, host: string) {
    forall n :: n in w.vaults && w.vaults[n].host == host ==> n == vault
  }

  /** Creating the vault gives it `host`, and creating another gives another. */
  predicate KeepsApart(op: Op, vault: string, host: string) {
    op.AddVault? ==> (op.vault.name == vault <==> op.vault.host == host)
  }

  lemma StepKeepsApart(w: World, op: Op, vault: string, host: string)
    requires HostApart(w, vault, host) && KeepsApart(op, vault, host)
    ensures HostApart(Step(w, op), vault, host)
  {
    if op.OnItem? || op.SweepItems? {
      ItemStepKeepsRest(w, op);
    }
  }

  lemma ItemStepKeepsRest(w: World, op: Op)
    requires op.OnItem? || op.SweepItems?
    ensures var w' := Step(w, op); w'.vaults == w.vaults && w'.contacts == w.contacts && w'.issuers == w.issuers
  {
    if op.OnItem? {
      var c := w.Items(op.kind);
      var slot := NextItem(At(c, op.key), op.change);
      if slot.Ok? { WithKeepsRest(w, op.kind, Put(c, op.key, slot.value)); }
    } else {
      WithKeepsRest(w, op.kind, Sweep(w.Items(op.kind), op.now));
    }
  }

  lemma ReferencedInVault(w1: World, w2: World, vault: string)
    requires SameSlice(w1, w2, vault)
    ensures Referenced(w1, vault) ==> Referenced(w2, vault)
  {
    forall kind, k | k in w1.Items(kind) && k.vault == vault
      ensures HoldsItems(w2.Items(kind), vault)
    {
      assert At(w1.Items(kind), k) == At(w2.Items(kind), k);
    }
    assert w1.Items(Secrets) == w1.secrets && w1.Items(Keys) == w1.keys && w1.Items(Certificates) == w1.certificates;
    assert w2.Items(Secrets) == w2.secrets && w2.Items(Keys) == w2.keys && w2.Items(Certificates) == w2.certificates;
    if k :| k in w1.issuers && k.vault == vault {
      assert Found(w1.issuers, k) == Found(w2.issuers, k);
    }
  }

  /** A request of the vault is granted or refused, with the same error, by what the vault sees. */
  lemma OutcomeInVault(w1: World, w2: World, op: Op, vault: string, host: string)
    requires SameSlice(w1, w2, vault) && Concerns(op, vault)
    requires HostApart(w1, vault, host) && HostApart(w2, vault, host) && KeepsApart(op, vault, host)
    ensures SameAnswer(w1, w2, op)
  {
    match op
    case OnItem(kind, k, _) => assert At(w1.Items(kind), k) == At(w2.Items(kind), k);
    case AddVault(v) => assert HostTaken(w1, v.host) ==> vault in w1.vaults;
    case RemoveVault(_) => ReferencedInVault(w1, w2, vault); ReferencedInVault(w2, w1, vault);
    case DropIssuer(k) => assert Found(w1.issuers, k) == Found(w2.issuers, k);
    case _ =>
  }

  ghost predicate SameAnswer(w1: World, w2: World, op: Op) {
    match Next(w1, op)
    case Ok(_) => Next(w2, op).Ok?
    case Err(e) => Next(w2, op) == Err(e)
  }

  lemma ItemsInVault(w1: World, w2: World, op: Op, vault: string)
    requires SameSlice(w1, w2, vault)
    ensures SameItems(Step(w1, op), Step(w2, op), vault)
  {
    var s1, s2 := Step(w1, op), Step(w2, op);
    forall kind, k: Key | k.vault == vault
      ensures At(s1.Items(kind), k) == At(s2.Items(kind), k)
    {
      StepAt(w1, op, kind, k);
      StepAt(w2, op, kind, k);
      assert At(w1.Items(kind), k) == At(w2.Items(kind), k);
    }
  }

  lemma StepInVault(w1: World, w2: World, op: Op, vault: string, host: string)
    requires SameSlice(w1, w2, vault) && Concerns(op, vault)
    requires HostApart(w1, vault, host) && HostApart(w2, vault, host) && KeepsApart(op, vault, host)
    ensures SameSlice(Step(w1, op), Step(w2, op), vault)
  {
    OutcomeInVault(w1, w2, op, vault, host);
    ItemsInVault(w1, w2, op, vault);
    if op.OnItem? || op.SweepItems? {
      ItemStepKeepsRest(w1, op);
      ItemStepKeepsRest(w2, op);
    }
    RestInVault(w1, w2, op, vault);
  }

  lemma RestInVault(w1: World, w2: World, op: Op, vault: string)
    requires SameRest(w1, w2, vault) && SameAnswer(w1, w2, op) && Concerns(op, vault)
    ensures SameRest(Step(w1, op), Step(w2, op), vault)
  {
    if op.OnItem? || op.SweepItems? {
      ItemStepKeepsRest(w1, op);
      ItemStepKeepsRest(w2, op);
    }
  }

  lemma StepOutsideVault(w: World, op: Op, vault: string)
    requires !Concerns(op, vault)
    ensures SameSlice(w, Step(w, op), vault)
  {
    if op.OnItem? {
      ItemStepKeepsRest(w, op);
    }
    forall kind, k: Key | k.vault == vault
      ensures At(w.Items(kind), k) == At(Step(w, op).Items(kind), k)
    {
      StepAt(w, op, kind, k);
    }
  }

  lemma {:induction false} RunKeepsApart(w: World, ops: seq<Op>, vault: string, host: string)
    requires HostApart(w, vault, host) && forall op :: op in ops ==> KeepsApart(op, vault, host)
    ensures HostApart(Exec(w, ops), vault, host)
    decreases |ops|
  {
    if ops != [] {
      RunKeepsApart(w, ops[..|ops| - 1], vault, host);
      StepKeepsApart(Exec(w, ops[..|ops| - 1]), ops[|ops| - 1], vault, host);
    }
  }

  lemma {:induction false} OnlyVaultIsPart(ops: seq<Op>, vault: string)
    ensures forall op :: op in OnlyVault(ops, vault) ==> op in ops
    decreases |ops|
  {
    if ops != [] {
      OnlyVaultIsPart(ops[..|ops| - 1], vault);
    }
  }

  /** In any run at all, a vault is left as if only its own requests and the sweeps had run, and its
      next request is answered as if nothing else ever had: the vaults share nothing but the clock
      and the claim to a host. */
  lemma {:induction false} Noninterference(w: World, ops: seq<Op>, vault: string, host: string)
    requires HostApart(w, vault, host) && forall op :: op in ops ==> KeepsApart(op, vault, host)
    ensures SameSlice(Exec(w, ops), Exec(w, OnlyVault(ops, vault)), vault)
    ensures forall op :: Concerns(op, vault) && KeepsApart(op, vault, host) ==>
                           SameAnswer(Exec(w, ops), Exec(w, OnlyVault(ops, vault)), op)
    decreases |ops|
  {
    var kept := OnlyVault(ops, vault);
    if ops != [] {
      var pre, op := ops[..|ops| - 1], ops[|ops| - 1];
      Noninterference(w, pre, vault, host);
      if Concerns(op, vault) {
        var before := OnlyVault(pre, vault);
        OnlyVaultIsPart(pre, vault);
        RunKeepsApart(w, pre, vault, host);
        RunKeepsApart(w, before, vault, host);
        StepInVault(Exec(w, pre), Exec(w, before), op, vault, host);
        assert kept == before + [op] && kept[..|before|] == before;
      } else {
        StepOutsideVault(Exec(w, pre), op, vault);
      }
    }
    OnlyVaultIsPart(ops, vault);
    RunKeepsApart(w, ops, vault, host);
    RunKeepsApart(w, kept, vault, host);
    forall op | Concerns(op, vault) && KeepsApart(op, vault, host)
      ensures SameAnswer(Exec(w, ops), Exec(w, kept), op)
    {
      OutcomeInVault(Exec(w, ops), Exec(w, kept), op, vault, host);
    }
  }

  /** What a vault's readers see, by name, by version and in listings, depends on its slice only. */
  lemma ReadsStayInVault(w1: World, w2: World, vault: string)
    requires SameSlice(w1, w2, vault)
    ensures forall kind :: ActiveNames(w1.Items(kind), vault) == ActiveNames(w2.Items(kind), vault)
    ensures forall kind, k: Key :: k.vault == vault ==> GetCurrent(w1.Items(kind), k) == GetCurrent(w2.Items(kind), k)
    ensures forall kind, k: Key, v :: k.vault == vault ==> GetVersion(w1.Items(kind), k, v) == GetVersion(w2.Items(kind), k, v)
  {
    forall kind, k: Key | k.vault == vault
      ensures GetCurrent(w1.Items(kind), k) == GetCurrent(w2.Items(kind), k)
      ensures forall v :: GetVersion(w1.Items(kind), k, v) == GetVersion(w2.Items(kind), k, v)
    {
      assert At(w1.Items(kind), k) == At(w2.Items(kind), k);
    }
    forall kind
      ensures ActiveNames(w1.Items(kind), vault) == ActiveNames(w2.Items(kind), vault)
    {
      SliceNames(w1, w2, kind, vault);
      SliceNames(w2, w1, kind, vault);
    }
  }

  lemma SliceNames(w1: World, w2: World, kind: Kind, vault: string)
    requires SameSlice(w1, w2, vault)
    ensures ActiveNames(w1.Items(kind), vault) <= ActiveNames(w2.Items(kind), vault)
  {
    forall n | n in ActiveNames(w1.Items(kind), vault)
      ensures n in ActiveNames(w2.Items(kind), vault)
    {
      var k :| k in w1.Items(kind) && k.vault == vault && w1.Items(kind)[k].deletion.None? && k.name == n;
      assert At(w1.Items(kind), k) == At(w2.Items(kind), k);
      assert k in w2.Items(kind);
    }
  }
}
