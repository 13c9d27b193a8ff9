// The pool of one connection that every repository call shares. A statement or a transaction
// holds the connection from Acquire to Release; an Acquire waits until nobody holds it.
module ConnectionPool {
  import opened Wrappers

  datatype Act = Acquire | Release

  type Program = seq<Act>

  /** What is left of each request, and which of them holds the connection. */
  datatype Pool = Pool(rest: seq<Program>, holder: Option<nat>)

  predicate Enabled(p: Pool, i: nat) {
    && i < |p.rest| && p.rest[i] != []
    && match p.rest[i][0]
       case Acquire => p.holder.None?
       case Release => p.holder == Some(i)
  }

  function Next(p: Pool, i: nat): Pool
    requires Enabled(p, i)
  {
    Pool(p.rest[i := p.rest[i][1..]], if p.rest[i][0].Acquire? then Some(i) else None)
  }

  /** Some interleaving: each entry names the request that moves. */
  predicate Runs(p: Pool, schedule: seq<nat>)
    decreases |schedule|
  {
    schedule == [] || (Enabled(p, schedule[0]) && Runs(Next(p, schedule[0]), schedule[1..]))
  }

  function After(p: Pool, schedule: seq<nat>): Pool
    requires Runs(p, schedule)
    decreases |schedule|
  {
    if schedule == [] then p else After(Next(p, schedule[0]), schedule[1..])
  }

  predicate Finished(p: Pool) { forall i :: 0 <= i < |p.rest| ==> p.rest[i] == [] }

  /** Requests remain and none of them can ever move again. */
  ghost predicate Stuck(p: Pool) { !Finished(p) && forall i: nat :: !Enabled(p, i) }

  /** No interleaving leads to a stuck state. */
  ghost predicate NeverSticks(p: Pool) {
    forall schedule | Runs(p, schedule) :: !Stuck(After(p, schedule))
  }

  function Started(programs: seq<Program>): Pool { Pool(programs, None) }

  // ---- what a request may ask for ----

  /** Acquires and Releases match. */
  predicate Bracketed(prog: Program, depth: nat) {
    if prog == [] then depth == 0
    else if prog[0].Acquire? then Bracketed(prog[1..], depth + 1)
    else depth > 0 && Bracketed(prog[1..], depth - 1)
  }

  /** Never asks for a second connection while it holds one. */
  predicate Alternates(prog: Program, holding: bool) {
    if prog == [] then !holding
    else (prog[0].Acquire? <==> !holding) && Alternates(prog[1..], !holding)
  }

  predicate AllAlternate(p: Pool) {
    forall i :: 0 <= i < |p.rest| ==> Alternates(p.rest[i], p.holder == Some(i))
  }

  function Total(programs: seq<Program>): nat {
    if programs == [] then 0 else |programs[0]| + Total(programs[1..])
  }

  lemma {:induction false} TotalFalls(programs: seq<Program>, i: nat)
    requires i < |programs| && programs[i] != []
    ensures Total(programs[i := programs[i][1..]]) == Total(programs) - 1
  {
    var after := programs[i := programs[i][1..]];
    if i > 0 {
      TotalFalls(programs[1..], i - 1);
      assert after[1..] == programs[1..][i - 1 := programs[i][1..]];
    } else {
      assert after[1..] == programs[1..];
    }
  }

  lemma {:induction false} TotalOfFinished(programs: seq<Program>)
    ensures Total(programs) == 0 <==> forall i :: 0 <= i < |programs| ==> programs[i] == []
  {
    if programs != [] {
      TotalOfFinished(programs[1..]);
      assert forall i :: 0 < i < |programs| ==> programs[i] == programs[1..][i - 1];
    }
  }

  lemma StepKeepsAlternation(p: Pool, i: nat)
    requires AllAlternate(p) && Enabled(p, i)
    ensures AllAlternate(Next(p, i))
  {
  }

  /** The holder can always release, and with no holder anybody can acquire. */
  lemma Progress(p: Pool)
    requires AllAlternate(p)
    requires p.holder.Some? ==> p.holder.value < |p.rest|
    ensures !Stuck(p)
  {
    if !Finished(p) {
      if p.holder.Some? {
        assert Alternates(p.rest[p.holder.value], p.holder == Some(p.holder.value));
        assert Enabled(p, p.holder.value);
      } else {
        var i: nat :| i < |p.rest| && p.rest[i] != [];
        assert Alternates(p.rest[i], p.holder == Some(i));
        assert Enabled(p, i);
      }
    }
  }

  /** Whatever the interleaving, no state is stuck, and the work left is what was not yet done:
      every run ends, with every request finished, after exactly Total steps. */
  lemma {:induction false} AlternatingRunsFinish(p: Pool, schedule: seq<nat>)
    requires AllAlternate(p) && Runs(p, schedule)
    requires p.holder.Some? ==> p.holder.value < |p.rest|
    ensures !Stuck(After(p, schedule))
    ensures |schedule| + Total(After(p, schedule).rest) == Total(p.rest)
    ensures Finished(After(p, schedule)) <==> |schedule| == Total(p.rest)
    decreases |schedule|
  {
    if schedule == [] {
      Progress(p);
      TotalOfFinished(p.rest);
    } else {
      StepKeepsAlternation(p, schedule[0]);
      TotalFalls(p.rest, schedule[0]);
      AlternatingRunsFinish(Next(p, schedule[0]), schedule[1..]);
    }
  }

  /** A request that waits for a second connection while it holds the only one blocks everybody,
      itself included. */
  lemma HeldForever(p: Pool, i: nat)
    requires i < |p.rest| && p.holder == Some(i) && p.rest[i] != [] && p.rest[i][0].Acquire?
    ensures Stuck(p)
  {
  }

  /** Left alone, a request that nests runs into its own connection. */
  lemma {:induction false} NestingSticks(p: Pool, i: nat) returns (schedule: seq<nat>)
    requires i < |p.rest|
    requires p.holder.None? || p.holder == Some(i)
    requires Bracketed(p.rest[i], if p.holder.None? then 0 else 1)
    requires !Alternates(p.rest[i], p.holder == Some(i))
    ensures Runs(p, schedule) && Stuck(After(p, schedule))
    decreases |p.rest[i]|
  {
    if p.holder == Some(i) && p.rest[i][0].Acquire? {
      HeldForever(p, i);
      return [];
    }
    assert Enabled(p, i);
    var later := NestingSticks(Next(p, i), i);
    schedule := [i] + later;
    assert schedule[1..] == later;
  }

  /** The pool is safe for a mix of matched requests exactly when none of them nests. */
  lemma SafeIffNoneNests(programs: seq<Program>)
    requires forall i :: 0 <= i < |programs| ==> Bracketed(programs[i], 0)
    ensures NeverSticks(Started(programs)) <==> forall i :: 0 <= i < |programs| ==> Alternates(programs[i], false)
  {
    var p := Started(programs);
    if forall i :: 0 <= i < |programs| ==> Alternates(programs[i], false) {
      forall schedule | Runs(p, schedule) ensures !Stuck(After(p, schedule)) {
        AlternatingRunsFinish(p, schedule);
      }
    } else {
      var i :| 0 <= i < |programs| && !Alternates(programs[i], false);
      var schedule := NestingSticks(p, i);
      assert Stuck(After(p, schedule));
    }
  }

  // ---- the repositories' calls ----

  datatype Call =
    | Statement                          // Exec, or QueryRow with its Scan; a listing read to its end
    | ThenAgain                          // a transaction or row, then a row read on its own: SoftDelete, Recover, GetDeleted
    | ListVersions(empty: bool)          // an empty listing counts the item once its rows are closed
    | ListDeleted(rows: nat)             // reads each row's current version while the listing is open

  function Once(): Program { [Acquire, Release] }

  function Repeated(n: nat): Program {
    if n == 0 then [] else Once() + Repeated(n - 1)
  }

  function Acts(c: Call): Program {
    match c
    case Statement => Once()
    case ThenAgain => Once() + Once()
    case ListVersions(empty) => if empty then Once() + Once() else Once()
    case ListDeleted(rows) => [Acquire] + Repeated(rows) + [Release]
  }

  /** A request makes its calls one after the other. */
  function Request(calls: seq<Call>): Program {
    if calls == [] then [] else Acts(calls[0]) + Request(calls[1..])
  }

  predicate Nests(c: Call) { c.ListDeleted? && c.rows > 0 }

  lemma {:induction false} BracketedConcat(a: Program, b: Program, inner: nat, depth: nat)
    requires Bracketed(a, inner) && Bracketed(b, depth)
    ensures Bracketed(a + b, inner + depth)
  {
    if a == [] {
      assert a + b == b;
    } else {
      assert (a + b)[1..] == a[1..] + b;
      BracketedConcat(a[1..], b, if a[0].Acquire? then inner + 1 else inner - 1, depth);
    }
  }

  lemma {:induction false} AlternatesConcat(a: Program, b: Program, holding: bool)
    requires Alternates(a, holding)
    ensures Alternates(a + b, holding) <==> Alternates(b, false)
  {
    if a == [] {
      assert a + b == b;
    } else {
      assert (a + b)[1..] == a[1..] + b;
      AlternatesConcat(a[1..], b, !holding);
    }
  }

  lemma {:induction false} RepeatedBracketed(n: nat)
    ensures Bracketed(Repeated(n), 0)
  {
    if n > 0 {
      RepeatedBracketed(n - 1);
      assert Bracketed(Once(), 0) by { OnceAlternates(); }
      BracketedConcat(Once(), Repeated(n - 1), 0, 0);
    }
  }

  lemma OnceAlternates()
    ensures Alternates(Once(), false) && Bracketed(Once(), 0)
  {
  }

  lemma ActsBracketed(c: Call)
    ensures Bracketed(Acts(c), 0)
  {
    OnceAlternates();
    match c
    case ListDeleted(rows) =>
      RepeatedBracketed(rows);
      assert [Release][1..] == [];
      assert Bracketed([Release], 1);
      BracketedConcat(Repeated(rows), [Release], 0, 1);
      assert Acts(c)[1..] == Repeated(rows) + [Release];
    case _ => BracketedConcat(Once(), Once(), 0, 0);
  }

  /** ListDeleted with a row to show is the one call that asks while holding. */
  lemma ActsAlternate(c: Call)
    ensures Alternates(Acts(c), false) <==> !Nests(c)
    ensures Nests(c) ==> |Acts(c)| >= 2 && Acts(c)[0].Acquire? && Acts(c)[1].Acquire?
  {
    OnceAlternates();
    match c
    case ListDeleted(rows) =>
      if rows == 0 {
        assert Acts(c) == Once();
      } else {
        assert Acts(c)[1] == Repeated(rows)[0] == Acquire;
        assert Acts(c)[1..][0] == Acquire;
      }
    case _ => AlternatesConcat(Once(), Once(), false);
  }

  lemma {:induction false} RequestAlternates(calls: seq<Call>)
    ensures Bracketed(Request(calls), 0)
    ensures Alternates(Request(calls), false) <==> forall c :: c in calls ==> !Nests(c)
  {
    if calls != [] {
      var first, others := Acts(calls[0]), Request(calls[1..]);
      RequestAlternates(calls[1..]);
      ActsBracketed(calls[0]);
      BracketedConcat(first, others, 0, 0);
      ActsAlternate(calls[0]);
      if Nests(calls[0]) {
        assert (first + others)[0] == Acquire && (first + others)[1..][0] == Acquire;
        assert calls[0] in calls;
      } else {
        AlternatesConcat(first, others, false);
        assert forall c :: c in calls <==> c == calls[0] || c in calls[1..];
      }
    }
  }

  /** Any number of concurrent requests, interleaved in any way, can always make progress
      exactly when none of them lists deleted items that exist. */
  lemma SafeIffNoDeletedListing(requests: seq<seq<Call>>)
    ensures var p := Started(seq(|requests|, i requires 0 <= i < |requests| => Request(requests[i])));
            NeverSticks(p) <==> forall i, c :: 0 <= i < |requests| && c in requests[i] ==> !Nests(c)
  {
    var programs := seq(|requests|, i requires 0 <= i < |requests| => Request(requests[i]));
    forall i | 0 <= i < |programs|
      ensures Bracketed(programs[i], 0)
      ensures Alternates(programs[i], false) <==> forall c :: c in requests[i] ==> !Nests(c)
    {
      RequestAlternates(requests[i]);
    }
    SafeIffNoneNests(programs);
  }
}
