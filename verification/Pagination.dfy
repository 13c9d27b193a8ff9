// Listing a vault page by page: LIMIT/OFFSET over the names in order, a token that carries the
// next offset. Secrets, keys and certificates share the shape.
module Pagination {
  import opened Wrappers
  import opened Catalog
  import opened Worlds
  import opened Runs
  import opened Ordering
  import Decimal
  import SkipToken

  const MAX_PAGE: nat := 25

  function PageSize(max: int): (n: nat)
    ensures 1 <= n <= MAX_PAGE
  {
    if max <= 0 || max > MAX_PAGE then MAX_PAGE else max
  }

  /** A size within 1..25 is honoured, any other gives the largest page. */
  lemma PageSizes(max: int)
    ensures 1 <= max <= 25 ==> PageSize(max) == max
    ensures max < 1 || max > 25 ==> PageSize(max) == 25
  {
  }

  /** LIMIT ? OFFSET ?; SQLite reads a negative offset as 0. */
  function Window<T>(rows: seq<T>, limit: nat, offset: int): (r: seq<T>)
    ensures |r| <= limit
  {
    var lo := if offset < 0 then 0 else if offset > |rows| then |rows| else offset;
    var hi := if lo + limit > |rows| then |rows| else lo + limit;
    rows[lo..hi]
  }

  /** scanRows: read every row, keep a page, and issue a token when there was one row more. */
  method ScanRows<T>(rows: seq<T>, max: nat, offset: int) returns (list: seq<T>, next: string)
    ensures list == if |rows| > max then rows[..max] else rows
    ensures next == if |rows| > max then SkipToken.Encode(offset + max) else ""
  {
    list := [];
    for i := 0 to |rows|
      invariant list == rows[..i]
    {
      list := list + [rows[i]];
    }
    next := "";
    if |list| > max {
      list := list[..max];
      next := SkipToken.Encode(offset + max);
    }
  }

  /** A page of ordered rows and the token of the next one. */
  function Page<T>(rows: seq<T>, max: int, token: string): (seq<T>, string) {
    var size, offset := PageSize(max), SkipToken.Decode(token);
    var read := Window(rows, size + 1, offset);
    if |read| > size then (read[..size], SkipToken.Encode(offset + size)) else (read, "")
  }

  /** A token that reads as a negative offset starts at the first row, like no token at all. */
  lemma NegativeOffsetIsFirst<T>(rows: seq<T>, max: int, token: string)
    requires SkipToken.Decode(token) < 0
    ensures Page(rows, max, token).0 == Page(rows, max, "").0
  {
  }

  // ---- a client that follows the tokens while the store changes ----

  datatype Event = Change(op: Op) | Fetch(max: int)

  datatype Walk = Walk(world: World, token: string, done: bool, seen: seq<string>)

  function Listed(w: World, kind: Kind, vault: string): seq<string> {
    Sorted(ActiveNames(w.Items(kind), vault))
  }

  function NextWalk(s: Walk, kind: Kind, vault: string, e: Event): Walk {
    match e
    case Change(op) => s.(world := Step(s.world, op))
    case Fetch(max) =>
      if s.done then s
      else
        var (names, next) := Page(Listed(s.world, kind, vault), max, s.token);
        s.(token := next, done := next == "", seen := s.seen + names)
  }

  function Continue(s: Walk, kind: Kind, vault: string, events: seq<Event>): Walk {
    if events == [] then s
    else NextWalk(Continue(s, kind, vault, events[..|events| - 1]), kind, vault, events[|events| - 1])
  }

  function Start(w: World): Walk { Walk(w, "", false, []) }

  function Follow(w: World, kind: Kind, vault: string, events: seq<Event>): Walk {
    Continue(Start(w), kind, vault, events)
  }

  /** SQLite's rowids are 64-bit, so a listing never has more rows than an int can count. */
  ghost predicate Countable(w: World, kind: Kind, vault: string) {
    |ActiveNames(w.Items(kind), vault)| <= Decimal.MAX_INT
  }

  lemma NamesAt(c: Catalog, k: Key)
    ensures k.name in ActiveNames(c, k.vault) <==> Active(c, k)
  {
  }

  /** The only step that can make a name disappear from a listing is its soft delete. */
  predicate Hides(op: Op, kind: Kind, vault: string, name: string) {
    op.OnItem? && op.kind == kind && op.key == Key(vault, name) && op.change.SoftDelete?
  }

  lemma StaysListed(w: World, op: Op, kind: Kind, vault: string, name: string)
    requires name in ActiveNames(w.Items(kind), vault) && !Hides(op, kind, vault, name)
    ensures name in ActiveNames(Step(w, op).Items(kind), vault)
  {
    NamesAt(w.Items(kind), Key(vault, name));
    NamesAt(Step(w, op).Items(kind), Key(vault, name));
    StepAt(w, op, kind, Key(vault, name));
  }

  /** A change that cannot make the walk miss `x`: once `x` was returned, every change; before
      that, one that does not soft-delete `x`, nor an item already passed while `x` is the very next
      row to read. */
  ghost predicate Harmless(s: Walk, kind: Kind, vault: string, e: Event, x: string) {
    x in s.seen ||
    (e.Change? && e.op.OnItem? && Hides(e.op, kind, vault, e.op.key.name) ==>
       var y, names, offset := e.op.key.name, ActiveNames(s.world.Items(kind), vault), SkipToken.Decode(s.token);
       y != x && (y in names && Rank(names, y) < offset ==> Rank(names, x) != offset))
  }

  // `x` was seen, or the walk is still on its way to it.
  ghost predicate OnCourse(s: Walk, kind: Kind, vault: string, x: string) {
    || x in s.seen
    || (x in ActiveNames(s.world.Items(kind), vault)
        && !s.done && 0 <= SkipToken.Decode(s.token) <= Rank(ActiveNames(s.world.Items(kind), vault), x))
  }

  // The row at `rank`, not behind the token, is on the page or still ahead of the next token.
  lemma PageReaches(rows: seq<string>, max: int, token: string, rank: nat)
    requires rank < |rows| <= Decimal.MAX_INT && 0 <= SkipToken.Decode(token) <= rank
    ensures var (page, next) := Page(rows, max, token);
            rows[rank] in page || (next != "" && 0 <= SkipToken.Decode(next) <= rank)
  {
    var size, offset := PageSize(max), SkipToken.Decode(token);
    var (page, next) := Page(rows, max, token);
    if rank < offset + size {
      assert page[rank - offset] == rows[rank];
    } else {
      SkipToken.RoundTrip(offset + size);
    }
  }

  lemma FetchKeepsCourse(s: Walk, kind: Kind, vault: string, max: int, x: string)
    requires OnCourse(s, kind, vault, x) && Countable(s.world, kind, vault)
    ensures OnCourse(NextWalk(s, kind, vault, Fetch(max)), kind, vault, x)
  {
    if !s.done && x !in s.seen {
      var names := ActiveNames(s.world.Items(kind), vault);
      SortedAt(names, x);
      PageReaches(Sorted(names), max, s.token, Rank(names, x));
    }
  }

  /** The rank of a name falls by one when a name before it is soft-deleted, and by no other step. */
  lemma RankAfter(w: World, kind: Kind, vault: string, op: Op, x: string)
    requires x in ActiveNames(w.Items(kind), vault) && !Hides(op, kind, vault, x)
    ensures var before, after := ActiveNames(w.Items(kind), vault), ActiveNames(Step(w, op).Items(kind), vault);
            x in after
            && if op.OnItem? && Hides(op, kind, vault, op.key.name) && op.key.name in Below(before, x)
               then Rank(after, x) == Rank(before, x) - 1
               else Rank(after, x) >= Rank(before, x)
  {
    var before, after := ActiveNames(w.Items(kind), vault), ActiveNames(Step(w, op).Items(kind), vault);
    StaysListed(w, op, kind, vault, x);
    forall y | y in Below(before, x) && !Hides(op, kind, vault, y) ensures y in Below(after, x) {
      StaysListed(w, op, kind, vault, y);
    }
    if op.OnItem? && Hides(op, kind, vault, op.key.name) {
      var y := op.key.name;
      HiddenExactly(w, kind, vault, op, y);
      assert Below(after, x) == Below(before, x) - {y};
    } else {
      RankGrows(before, after, x);
    }
  }

  lemma HiddenExactly(w: World, kind: Kind, vault: string, op: Op, y: string)
    requires Hides(op, kind, vault, y)
    ensures ActiveNames(Step(w, op).Items(kind), vault) == ActiveNames(w.Items(kind), vault) - {y}
  {
    forall n
      ensures n in ActiveNames(Step(w, op).Items(kind), vault) <==> n in ActiveNames(w.Items(kind), vault) && n != y
    {
      NamesAt(w.Items(kind), Key(vault, n));
      NamesAt(Step(w, op).Items(kind), Key(vault, n));
      StepAt(w, op, kind, Key(vault, n));
    }
  }

  /** Names stand in the order of their ranks. */
  lemma RankOrders(names: set<string>, y: string, x: string)
    requires y in names && x in names
    ensures Rank(names, y) < Rank(names, x) <==> Less(y, x)
  {
    SortedAt(names, y);
    SortedAt(names, x);
    SortedIncreases(names);
    if Less(y, x) && Rank(names, x) <= Rank(names, y) {
      Irreflexive(x);
      Transitive(x, y, x);
    }
  }

  /** A change keeps the walk on its course to `x` exactly when it is harmless. */
  lemma ChangeKeepsCourse(s: Walk, kind: Kind, vault: string, op: Op, x: string)
    requires OnCourse(s, kind, vault, x)
    ensures OnCourse(NextWalk(s, kind, vault, Change(op)), kind, vault, x) <==> Harmless(s, kind, vault, Change(op), x)
  {
    var names := ActiveNames(s.world.Items(kind), vault);
    if x !in s.seen {
      if Hides(op, kind, vault, x) {
        HiddenExactly(s.world, kind, vault, op, x);
      } else {
        RankAfter(s.world, kind, vault, op, x);
        if op.OnItem? && op.key.name in names {
          RankOrders(names, op.key.name, x);
        }
      }
    }
  }

  /** A completed walk returns every item that was listed at the start, whatever steps of other
      requests run between the pages and whatever page sizes are asked for, as long as no step
      soft-deletes the item before it was read, or a passed item while it is the next to read. */
  lemma {:induction false} WalkFinds(w: World, kind: Kind, vault: string, events: seq<Event>, x: string)
    requires x in ActiveNames(w.Items(kind), vault)
    requires forall i :: 0 <= i < |events| ==> Countable(Follow(w, kind, vault, events[..i]).world, kind, vault)
    requires forall i :: 0 <= i < |events| ==> Harmless(Follow(w, kind, vault, events[..i]), kind, vault, events[i], x)
    ensures OnCourse(Follow(w, kind, vault, events), kind, vault, x)
    ensures Follow(w, kind, vault, events).done ==> x in Follow(w, kind, vault, events).seen
    decreases |events|
  {
    if events != [] {
      var pre, e := events[..|events| - 1], events[|events| - 1];
      forall i | 0 <= i < |pre|
        ensures Countable(Follow(w, kind, vault, pre[..i]).world, kind, vault)
        ensures Harmless(Follow(w, kind, vault, pre[..i]), kind, vault, pre[i], x)
      {
        assert pre[..i] == events[..i] && pre[i] == events[i];
      }
      WalkFinds(w, kind, vault, pre, x);
      assert events[..|pre|] == pre;
      if e.Fetch? {
        FetchKeepsCourse(Follow(w, kind, vault, pre), kind, vault, e.max, x);
      } else {
        ChangeKeepsCourse(Follow(w, kind, vault, pre), kind, vault, e.op, x);
      }
    }
  }

  /** In particular Set, Update, Recover, Purge and automatic purge steps, in any number, never
      make a walk miss an item that was there when it began. */
  lemma WalkWithoutDeletesFindsAll(w: World, kind: Kind, vault: string, events: seq<Event>)
    requires forall i :: 0 <= i < |events| ==> Countable(Follow(w, kind, vault, events[..i]).world, kind, vault)
    requires forall i :: 0 <= i < |events| && events[i].Change? && events[i].op.OnItem? ==> !events[i].op.change.SoftDelete?
    ensures Follow(w, kind, vault, events).done ==>
              forall x :: x in ActiveNames(w.Items(kind), vault) ==> x in Follow(w, kind, vault, events).seen
  {
    forall x | x in ActiveNames(w.Items(kind), vault)
      ensures Follow(w, kind, vault, events).done ==> x in Follow(w, kind, vault, events).seen
    {
      WalkFinds(w, kind, vault, events, x);
    }
  }

  // ---- exactly what a soft delete behind the walk costs ----

  ghost predicate OnlyFetches(events: seq<Event>) {
    forall i :: 0 <= i < |events| ==> events[i].Fetch?
  }

  // A fetch returns nothing from before its token, and its next token lies further on.
  lemma FetchPasses(s: Walk, kind: Kind, vault: string, max: int, x: string)
    requires x in ActiveNames(s.world.Items(kind), vault) && Countable(s.world, kind, vault)
    requires x !in s.seen && (s.done || Rank(ActiveNames(s.world.Items(kind), vault), x) < SkipToken.Decode(s.token))
    ensures var s' := NextWalk(s, kind, vault, Fetch(max));
            x !in s'.seen && (s'.done || Rank(ActiveNames(s'.world.Items(kind), vault), x) < SkipToken.Decode(s'.token))
  {
    if !s.done {
      var names := ActiveNames(s.world.Items(kind), vault);
      PageStartsAtToken(Sorted(names), max, s.token);
      RowsAfter(names, x, SkipToken.Decode(s.token));
    }
  }

  lemma PageStartsAtToken(rows: seq<string>, max: int, token: string)
    requires |rows| <= Decimal.MAX_INT && 0 <= SkipToken.Decode(token)
    ensures var offset, (page, next) := SkipToken.Decode(token), Page(rows, max, token);
            && (forall j :: 0 <= j < |page| ==> offset + j < |rows| && page[j] == rows[offset + j])
            && (next != "" ==> SkipToken.Decode(next) > offset)
  {
    var size, offset := PageSize(max), SkipToken.Decode(token);
    if offset + size < |rows| {
      SkipToken.RoundTrip(offset + size);
    }
  }

  lemma RowsAfter(names: set<string>, x: string, offset: int)
    requires x in names && Rank(names, x) < offset
    ensures forall i :: offset <= i < |Sorted(names)| ==> Sorted(names)[i] != x
  {
    SortedAt(names, x);
    SortedIncreases(names);
    Irreflexive(x);
  }

  /** With no more changes a walk that runs to its end returns, of the items not returned yet,
      exactly those its token has not passed. */
  lemma {:induction false} FetchesFindRest(s: Walk, kind: Kind, vault: string, fetches: seq<Event>, x: string)
    requires x in ActiveNames(s.world.Items(kind), vault) && Countable(s.world, kind, vault)
    requires x !in s.seen && !s.done && 0 <= SkipToken.Decode(s.token) && OnlyFetches(fetches)
    ensures var end, rank := Continue(s, kind, vault, fetches), Rank(ActiveNames(s.world.Items(kind), vault), x);
            && end.world == s.world
            && (if SkipToken.Decode(s.token) <= rank then OnCourse(end, kind, vault, x)
                else x !in end.seen && (end.done || rank < SkipToken.Decode(end.token)))
            && (end.done ==> (x in end.seen <==> SkipToken.Decode(s.token) <= rank))
    decreases |fetches|
  {
    if fetches != [] {
      var pre, e := fetches[..|fetches| - 1], fetches[|fetches| - 1];
      FetchesFindRest(s, kind, vault, pre, x);
      var before := Continue(s, kind, vault, pre);
      if SkipToken.Decode(s.token) <= Rank(ActiveNames(s.world.Items(kind), vault), x) {
        FetchKeepsCourse(before, kind, vault, e.max, x);
      } else {
        FetchPasses(before, kind, vault, e.max, x);
      }
    }
  }

  /** A soft delete of a passed item costs a walk the very next unread item and nothing else:
      whatever pages follow, an item ahead is returned exactly when it was not the next one. */
  lemma PassedDeleteLosesNext(s: Walk, kind: Kind, vault: string, y: string, d: Deletion, fetches: seq<Event>, x: string)
    requires Countable(s.world, kind, vault) && !s.done && OnlyFetches(fetches) && x !in s.seen
    requires var names := ActiveNames(s.world.Items(kind), vault);
             x in names && y in names && Rank(names, y) < SkipToken.Decode(s.token) <= Rank(names, x)
    ensures var end := Continue(NextWalk(s, kind, vault, Change(OnItem(kind, Key(vault, y), SoftDelete(d)))), kind, vault, fetches);
            && x in ActiveNames(end.world.Items(kind), vault)
            && (end.done ==> (x in end.seen <==> SkipToken.Decode(s.token) < Rank(ActiveNames(s.world.Items(kind), vault), x)))
  {
    var op := OnItem(kind, Key(vault, y), SoftDelete(d));
    RankOrders(ActiveNames(s.world.Items(kind), vault), y, x);
    RankAfter(s.world, kind, vault, op, x);
    HiddenExactly(s.world, kind, vault, op, y);
    FetchesFindRest(NextWalk(s, kind, vault, Change(op)), kind, vault, fetches, x);
  }

  lemma FollowStep(w: World, kind: Kind, vault: string, events: seq<Event>, e: Event)
    ensures Follow(w, kind, vault, events + [e]) == NextWalk(Follow(w, kind, vault, events), kind, vault, e)
  {
  }

  /** The smallest case: with pages of one, soft-deleting the first of two items after it
      was read makes the walk end without the second, which was active all along. */
  lemma PassedDeleteHidesNext(w: World, kind: Kind, vault: string, a: string, b: string, d: Deletion)
    requires Less(a, b) && ActiveNames(w.Items(kind), vault) == {a, b}
    ensures var events := [Fetch(1)] + [Change(OnItem(kind, Key(vault, a), SoftDelete(d)))] + [Fetch(1)];
            var end := Follow(w, kind, vault, events);
            end.done && b !in end.seen && Active(end.world.Items(kind), Key(vault, b))
  {
    var op := OnItem(kind, Key(vault, a), SoftDelete(d));
    var w' := Step(w, op);
    FollowStep(w, kind, vault, [], Fetch(1));
    FollowStep(w, kind, vault, [Fetch(1)], Change(op));
    FollowStep(w, kind, vault, [Fetch(1)] + [Change(op)], Fetch(1));
    assert [] + [Fetch(1)] == [Fetch(1)];
    FirstOfTwo(w, kind, vault, a, b);
    HiddenExactly(w, kind, vault, op, a);
    assert {a, b} - {a} == {b};
    TwoSorted(a, b);
    assert Follow(w, kind, vault, [Fetch(1)] + [Change(op)]) == Walk(w', SkipToken.Encode(1), false, [a]);
    PastTheEnd(Listed(w', kind, vault));
    NamesAt(w'.Items(kind), Key(vault, b));
  }

  lemma FirstOfTwo(w: World, kind: Kind, vault: string, a: string, b: string)
    requires Less(a, b) && ActiveNames(w.Items(kind), vault) == {a, b}
    ensures a != b
    ensures NextWalk(Walk(w, "", false, []), kind, vault, Fetch(1)) == Walk(w, SkipToken.Encode(1), false, [a])
  {
    Irreflexive(a);
    TwoSorted(a, b);
    PageOfTwo([a, b]);
    assert [] + [a] == [a];
  }

  lemma PageOfTwo(rows: seq<string>)
    requires |rows| == 2
    ensures Page(rows, 1, "") == ([rows[0]], SkipToken.Encode(1))
    ensures SkipToken.Encode(1) != ""
  {
    SkipToken.RoundTrip(1);
    assert Window(rows, 2, 0) == rows;
    assert rows[..1] == [rows[0]];
  }

  lemma PastTheEnd(rows: seq<string>)
    requires |rows| == 1
    ensures Page(rows, 1, SkipToken.Encode(1)) == ([], "")
  {
  }

  lemma TwoSorted(a: string, b: string)
    requires Less(a, b) && a != b
    ensures Sorted({a, b}) == [a, b]
    ensures Sorted({b}) == [b]
  {
    assert IsLeast(a, {a, b});
    LeastUnique(a, Least({a, b}), {a, b});
    assert {a, b} - {a} == {b};
    assert {b} - {b} == {};
    assert Least({b}) == b;
  }

  // ---- a store nobody changes ----

  function Fetches(max: int, k: nat): (events: seq<Event>)
    ensures |events| == k
  {
    if k == 0 then [] else Fetches(max, k - 1) + [Fetch(max)]
  }

  function PageCount(n: nat, size: nat): nat
    requires size > 0
  {
    if n == 0 then 1 else (n + size - 1) / size
  }

  /** How far k whole pages reach into n rows. */
  function Reach(n: nat, size: nat, k: nat): (r: nat)
    ensures r <= n
  {
    if k * size > n then n else k * size
  }

  // One more page of an unchanged listing, k pages having been read.
  lemma NextPage(rows: seq<string>, max: int, token: string, k: nat)
    requires |rows| <= Decimal.MAX_INT
    requires SkipToken.Decode(token) == k * PageSize(max)
    requires k == 0 || k * PageSize(max) < |rows|
    ensures var size := PageSize(max);
            var (page, next) := Page(rows, max, token);
            && page == rows[Reach(|rows|, size, k)..Reach(|rows|, size, k + 1)]
            && (next == "" <==> |rows| <= (k + 1) * size)
            && (next != "" ==> SkipToken.Decode(next) == (k + 1) * size)
  {
    var size := PageSize(max);
    var offset := k * size;
    assert (k + 1) * size == offset + size;
    if |rows| > offset + size {
      SkipToken.RoundTrip(offset + size);
    }
  }

  /** k pages of an unchanged listing: exactly its first k * size rows have come, in order and
      once each, and the walk is over when none is left (or at page one when there is none). */
  predicate AfterPages(s: Walk, rows: seq<string>, size: nat, k: nat)
    requires size > 0
  {
    && s.seen == rows[..Reach(|rows|, size, k)]
    && (s.done <==> k >= PageCount(|rows|, size))
    && (!s.done ==> SkipToken.Decode(s.token) == k * size)
  }

  lemma PageStep(s: Walk, kind: Kind, vault: string, max: int, k: nat, rows: seq<string>)
    requires rows == Listed(s.world, kind, vault) && |rows| <= Decimal.MAX_INT
    requires AfterPages(s, rows, PageSize(max), k)
    ensures AfterPages(NextWalk(s, kind, vault, Fetch(max)), rows, PageSize(max), k + 1)
    ensures NextWalk(s, kind, vault, Fetch(max)).world == s.world
  {
    var n, size := |rows|, PageSize(max);
    PagesLeft(n, size, k);
    PagesLeft(n, size, k + 1);
    MulMonotone(k, k + 1, size);
    if !s.done {
      NextPage(rows, max, s.token, k);
      SliceConcat(rows, Reach(n, size, k), Reach(n, size, k + 1));
    }
  }

  lemma SliceConcat(rows: seq<string>, a: nat, b: nat)
    requires a <= b <= |rows|
    ensures rows[..a] + rows[a..b] == rows[..b]
  {
  }

  lemma NoPages(w: World, rows: seq<string>, size: nat)
    requires size > 0
    ensures AfterPages(Walk(w, "", false, []), rows, size, 0)
  {
  }

  lemma FetchOnce(w: World, kind: Kind, vault: string, max: int, k: nat)
    requires k > 0
    ensures Follow(w, kind, vault, Fetches(max, k)) == NextWalk(Follow(w, kind, vault, Fetches(max, k - 1)), kind, vault, Fetch(max))
  {
  }

  /** Following the issued tokens over an unchanged store lists it exactly, and the walk is over
      at page ceil(n / size). */
  lemma {:induction false} UnchangedWalk(w: World, kind: Kind, vault: string, max: int, k: nat, rows: seq<string>)
    requires rows == Listed(w, kind, vault) && |rows| <= Decimal.MAX_INT
    ensures Follow(w, kind, vault, Fetches(max, k)).world == w
    ensures AfterPages(Follow(w, kind, vault, Fetches(max, k)), rows, PageSize(max), k)
    decreases k
  {
    if k == 0 {
      NoPages(w, rows, PageSize(max));
    } else {
      UnchangedWalk(w, kind, vault, max, k - 1, rows);
      var s := Follow(w, kind, vault, Fetches(max, k - 1));
      PageStep(s, kind, vault, max, k - 1, rows);
      FetchOnce(w, kind, vault, max, k);
    }
  }

  lemma PagesLeft(n: nat, size: nat, k: nat)
    requires size > 0
    ensures k >= PageCount(n, size) <==> k >= 1 && k * size >= n
  {
    if n > 0 {
      var q := (n + size - 1) / size;
      var r := (n + size - 1) % size;
      assert n + size - 1 == q * size + r;
      if k < q {
        MulMonotone(k + 1, q, size);
        assert (k + 1) * size == k * size + size;
      } else {
        MulMonotone(q, k, size);
      }
      if k == 0 { assert k * size == 0; }
    }
  }

  lemma MulMonotone(a: nat, b: nat, c: nat)
    requires a <= b
    ensures a * c <= b * c
  {
  }
}
