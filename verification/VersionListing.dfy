// ORDER BY created DESC: the versions of an item, the newest first, in any order where the
// creation times tie.
module VersionListing {
  import opened Wrappers
  import opened Catalog

  ghost predicate NewestFirst(rows: seq<string>, versions: map<string, Body>) {
    && (forall v :: v in rows <==> v in versions)
    && (forall i, j :: 0 <= i < j < |rows| ==> rows[i] != rows[j])
    && (forall i, j :: 0 <= i < j < |rows| && rows[i] in versions && rows[j] in versions
                       ==> versions[rows[i]].created >= versions[rows[j]].created)
  }

  lemma FirstIsVersion(rows: seq<string>, versions: map<string, Body>)
    requires NewestFirst(rows, versions)
    ensures rows != [] ==> rows[0] in versions
  {
    if rows != [] { assert rows[0] in rows; }
  }

  predicate IsNewest(v: string, left: set<string>, versions: map<string, Body>)
    requires left <= versions.Keys
  {
    v in left && forall u :: u in left ==> versions[u].created <= versions[v].created
  }

  lemma {:induction false} HasNewest(left: set<string>, versions: map<string, Body>)
    requires left != {} && left <= versions.Keys
    ensures exists v :: IsNewest(v, left, versions)
    decreases |left|
  {
    var u :| u in left;
    if left == {u} {
      assert IsNewest(u, left, versions);
    } else {
      HasNewest(left - {u}, versions);
      var v :| IsNewest(v, left - {u}, versions);
      assert IsNewest(if versions[u].created <= versions[v].created then v else u, left, versions);
    }
  }

  method Order(versions: map<string, Body>) returns (rows: seq<string>)
    ensures NewestFirst(rows, versions)
  {
    rows := [];
    var left := versions.Keys;
    while left != {}
      invariant left <= versions.Keys
      invariant forall v :: v in rows <==> v in versions && v !in left
      invariant forall i, j :: 0 <= i < j < |rows| ==> rows[i] != rows[j]
      invariant forall i, j :: 0 <= i < j < |rows| ==> versions[rows[i]].created >= versions[rows[j]].created
      invariant forall i, u :: 0 <= i < |rows| && u in left ==> versions[rows[i]].created >= versions[u].created
      decreases left
    {
      HasNewest(left, versions);
      var v :| IsNewest(v, left, versions);
      rows := rows + [v];
      left := left - {v};
    }
  }

  /** Creation times that differ leave one order only. */
  lemma NewestFirstIsUnique(a: seq<string>, b: seq<string>, versions: map<string, Body>)
    requires NewestFirst(a, versions) && NewestFirst(b, versions)
    requires forall u, v :: u in versions && v in versions && versions[u].created == versions[v].created ==> u == v
    ensures a == b
  {
    SameLength(a, b);
    FirstsAgree(a, b, versions, |a|);
  }

  lemma SameLength(a: seq<string>, b: seq<string>)
    requires forall v :: v in a <==> v in b
    requires forall i, j :: 0 <= i < j < |a| ==> a[i] != a[j]
    requires forall i, j :: 0 <= i < j < |b| ==> b[i] != b[j]
    ensures |a| == |b|
  {
    DistinctCount(a);
    DistinctCount(b);
    assert (set v | v in a) == (set v | v in b);
  }

  lemma {:induction false} DistinctCount(a: seq<string>)
    requires forall i, j :: 0 <= i < j < |a| ==> a[i] != a[j]
    ensures |set v | v in a| == |a|
  {
    if a != [] {
      var front, last := a[..|a| - 1], a[|a| - 1];
      DistinctCount(front);
      assert (set v | v in a) == (set v | v in front) + {last};
    }
  }

  lemma {:induction false} FirstsAgree(a: seq<string>, b: seq<string>, versions: map<string, Body>, n: nat)
    requires NewestFirst(a, versions) && NewestFirst(b, versions) && n <= |a| == |b|
    requires forall u, v :: u in versions && v in versions && versions[u].created == versions[v].created ==> u == v
    ensures a[..n] == b[..n]
  {
    if n > 0 {
      FirstsAgree(a, b, versions, n - 1);
      NotLater(a, b, versions, n - 1);
      NotLater(b, a, versions, n - 1);
    }
  }

  lemma NotLater(a: seq<string>, b: seq<string>, versions: map<string, Body>, n: nat)
    requires NewestFirst(a, versions) && NewestFirst(b, versions) && n < |a| == |b| && a[..n] == b[..n]
    ensures a[n] in versions && b[n] in versions && versions[a[n]].created >= versions[b[n]].created
  {
    assert a[n] in a && b[n] in b;
    forall i | 0 <= i < n ensures a[i] != b[n] {
      assert a[..n][i] == b[..n][i];
      assert b[i] != b[n];
    }
    var i :| 0 <= i < |a| && a[i] == b[n];
    assert i >= n;
  }
}
