// ORDER BY name under SQLite's BINARY collation. Comparing UTF-8 bytes is comparing code
// points, first difference first.
module Ordering {

  predicate Less(a: string, b: string) {
    b != "" && (a == "" || a[0] < b[0] || (a[0] == b[0] && Less(a[1..], b[1..])))
  }

  /** What that order is, character by character: a proper prefix comes first, and otherwise the
      smaller character at the first difference. */
  ghost predicate Precedes(a: string, b: string) {
    || (|a| < |b| && a == b[..|a|])
    || exists i :: DiffersFirst(a, b, i) && a[i] < b[i]
  }

  predicate DiffersFirst(a: string, b: string, i: int) {
    0 <= i < |a| && i < |b| && a[..i] == b[..i] && a[i] != b[i]
  }

  lemma {:induction false} LessIsPrecedes(a: string, b: string)
    ensures Less(a, b) <==> Precedes(a, b)
  {
    if a != "" && b != "" {
      if a[0] != b[0] {
        forall i ensures DiffersFirst(a, b, i) <==> i == 0 { DiffersAtOnce(a, b, i); }
      } else {
        LessIsPrecedes(a[1..], b[1..]);
        assert |a| <= |b| ==> (a == b[..|a|] <==> a[1..] == b[1..][..|a| - 1]) by {
          if |a| <= |b| { assert b[1..][..|a| - 1] == b[..|a|][1..]; }
          assert a == [a[0]] + a[1..];
          if |a| <= |b| { assert b[..|a|] == [b[0]] + b[..|a|][1..]; }
        }
        forall i ensures DiffersFirst(a, b, i) <==> i > 0 && DiffersFirst(a[1..], b[1..], i - 1) {
          DiffersLater(a, b, i);
        }
        if i :| DiffersFirst(a[1..], b[1..], i) && a[1..][i] < b[1..][i] {
          assert DiffersFirst(a, b, i + 1);
        }
      }
    }
  }

  lemma DiffersAtOnce(a: string, b: string, i: int)
    requires a != "" && b != "" && a[0] != b[0]
    ensures DiffersFirst(a, b, i) <==> i == 0
  {
    if 0 < i < |a| && i < |b| {
      assert a[..i][0] == a[0] && b[..i][0] == b[0];
    }
  }

  lemma DiffersLater(a: string, b: string, i: int)
    requires a != "" && b != "" && a[0] == b[0]
    ensures DiffersFirst(a, b, i) <==> i > 0 && DiffersFirst(a[1..], b[1..], i - 1)
  {
    if 0 < i < |a| && i < |b| {
      assert a[1..][..i - 1] == a[..i][1..] && b[1..][..i - 1] == b[..i][1..];
      assert a[..i] == [a[0]] + a[..i][1..] && b[..i] == [b[0]] + b[..i][1..];
    }
  }

  lemma {:induction false} Trichotomy(a: string, b: string)
    ensures Less(a, b) || a == b || Less(b, a)
  {
    if a != "" && b != "" && a[0] == b[0] {
      Trichotomy(a[1..], b[1..]);
      if a[1..] == b[1..] {
        assert a == [a[0]] + a[1..] && b == [b[0]] + b[1..];
      }
    }
  }

  lemma {:induction false} Transitive(a: string, b: string, c: string)
    requires Less(a, b) && Less(b, c)
    ensures Less(a, c)
  {
    if a != "" && a[0] == b[0] && b[0] == c[0] {
      Transitive(a[1..], b[1..], c[1..]);
    }
  }

  lemma {:induction false} Irreflexive(a: string)
    ensures !Less(a, a)
  {
    if a != "" {
      Irreflexive(a[1..]);
    }
  }

  predicate IsLeast(m: string, s: set<string>) {
    m in s && forall x :: x in s ==> x == m || Less(m, x)
  }

  lemma {:induction false} HasLeast(s: set<string>)
    requires s != {}
    ensures exists m :: IsLeast(m, s)
    decreases |s|
  {
    var y :| y in s;
    var rest := s - {y};
    if rest == {} {
      assert s == {y};
      assert IsLeast(y, s);
    } else {
      HasLeast(rest);
      var m :| IsLeast(m, rest);
      Trichotomy(m, y);
      if Less(y, m) {
        forall x | x in s && x != y ensures Less(y, x) {
          if x != m { Transitive(y, m, x); }
        }
        assert IsLeast(y, s);
      } else {
        assert IsLeast(m, s);
      }
    }
  }

  lemma LeastUnique(m: string, n: string, s: set<string>)
    requires IsLeast(m, s) && IsLeast(n, s)
    ensures m == n
  {
    if m != n {
      Transitive(m, n, m);
      Irreflexive(m);
    }
  }

  function Least(s: set<string>): (m: string)
    requires s != {}
    ensures IsLeast(m, s)
  {
    HasLeast(s);
    assert forall m, n :: IsLeast(m, s) && IsLeast(n, s) ==> m == n by {
      forall m, n | IsLeast(m, s) && IsLeast(n, s) ensures m == n { LeastUnique(m, n, s); }
    }
    var m :| IsLeast(m, s); m
  }

  /** The names in order. */
  function Sorted(s: set<string>): (r: seq<string>)
    ensures |r| == |s|
    ensures forall i :: 0 <= i < |r| ==> r[i] in s
    decreases |s|
  {
    if s == {} then []
    else
      var m := Least(s);
      [m] + Sorted(s - {m})
  }

  /** How many names come before `x`. */
  ghost function Rank(s: set<string>, x: string): nat {
    |Below(s, x)|
  }

  ghost function Below(s: set<string>, x: string): set<string> {
    set y | y in s && Less(y, x)
  }

  lemma RankWithoutLeast(s: set<string>, x: string)
    requires x in s && s != {} && x != Least(s)
    ensures Rank(s, x) == Rank(s - {Least(s)}, x) + 1
  {
    var m := Least(s);
    assert Below(s, x) == Below(s - {m}, x) + {m};
  }

  /** Every name is found in the order at its rank. */
  lemma {:induction false} SortedAt(s: set<string>, x: string)
    requires x in s
    ensures Rank(s, x) < |Sorted(s)|
    ensures Sorted(s)[Rank(s, x)] == x
    decreases |s|
  {
    var m := Least(s);
    if x == m {
      forall y | y in s ensures !Less(y, x) {
        if y == x {
          Irreflexive(x);
        } else if Less(y, x) {
          Transitive(x, y, x);
          Irreflexive(x);
        }
      }
      assert Below(s, x) == {};
    } else {
      SortedAt(s - {m}, x);
      RankWithoutLeast(s, x);
    }
  }

  /** Exactly the names, each once, in the order of their characters. */
  lemma SortedIsOrderBy(s: set<string>)
    ensures forall x :: x in Sorted(s) <==> x in s
    ensures forall i, j :: 0 <= i < j < |Sorted(s)| ==> Precedes(Sorted(s)[i], Sorted(s)[j]) && Sorted(s)[i] != Sorted(s)[j]
  {
    SortedIncreases(s);
    forall x | x in s ensures x in Sorted(s) { SortedAt(s, x); }
    forall i, j | 0 <= i < j < |Sorted(s)|
      ensures Precedes(Sorted(s)[i], Sorted(s)[j]) && Sorted(s)[i] != Sorted(s)[j]
    {
      LessIsPrecedes(Sorted(s)[i], Sorted(s)[j]);
      Irreflexive(Sorted(s)[i]);
    }
  }

  lemma {:induction false} SortedIncreases(s: set<string>)
    ensures forall i, j :: 0 <= i < j < |Sorted(s)| ==> Less(Sorted(s)[i], Sorted(s)[j])
    decreases |s|
  {
    if s != {} {
      var m := Least(s);
      SortedIncreases(s - {m});
      var rest := Sorted(s - {m});
      assert forall i :: 0 <= i < |rest| ==> rest[i] in s - {m};
    }
  }

  lemma RankGrows(s: set<string>, s': set<string>, x: string)
    requires Below(s, x) <= Below(s', x)
    ensures Rank(s, x) <= Rank(s', x)
  {
    SubsetSize(Below(s, x), Below(s', x));
  }

  lemma SubsetSize(a: set<string>, b: set<string>)
    requires a <= b
    ensures |a| <= |b|
  {
    assert b == a + (b - a);
  }
}
