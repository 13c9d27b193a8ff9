// The string operations of Go's "strings" package that the modelled code uses.
module Text {

  /** Position of the first `c` in `s`, or |s| when there is none. */
  function IndexOf(s: string, c: char): (i: nat)
    ensures i <= |s|
    ensures i < |s| ==> s[i] == c
    ensures forall j :: 0 <= j < i ==> s[j] != c
  {
    if s == "" || s[0] == c then 0 else 1 + IndexOf(s[1..], c)
  }

  /** strings.Cut: what precedes the first `c`; the whole string when there is none. */
  function Before(s: string, c: char): string {
    s[..IndexOf(s, c)]
  }

  /** strings.Cut: what follows the first `c`; empty when there is none. */
  function After(s: string, c: char): string {
    var i := IndexOf(s, c);
    if i < |s| then s[i + 1..] else ""
  }

  predicate HasSuffix(s: string, suffix: string) {
    |suffix| <= |s| && s[|s| - |suffix|..] == suffix
  }

  lemma SuffixHas(s: string, suffix: string, c: char)
    ensures HasSuffix(s, suffix) && c in suffix ==> c in s
  {
  }

  /** strings.Split on one character: always at least one piece, none holding `c`. */
  function Split(s: string, c: char): (parts: seq<string>)
    ensures |parts| >= 1
    ensures forall i :: 0 <= i < |parts| ==> c !in parts[i]
    decreases |s|
  {
    var i := IndexOf(s, c);
    if i < |s| then [s[..i]] + Split(s[i + 1..], c) else [s]
  }

  /** strings.Join. */
  function Join(parts: seq<string>, sep: string): string {
    if |parts| == 0 then ""
    else if |parts| == 1 then parts[0]
    else parts[0] + sep + Join(parts[1..], sep)
  }

  /** `s` with every occurrence of `c` left out. */
  function Without(s: string, c: char): (r: string)
    ensures c !in r
    ensures forall x :: x in r ==> x in s
    ensures c !in s ==> r == s
  {
    if s == "" then ""
    else if s[0] == c then Without(s[1..], c)
    else [s[0]] + Without(s[1..], c)
  }

  lemma {:induction false} WithoutConcat(a: string, b: string, c: char)
    ensures Without(a + b, c) == Without(a, c) + Without(b, c)
  {
    if a == "" {
      assert a + b == b;
    } else {
      assert (a + b)[1..] == a[1..] + b;
      WithoutConcat(a[1..], b, c);
    }
  }

  /** The first `c` of a concatenation whose left part has none. */
  lemma IndexOfConcat(a: string, c: char, b: string)
    requires c !in a
    ensures IndexOf(a + [c] + b, c) == |a|
    ensures IndexOf(a, c) == |a|
  {
    var s := a + [c] + b;
    assert s[|a|] == c;
    assert forall j :: 0 <= j < |a| ==> s[j] == a[j] && a[j] in a;
  }

  lemma SplitFirst(a: string, c: char, b: string)
    requires c !in a
    ensures Split(a + [c] + b, c) == [a] + Split(b, c)
  {
    IndexOfConcat(a, c, b);
    var s := a + [c] + b;
    assert s[..|a|] == a && s[|a| + 1..] == b;
  }

  lemma SplitWhole(a: string, c: char)
    requires c !in a
    ensures Split(a, c) == [a]
  {
  }

  lemma JoinFirst(first: string, parts: seq<string>, sep: string)
    requires parts != []
    ensures Join([first] + parts, sep) == first + sep + Join(parts, sep)
  {
  }

  /** Splitting loses nothing: joining the pieces gives the string back. */
  lemma {:induction false} JoinSplit(s: string, c: char)
    ensures Join(Split(s, c), [c]) == s
    decreases |s|
  {
    var i := IndexOf(s, c);
    if i < |s| {
      var rest := s[i + 1..];
      JoinSplit(rest, c);
      JoinFirst(s[..i], Split(rest, c), [c]);
    }
  }

  lemma SplitStep(s: string, c: char)
    requires c in s
    ensures s == Before(s, c) + [c] + After(s, c)
    ensures Split(s, c) == [Before(s, c)] + Split(After(s, c), c)
  {
    var first, rest := Before(s, c), After(s, c);
    assert s == first + [c] + rest;
    SplitFirst(first, c, rest);
  }

  lemma SplitAt(whole: string, first: string, c: char, tail: string)
    requires c !in first && whole == first + [c] + tail
    ensures Split(whole, c) == [first] + Split(tail, c)
  {
    SplitFirst(first, c, tail);
  }

  lemma Regroup(a: string, first: string, rest: string, c: char, b: string)
    requires a == first + [c] + rest
    ensures a + [c] + b == first + [c] + (rest + [c] + b)
  {
  }

  lemma AppendLast(first: string, parts: seq<string>, b: string)
    ensures [first] + (parts + [b]) == ([first] + parts) + [b]
  {
  }

  /** Splitting off the text after the last separator. */
  lemma {:induction false} SplitLast(a: string, c: char, b: string)
    requires c !in b
    ensures Split(a + [c] + b, c) == Split(a, c) + [b]
    decreases |a|
  {
    if c in a {
      var first, rest := Before(a, c), After(a, c);
      SplitStep(a, c);
      SplitLast(rest, c, b);
      Regroup(a, first, rest, c, b);
      SplitAt(a + [c] + b, first, c, rest + [c] + b);
      AppendLast(first, Split(rest, c), b);
    } else {
      SplitFirst(a, c, b);
      SplitWhole(a, c);
      SplitWhole(b, c);
    }
  }

  /** Dropping the first piece drops exactly the text up to the first separator. */
  lemma JoinTail(s: string, c: char)
    requires c in s
    ensures |Split(s, c)| >= 2
    ensures Join(Split(s, c)[1..], [c]) == After(s, c)
    ensures s == Before(s, c) + [c] + After(s, c)
  {
    SplitStep(s, c);
    JoinSplit(After(s, c), c);
  }
}
