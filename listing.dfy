/**
  The end of `run`: the name set copied into a slice of its size through a
  running index, then sorted in place.
*/
module Listing {
  import opened StringOrder

  predicate Distinct(s: seq<string>) {
    forall i, j :: 0 <= i < j < |s| ==> s[i] != s[j]
  }

  /** Each name is at most the next one (what `sort.Strings` promises). */
  predicate Sorted(s: seq<string>) {
    forall k :: 0 < k < |s| ==> LessEq(s[k - 1], s[k])
  }

  /** Each name comes strictly before every later one. */
  predicate StrictlyAscending(s: seq<string>) {
    forall i, j :: 0 <= i < j < |s| ==> Less(s[i], s[j])
  }

  function Elements(s: seq<string>): set<string> {
    set x | x in s
  }

  /** A sequence holding every element of a set exactly once has exactly that set's elements, each once. */
  lemma {:induction false} OnceEach(s: seq<string>, names: set<string>)
    requires multiset(s) == multiset(names)
    ensures Distinct(s) && Elements(s) == names && |s| == |names|
  {
    assert |s| == |multiset(s)| == |multiset(names)| == |names|;
    forall i, j | 0 <= i < j < |s|
      ensures s[i] != s[j]
    {
      NoRepeat(s, names, i, j);
    }
    forall x
      ensures x in Elements(s) <==> x in names
    {
      assert x in s <==> x in multiset(s);
      assert x in names <==> x in multiset(names);
    }
  }

  lemma NoRepeat(s: seq<string>, names: set<string>, i: nat, j: nat)
    requires multiset(s) == multiset(names) && i < j < |s|
    ensures s[i] != s[j]
  {
    assert s == s[..i] + [s[i]] + s[i + 1..j] + [s[j]] + s[j + 1..];
    assert multiset(s)[s[i]] >= 1 + multiset([s[j]])[s[i]];
  }

  /** Sorted with no repeats means strictly ascending. */
  lemma {:induction false} SortedDistinctAscending(s: seq<string>)
    requires Sorted(s) && Distinct(s)
    ensures StrictlyAscending(s)
    decreases |s|
  {
    if |s| > 1 {
      var front := s[..|s| - 1];
      SortedDistinctAscending(front);
      var n := |s| - 1;
      forall i | 0 <= i < n
        ensures Less(s[i], s[n])
      {
        assert Less(s[n - 1], s[n]);
        if i < n - 1 {
          assert Less(front[i], front[n - 1]);
          LessTransitive(s[i], s[n - 1], s[n]);
        }
      }
    }
  }

  /** The sorted listing of a set is unique: the order the map was walked in leaves no trace. */
  lemma {:induction false} AscendingListingUnique(a: seq<string>, b: seq<string>)
    requires StrictlyAscending(a) && StrictlyAscending(b) && Elements(a) == Elements(b)
    ensures a == b
    decreases |a|
  {
    assert |a| > 0 ==> a[0] in Elements(a);
    assert |b| > 0 ==> b[0] in Elements(b);
    if a != [] {
      var j :| 0 <= j < |b| && b[j] == a[0];
      var k :| 0 <= k < |a| && a[k] == b[0];
      if j > 0 {
        assert Less(b[0], b[j]);
        if k == 0 {
          LessIrreflexive(a[0]);
        } else {
          LessAsymmetric(a[0], a[k]);
        }
      }
      assert a[0] == b[0];
      forall x
        ensures x in Elements(a[1..]) <==> x in Elements(b[1..])
      {
        if x in a[1..] {
          var i :| 1 <= i < |a| && a[i] == x;
          LessIrreflexive(a[0]);
          assert x != a[0] && x in Elements(a);
          assert x in b;
        }
        if x in b[1..] {
          var i :| 1 <= i < |b| && b[i] == x;
          LessIrreflexive(b[0]);
          assert x != b[0] && x in Elements(b);
          assert x in a;
        }
      }
      AscendingListingUnique(a[1..], b[1..]);
      assert a == [a[0]] + a[1..] && b == [b[0]] + b[1..];
    }
  }

  /** A new array of the set's size, filled by walking the set's keys and storing each at a running index. */
  method FillList(names: set<string>) returns (nameList: array<string>)
    ensures fresh(nameList)
    ensures multiset(nameList[..]) == multiset(names)
  {
    nameList := new string[|names|];
    var i := 0;
    var rest := names;  // the keys the range loop has not visited yet, in no particular order
    while rest != {}
      invariant rest <= names
      invariant i + |rest| == |names| == nameList.Length
      invariant multiset(nameList[..i]) + multiset(rest) == multiset(names)
      decreases rest
    {
      var name :| name in rest;
      assert multiset(rest) == multiset(rest - {name}) + multiset{name};
      assert |rest - {name}| + 1 == |rest|;
      nameList[i] := name;
      assert nameList[..i + 1] == nameList[..i] + [name];
      i := i + 1;
      rest := rest - {name};
    }
    assert i == nameList.Length;
    assert nameList[..] == nameList[..i];
  }

  /** Each name from index `lo` up to (not including) `hi` is at most the next one. */
  predicate SortedBetween(s: seq<string>, lo: int, hi: int)
    requires 0 <= lo <= hi <= |s|
  {
    forall k :: lo < k < hi ==> LessEq(s[k - 1], s[k])
  }

  /** `sort.Strings`, as an insertion sort with the same contract. */
  method SortStrings(a: array<string>)
    modifies a
    ensures Sorted(a[..])
    ensures multiset(a[..]) == old(multiset(a[..]))
  {
    var i := 0;
    while i < a.Length
      invariant 0 <= i <= a.Length
      invariant SortedBetween(a[..], 0, i)
      invariant multiset(a[..]) == old(multiset(a[..]))
    {
      InsertLast(a, i);
      i := i + 1;
    }
  }

  /** Moves `a[i]` down into the sorted prefix `a[..i]`. */
  method InsertLast(a: array<string>, i: nat)
    requires i < a.Length && SortedBetween(a[..], 0, i)
    modifies a
    ensures SortedBetween(a[..], 0, i + 1)
    ensures multiset(a[..]) == old(multiset(a[..]))
    ensures a[i + 1..] == old(a[i + 1..])
  {
    var j := i;
    while 0 < j && Less(a[j], a[j - 1])
      invariant 0 <= j <= i
      invariant SortedBetween(a[..], 0, j)
      invariant SortedBetween(a[..], j, i + 1)
      invariant 0 < j < i ==> LessEq(a[j - 1], a[j + 1])
      invariant multiset(a[..]) == old(multiset(a[..]))
      invariant a[i + 1..] == old(a[i + 1..])
    {
      SwapDown(a, j);
      j := j - 1;
    }
    if 0 < j && a[j - 1] != a[j] {
      LessTotal(a[j - 1], a[j]);
    }
  }

  /** Exchanges `a[p - 1]` and `a[p]`. */
  method SwapDown(a: array<string>, p: nat)
    requires 0 < p < a.Length
    modifies a
    ensures a[..] == old(a[..])[p - 1 := old(a[p])][p := old(a[p - 1])]
    ensures multiset(a[..]) == old(multiset(a[..]))
  {
    a[p - 1], a[p] := a[p], a[p - 1];
  }
}
