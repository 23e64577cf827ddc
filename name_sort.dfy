/**
 * `sort_by_key(|g| g.ty_name)` on the scan's results: a stable sort by type
 * name. It is modelled as an insertion sort that moves each element left
 * past strictly greater names only, so entries with equal names keep their
 * order. Stability is stated name by name: for every name, the entries with
 * that name form the same sequence before and after.
 */
module NameSort {
  import opened ByteStrings
  import opened ApexGlobals

  /** Non-decreasing by name: no entry's name is smaller than its predecessor's. */
  predicate Sorted(s: seq<GlobalVar>) {
    forall k :: 0 < k < |s| ==> !Less(s[k].tyName, s[k - 1].tyName)
  }

  /** The entries named `name`, in their order in `s`. */
  function WithName(s: seq<GlobalVar>, name: seq<u8>): seq<GlobalVar> {
    if s == [] then []
    else (if s[0].tyName == name then [s[0]] else []) + WithName(s[1..], name)
  }

  /** Entries i and i + 1 exchanged. */
  function Swap(s: seq<GlobalVar>, i: nat): (r: seq<GlobalVar>)
    requires i + 1 < |s|
    ensures |r| == |s| && r[i] == s[i + 1] && r[i + 1] == s[i]
    ensures forall k :: 0 <= k < |s| && k != i && k != i + 1 ==> r[k] == s[k]
  {
    s[i := s[i + 1]][i + 1 := s[i]]
  }

  /** Filtering by name distributes over concatenation. */
  lemma {:induction false} WithNameConcat(a: seq<GlobalVar>, b: seq<GlobalVar>, name: seq<u8>)
    ensures WithName(a + b, name) == WithName(a, name) + WithName(b, name)
  {
    if a != [] {
      WithNameConcat(a[1..], b, name);
      var head := if a[0].tyName == name then [a[0]] else [];
      assert (a + b)[0] == a[0] && (a + b)[1..] == a[1..] + b;
      assert WithName(a + b, name) == head + (WithName(a[1..], name) + WithName(b, name));
    } else {
      assert a + b == b;
    }
  }

  /** Exchanging neighbours with different names changes no name's entries. */
  lemma SwapKeepsNames(s: seq<GlobalVar>, i: nat)
    requires i + 1 < |s| && s[i].tyName != s[i + 1].tyName
    ensures forall name :: WithName(Swap(s, i), name) == WithName(s, name)
  {
    var pre, post := s[..i], s[i + 2..];
    assert s == pre + [s[i], s[i + 1]] + post;
    assert Swap(s, i) == pre + [s[i + 1], s[i]] + post;
    forall name ensures WithName(Swap(s, i), name) == WithName(s, name) {
      SwapKeepsName(pre, s[i], s[i + 1], post, name);
    }
  }

  /** The one-name case of SwapKeepsNames, on the three pieces around the pair. */
  lemma SwapKeepsName(pre: seq<GlobalVar>, x: GlobalVar, y: GlobalVar, post: seq<GlobalVar>, name: seq<u8>)
    requires x.tyName != y.tyName
    ensures WithName(pre + [y, x] + post, name) == WithName(pre + [x, y] + post, name)
  {
    WithNameConcat(pre + [x, y], post, name);
    WithNameConcat(pre, [x, y], name);
    WithNameConcat(pre + [y, x], post, name);
    WithNameConcat(pre, [y, x], name);
    assert [x, y][1..] == [y] && [y, x][1..] == [x];
  }

  /**
   * Sorts the entries by name, in place and stably: the result is sorted and
   * every name's entries are the same sequence as before.
   */
  method SortByName(a: array<GlobalVar>)
    modifies a
    ensures Sorted(a[..])
    ensures forall name :: WithName(a[..], name) == WithName(old(a[..]), name)
  {
    var i := 0;
    while i < a.Length
      invariant 0 <= i <= a.Length
      invariant forall k :: 0 < k < i ==> !Less(a[k].tyName, a[k - 1].tyName)
      invariant forall name :: WithName(a[..], name) == WithName(old(a[..]), name)
    {
      InsertLeft(a, i);
      i := i + 1;
    }
  }

  /**
   * One swap of InsertLeft, on values: moving entry j past a strictly greater
   * j - 1 keeps both sorted runs and the bridge between them, keeps each
   * name's entries, and leaves everything after i alone.
   */
  lemma InsertStep(s: seq<GlobalVar>, i: nat, j: nat)
    requires 0 < j <= i < |s|
    requires forall k :: 0 < k < j ==> !Less(s[k].tyName, s[k - 1].tyName)
    requires forall k :: j < k <= i ==> !Less(s[k].tyName, s[k - 1].tyName)
    requires j < i ==> !Less(s[j + 1].tyName, s[j - 1].tyName)
    requires Less(s[j].tyName, s[j - 1].tyName)
    ensures var t := Swap(s, j - 1);
      && (forall k :: 0 < k < j - 1 ==> !Less(t[k].tyName, t[k - 1].tyName))
      && (forall k :: j - 1 < k <= i ==> !Less(t[k].tyName, t[k - 1].tyName))
      && (0 < j - 1 < i ==> !Less(t[j].tyName, t[j - 2].tyName))
      && (forall name :: WithName(t, name) == WithName(s, name))
      && t[i + 1..] == s[i + 1..]
  {
    LessIrreflexive(s[j].tyName);
    LessAsymmetric(s[j].tyName, s[j - 1].tyName);
    SwapKeepsNames(s, j - 1);
  }

  /**
   * One step of the sort: entry i moves left past the strictly greater names
   * before it, so the first i + 1 entries become sorted.
   */
  method InsertLeft(a: array<GlobalVar>, i: nat)
    requires i < a.Length
    requires forall k :: 0 < k < i ==> !Less(a[k].tyName, a[k - 1].tyName)
    modifies a
    ensures forall k :: 0 < k <= i ==> !Less(a[k].tyName, a[k - 1].tyName)
    ensures forall name :: WithName(a[..], name) == WithName(old(a[..]), name)
    ensures a[i + 1..] == old(a[i + 1..])
  {
    var j := i;
    while j > 0 && Less(a[j].tyName, a[j - 1].tyName)
      invariant 0 <= j <= i
      invariant forall k :: 0 < k < j ==> !Less(a[k].tyName, a[k - 1].tyName)
      invariant forall k :: j < k <= i ==> !Less(a[k].tyName, a[k - 1].tyName)
      invariant 0 < j < i ==> !Less(a[j + 1].tyName, a[j - 1].tyName)
      invariant forall name :: WithName(a[..], name) == WithName(old(a[..]), name)
      invariant a[i + 1..] == old(a[i + 1..])
    {
      ghost var before := a[..];
      InsertStep(before, i, j);
      a[j - 1], a[j] := a[j], a[j - 1];
      assert a[..] == Swap(before, j - 1);
      j := j - 1;
    }
  }

  /** In a sorted sequence every later name is at least every earlier one. */
  lemma {:induction false} SortedPairwise(s: seq<GlobalVar>, p: nat, q: nat)
    requires Sorted(s) && p <= q < |s|
    ensures !Less(s[q].tyName, s[p].tyName)
    decreases q - p
  {
    if p == q {
      LessIrreflexive(s[p].tyName);
    } else {
      SortedPairwise(s, p, q - 1);
      NotLessTransitive(s[p].tyName, s[q - 1].tyName, s[q].tyName);
    }
  }

  /** An entry counts as often in `s` as among the entries with its name. */
  lemma {:induction false} CountByName(s: seq<GlobalVar>, x: GlobalVar)
    ensures multiset(s)[x] == multiset(WithName(s, x.tyName))[x]
  {
    if s != [] {
      CountByName(s[1..], x);
      assert s == [s[0]] + s[1..];
    }
  }

  /** Sequences with the same entries name by name are permutations of each other. */
  lemma SameNamesPermutation(s: seq<GlobalVar>, t: seq<GlobalVar>)
    requires forall name :: WithName(s, name) == WithName(t, name)
    ensures multiset(s) == multiset(t)
  {
    forall x ensures multiset(s)[x] == multiset(t)[x] {
      CountByName(s, x);
      CountByName(t, x);
    }
  }

  /** An entry filtered by name is an entry of the sequence and has that name. */
  lemma {:induction false} WithNameMember(s: seq<GlobalVar>, name: seq<u8>, x: GlobalVar)
    requires x in WithName(s, name)
    ensures x in s && x.tyName == name
  {
    if s[0] != x || s[0].tyName != name {
      WithNameMember(s[1..], name, x);
    }
  }

  /**
   * A stable sort has one possible result: two sorted sequences with the
   * same entries name by name are equal. So the insertion sort's result is
   * the one any stable sort by name produces.
   */
  lemma {:induction false} StableSortUnique(s: seq<GlobalVar>, t: seq<GlobalVar>)
    requires Sorted(s) && Sorted(t)
    requires forall name :: WithName(s, name) == WithName(t, name)
    ensures s == t
    decreases |s|
  {
    SameNamesPermutation(s, t);
    assert |s| == |multiset(s)| == |multiset(t)| == |t|;
    if s != [] {
      var n1, n2 := s[0].tyName, t[0].tyName;
      assert WithName(s, n1) == [s[0]] + WithName(s[1..], n1);
      assert WithName(t, n2) == [t[0]] + WithName(t[1..], n2);
      WithNameMember(t, n1, s[0]);
      WithNameMember(s, n2, t[0]);
      SortedStartsLowest(t, s[0]);
      SortedStartsLowest(s, t[0]);
      LessTotal(n1, n2);
      assert n1 == n2;
      assert WithName(s, n1)[0] == s[0] && WithName(t, n1)[0] == t[0];
      forall name ensures WithName(s[1..], name) == WithName(t[1..], name) {
        var hs, ht := WithName(s, name), WithName(t, name);
        if name == n1 {
          assert WithName(s[1..], name) == hs[1..];
          assert WithName(t[1..], name) == ht[1..];
        } else {
          assert WithName(s[1..], name) == hs;
          assert WithName(t[1..], name) == ht;
        }
      }
      StableSortUnique(s[1..], t[1..]);
      assert s == [s[0]] + s[1..] && t == [t[0]] + t[1..];
    }
  }

  /** A sorted sequence starts with a name no greater than any of its entries' names. */
  lemma SortedStartsLowest(t: seq<GlobalVar>, x: GlobalVar)
    requires Sorted(t) && x in t
    ensures !Less(x.tyName, t[0].tyName)
  {
    var q :| 0 <= q < |t| && t[q] == x;
    SortedPairwise(t, 0, q);
  }
}
