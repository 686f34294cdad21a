/** Go's in-place sorts as the tools use them: `sort.Sort` over
    `HelpLineSorter` (help lines by name) and `sort.Strings`. Both reorder a
    slice so that the keys ascend; neither promises an order among equal
    keys, so the contract below is "ascending and a permutation". */
module Sorting {
  import opened Text

  /** The keys of `s` ascend: no element is Less than one before it. */
  predicate SortedBy<T>(s: seq<T>, key: T -> string)
  {
    forall i, j :: 0 <= i < j < |s| ==> StrLe(key(s[i]), key(s[j]))
  }

  /** The key `sort.Strings` orders by: the string itself. */
  function Identity(s: string): string
  {
    s
  }

  /** HelpLineSorter.Swap: exchanges two elements. */
  method Swap<T>(a: array<T>, i: int, j: int)
    requires 0 <= i < a.Length && 0 <= j < a.Length
    modifies a
    ensures a[i] == old(a[j]) && a[j] == old(a[i])
    ensures forall k :: 0 <= k < a.Length && k != i && k != j ==> a[k] == old(a[k])
    ensures multiset(a[..]) == multiset(old(a[..]))
  {
    a[i], a[j] := a[j], a[i];
  }

  /** Sorts `a` in place by `key`, using only Less and Swap. */
  method SortBy<T>(a: array<T>, key: T -> string)
    modifies a
    ensures SortedBy(a[..], key)
    ensures multiset(a[..]) == multiset(old(a[..]))
  {
    var i := 0;
    while i < a.Length
      invariant 0 <= i <= a.Length
      invariant forall p, q :: 0 <= p < q < i ==> StrLe(key(a[p]), key(a[q]))
      invariant multiset(a[..]) == multiset(old(a[..]))
    {
      var j := i;
      while j > 0 && !StrLe(key(a[j - 1]), key(a[j]))
        invariant 0 <= j <= i
        invariant forall p, q :: 0 <= p < q <= i && p != j && q != j ==> StrLe(key(a[p]), key(a[q]))
        invariant forall q :: j < q <= i ==> StrLe(key(a[j]), key(a[q]))
        invariant multiset(a[..]) == multiset(old(a[..]))
      {
        StrLeTotal(key(a[j - 1]), key(a[j]));
        Swap(a, j - 1, j);
        j := j - 1;
      }
      forall p, q | 0 <= p < q <= i
        ensures StrLe(key(a[p]), key(a[q]))
      {
        if q == j && p < j - 1 {
          StrLeTransitive(key(a[p]), key(a[j - 1]), key(a[j]));
        }
      }
      i := i + 1;
    }
  }

  /** Strings have only one ascending order: two ascending permutations of
      the same strings are equal, so the unstable sort's output is determined. */
  lemma {:induction false} SortedPermutationUnique(a: seq<string>, b: seq<string>)
    requires SortedBy(a, Identity) && SortedBy(b, Identity)
    requires multiset(a) == multiset(b)
    ensures a == b
  {
    if a != [] {
      assert |b| == |a| by { assert |multiset(a)| == |multiset(b)|; }
      assert a[0] in multiset(b);
      assert b[0] in multiset(a);
      HeadIsLeast(b, a[0]);
      HeadIsLeast(a, b[0]);
      StrLeAntisymmetric(a[0], b[0]);
      DropHead(a);
      DropHead(b);
      SortedPermutationUnique(a[1..], b[1..]);
      assert a == [a[0]] + a[1..] && b == [b[0]] + b[1..];
    }
  }

  /** The first element of an ascending sequence is its least. */
  lemma HeadIsLeast(s: seq<string>, x: string)
    requires SortedBy(s, Identity) && x in s
    ensures StrLe(s[0], x)
  {
    var k :| 0 <= k < |s| && s[k] == x;
    if k == 0 {
      StrLeReflexive(x);
    } else {
      assert StrLe(Identity(s[0]), Identity(s[k]));
    }
  }

  /** Dropping the first element keeps a sequence ascending and removes one
      occurrence of that element. */
  lemma DropHead(s: seq<string>)
    requires SortedBy(s, Identity) && s != []
    ensures SortedBy(s[1..], Identity)
    ensures multiset(s[1..]) == multiset(s) - multiset{s[0]}
  {
    assert s == [s[0]] + s[1..];
    forall i, j | 0 <= i < j < |s[1..]|
      ensures StrLe(Identity(s[1..][i]), Identity(s[1..][j]))
    {
      assert s[1..][i] == s[i + 1] && s[1..][j] == s[j + 1];
    }
  }

  /** `x` inserted into the ascending `s` before the first larger element. */
  function Insert(x: string, s: seq<string>): (r: seq<string>)
    ensures multiset(r) == multiset(s) + multiset{x}
  {
    if s == [] || StrLe(x, s[0]) then [x] + s
    else
      var t := Insert(x, s[1..]);
      assert s == [s[0]] + s[1..];
      [s[0]] + t
  }

  /** A reference sort of strings (insertion sort on values), against which
      the in-place sort's result is stated. */
  function SortStrings(s: seq<string>): (r: seq<string>)
    ensures multiset(r) == multiset(s)
  {
    if s == [] then []
    else
      assert s == [s[0]] + s[1..];
      Insert(s[0], SortStrings(s[1..]))
  }

  /** An element no greater than any of an ascending sequence's elements
      may be put in front of it. */
  lemma ConsSorted(h: string, t: seq<string>)
    requires SortedBy(t, Identity)
    requires forall y :: y in multiset(t) ==> StrLe(h, y)
    ensures SortedBy([h] + t, Identity)
  {
    var r := [h] + t;
    forall i, j | 0 <= i < j < |r| ensures StrLe(r[i], r[j]) {
      if i == 0 {
        assert r[j] == t[j - 1] && t[j - 1] in multiset(t);
      } else {
        assert StrLe(Identity(t[i - 1]), Identity(t[j - 1]));
      }
    }
  }

  /** Inserting keeps a sequence ascending. */
  lemma {:induction false} InsertSorted(x: string, s: seq<string>)
    requires SortedBy(s, Identity)
    ensures SortedBy(Insert(x, s), Identity)
  {
    if s == [] || StrLe(x, s[0]) {
      forall y | y in multiset(s) ensures StrLe(x, y) {
        HeadIsLeast(s, y);
        StrLeTransitive(x, s[0], y);
      }
      ConsSorted(x, s);
    } else {
      StrLeTotal(x, s[0]);
      DropHead(s);
      InsertSorted(x, s[1..]);
      var t := Insert(x, s[1..]);
      forall y | y in multiset(t) ensures StrLe(s[0], y) {
        if y != x {
          assert y in multiset(s[1..]);
          HeadIsLeast(s, y);
        }
      }
      ConsSorted(s[0], t);
    }
  }

  /** The reference sort's result is ascending. */
  lemma {:induction false} SortStringsSorted(s: seq<string>)
    ensures SortedBy(SortStrings(s), Identity)
  {
    if s != [] {
      SortStringsSorted(s[1..]);
      InsertSorted(s[0], SortStrings(s[1..]));
    }
  }
}
