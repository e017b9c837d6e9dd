/** Sequence helpers shared by the tour operators: the Python list edits
    `pop`, `insert` and the filtering comprehension, and the facts about
    multisets that make "a tour stays a permutation" provable. */
module Sequences {

  /** No element occurs twice. */
  predicate Distinct<T(==)>(s: seq<T>) {
    forall i, j :: 0 <= i < j < |s| ==> s[i] != s[j]
  }

  /** The list with the elements at `i` and `j` exchanged. */
  function Swapped<T>(s: seq<T>, i: nat, j: nat): (r: seq<T>)
    requires i < |s| && j < |s|
    ensures |r| == |s| && r[i] == s[j] && r[j] == s[i]
    ensures forall k :: 0 <= k < |s| && k != i && k != j ==> r[k] == s[k]
  {
    s[i := s[j]][j := s[i]]
  }

  /** Exchanging two elements keeps the same elements. */
  lemma SwappedPermutation<T>(s: seq<T>, i: nat, j: nat)
    requires i < |s| && j < |s|
    ensures multiset(Swapped(s, i, j)) == multiset(s)
  {
  }

  /** `list.pop(k)`: the list without its element at index `k`. */
  function Remove<T>(s: seq<T>, k: nat): (r: seq<T>)
    requires k < |s|
    ensures |r| == |s| - 1
  {
    s[..k] + s[k + 1..]
  }

  /** `list.insert(k, x)` for an index within the list: `x` lands at index `k`. */
  function Insert<T>(s: seq<T>, k: nat, x: T): (r: seq<T>)
    requires k <= |s|
    ensures |r| == |s| + 1 && r[k] == x
  {
    s[..k] + [x] + s[k..]
  }

  /** The comprehension `[c for c in s if c not in cut]`, order kept. */
  function Without<T(==,!new)>(s: seq<T>, cut: seq<T>): (r: seq<T>)
    ensures |r| <= |s|
  {
    if s == [] then []
    else (if s[0] in cut then [] else [s[0]]) + Without(s[1..], cut)
  }

  /** Filtering keeps exactly the elements that are not cut. */
  lemma {:induction false} WithoutMembers<T(!new)>(s: seq<T>, cut: seq<T>, x: T)
    ensures x in Without(s, cut) <==> x in s && x !in cut
  {
    if s != [] {
      WithoutMembers(s[1..], cut, x);
      assert s == [s[0]] + s[1..];
    }
  }

  /** Inserting an element and popping it again gives the list back. */
  lemma RemoveInsert<T>(s: seq<T>, k: nat, x: T)
    requires k <= |s|
    ensures Remove(Insert(s, k, x), k) == s
  {
    var t := Insert(s, k, x);
    assert t[..k] == s[..k] && t[k + 1..] == s[k..];
    assert s == s[..k] + s[k..];
  }

  /** In a duplicate-free sequence every element occurs exactly once. */
  lemma {:induction false} DistinctCount<T>(s: seq<T>, x: T)
    requires Distinct(s)
    ensures multiset(s)[x] == if x in s then 1 else 0
  {
    if s != [] {
      assert Distinct(s[1..]) by {
        forall i, j | 0 <= i < j < |s[1..]| ensures s[1..][i] != s[1..][j] {
          assert s[1..][i] == s[i + 1] && s[1..][j] == s[j + 1];
        }
      }
      DistinctCount(s[1..], x);
      assert s == [s[0]] + s[1..];
      if x == s[0] {
        forall j | 0 <= j < |s[1..]| ensures s[1..][j] != x {
          assert s[1..][j] == s[j + 1];
        }
      }
    }
  }

  /** A contiguous slice of a duplicate-free sequence is duplicate-free. */
  lemma SliceDistinct<T>(s: seq<T>, lo: nat, hi: nat)
    requires lo <= hi <= |s| && Distinct(s)
    ensures Distinct(s[lo..hi])
  {
    forall i, j | 0 <= i < j < hi - lo ensures s[lo..hi][i] != s[lo..hi][j] {
      assert s[lo..hi][i] == s[lo + i] && s[lo..hi][j] == s[lo + j];
    }
  }

  /** Filtering drops every copy of the cut cities and keeps every copy of the others. */
  lemma {:induction false} WithoutCount<T(!new)>(s: seq<T>, cut: seq<T>, x: T)
    ensures multiset(Without(s, cut))[x] == if x in cut then 0 else multiset(s)[x]
  {
    if s != [] {
      WithoutCount(s[1..], cut, x);
      assert s == [s[0]] + s[1..];
    }
  }

  /** When every cut city occurs exactly once in `s` and the cut is duplicate-free,
      filtering removes exactly the cut. */
  lemma WithoutMultiset<T(!new)>(s: seq<T>, cut: seq<T>)
    requires Distinct(cut)
    requires forall x :: x in cut ==> multiset(s)[x] == 1
    ensures multiset(Without(s, cut)) + multiset(cut) == multiset(s)
    ensures |Without(s, cut)| == |s| - |cut|
  {
    forall x ensures (multiset(Without(s, cut)) + multiset(cut))[x] == multiset(s)[x] {
      WithoutCount(s, cut, x);
      DistinctCount(cut, x);
    }
    assert multiset(Without(s, cut)) + multiset(cut) == multiset(s);
    assert |multiset(Without(s, cut))| + |multiset(cut)| == |multiset(s)|;
  }

  /** Two equal elements at distinct indices occur at least twice. */
  lemma PairCount<T>(s: seq<T>, i: nat, j: nat)
    requires i < j < |s| && s[i] == s[j]
    ensures multiset(s)[s[i]] >= 2
  {
    assert s == s[..i] + [s[i]] + s[i + 1..j] + [s[j]] + s[j + 1..];
  }

  /** A rearrangement of a duplicate-free sequence is duplicate-free. */
  lemma PermutationDistinct<T>(a: seq<T>, b: seq<T>)
    requires Distinct(a) && multiset(a) == multiset(b)
    ensures Distinct(b)
  {
    forall i, j | 0 <= i < j < |b| ensures b[i] != b[j] {
      DistinctCount(a, b[i]);
      if b[i] == b[j] {
        PairCount(b, i, j);
        assert false;
      }
    }
  }

  /** `f` applied to every element, in order. */
  function Map<T, U>(s: seq<T>, f: T -> U): (r: seq<U>)
    ensures |r| == |s| && forall k :: 0 <= k < |s| ==> r[k] == f(s[k])
  {
    seq(|s|, k requires 0 <= k < |s| => f(s[k]))
  }

  /** Taking the first element out of one of two rearrangements of each
      other, and the same element out of the other, leaves rearrangements. */
  lemma RemoveOne<T>(a: seq<T>, b: seq<T>, p: nat)
    requires multiset(a) == multiset(b) && p < |b| && a != [] && b[p] == a[0]
    ensures multiset(a[1..]) == multiset(b[..p] + b[p + 1..])
  {
    var rest := b[..p] + b[p + 1..];
    assert a == [a[0]] + a[1..];
    assert b == b[..p] + [b[p]] + b[p + 1..];
    assert multiset(b) == multiset(rest) + multiset{a[0]};
    forall y ensures multiset(a[1..])[y] == multiset(rest)[y] {
      assert multiset(a)[y] == multiset(a[1..])[y] + multiset{a[0]}[y];
    }
  }

  /** The image of a concatenation is the concatenation of the images. */
  lemma MapAppend<T, U>(x: seq<T>, y: seq<T>, f: T -> U)
    ensures Map(x + y, f) == Map(x, f) + Map(y, f)
  {
  }

  /** The image of a non-empty sequence: the image of its head, then of its tail. */
  lemma MapCons<T, U>(s: seq<T>, f: T -> U)
    requires s != []
    ensures Map(s, f) == [f(s[0])] + Map(s[1..], f)
  {
  }

  /** The image of a sequence split around index `p`. */
  lemma MapSplit<T, U>(s: seq<T>, p: nat, f: T -> U)
    requires p < |s|
    ensures Map(s, f) == Map(s[..p], f) + [f(s[p])] + Map(s[p + 1..], f)
  {
    assert s == s[..p] + [s[p]] + s[p + 1..];
  }

  /** Rearranging a sequence rearranges its image the same way. */
  lemma {:induction false} MapPermutation<T, U>(a: seq<T>, b: seq<T>, f: T -> U)
    requires multiset(a) == multiset(b)
    ensures multiset(Map(a, f)) == multiset(Map(b, f))
  {
    if a == [] {
      assert |multiset(b)| == 0;
    } else {
      var x := a[0];
      assert x in multiset(b);
      var p :| 0 <= p < |b| && b[p] == x;
      var front, back := b[..p], b[p + 1..];
      RemoveOne(a, b, p);
      MapPermutation(a[1..], front + back, f);
      MapCons(a, f);
      MapSplit(b, p, f);
      MapAppend(front, back, f);
      var mf, mb := Map(front, f), Map(back, f);
      calc {
        multiset(Map(a, f));
        multiset([f(x)] + Map(a[1..], f));
        multiset{f(x)} + multiset(Map(front + back, f));
        multiset{f(x)} + multiset(mf + mb);
        multiset(mf + [f(x)] + mb);
        multiset(Map(b, f));
      }
    }
  }
}
