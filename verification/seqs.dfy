/** Operations on sequences that the Java collections perform implicitly:
    removing the first equal element (`List.remove(Object)`,
    `Deque.remove(Object)`), and the notions used to state order properties. */
module Seqs {

  /** No element occurs twice. */
  predicate NoDup<T(==)>(s: seq<T>) {
    forall i, j :: 0 <= i < j < |s| ==> s[i] != s[j]
  }

  /** Index of the first occurrence of `x`, or `|s|` when `x` does not occur. */
  function IndexOf<T(==)>(s: seq<T>, x: T): (k: nat)
    ensures k <= |s|
    ensures k < |s| <==> x in s
    ensures k < |s| ==> s[k] == x
    ensures x !in s[..k]
  {
    if s == [] then 0
    else if s[0] == x then 0
    else
      assert s[1..][..IndexOf(s[1..], x)] == s[..IndexOf(s[1..], x) + 1][1..];
      1 + IndexOf(s[1..], x)
  }

  /** `s` without its first occurrence of `x` (unchanged when `x` is absent),
      as `java.util.Collection.remove(Object)` does. */
  function RemoveFirst<T(==)>(s: seq<T>, x: T): (r: seq<T>)
  {
    if s == [] then []
    else if s[0] == x then s[1..]
    else [s[0]] + RemoveFirst(s[1..], x)
  }

  /** `s` with every occurrence of `x` dropped. */
  function Without<T(==)>(s: seq<T>, x: T): (r: seq<T>)
  {
    if s == [] then []
    else if s[0] == x then Without(s[1..], x)
    else [s[0]] + Without(s[1..], x)
  }

  /** `a` is `b` with some elements deleted, the rest in their original order. */
  predicate Subseq<T(==)>(a: seq<T>, b: seq<T>)
    decreases |b|
  {
    if a == [] then true
    else if b == [] then false
    else if a[|a| - 1] == b[|b| - 1] then Subseq(a[..|a| - 1], b[..|b| - 1])
    else Subseq(a, b[..|b| - 1])
  }

  /** RemoveFirst cuts out exactly the element at the first occurrence. */
  lemma {:induction false} RemoveFirstSplit<T>(s: seq<T>, x: T)
    ensures x in s ==> RemoveFirst(s, x) == s[..IndexOf(s, x)] + s[IndexOf(s, x) + 1..]
    ensures x !in s ==> RemoveFirst(s, x) == s
  {
    if s != [] && s[0] != x {
      RemoveFirstSplit(s[1..], x);
      if x in s {
        assert x in s[1..];
        var k := IndexOf(s[1..], x);
        assert IndexOf(s, x) == k + 1;
        ConsSlices(s, k);
      } else {
        assert x !in s[1..];
      }
    }
  }

  /** Cutting position `k` out of the tail, then putting the head back, is
      cutting position `k + 1` out of the whole. */
  lemma ConsSlices<T>(s: seq<T>, k: nat)
    requires k + 1 < |s|
    ensures [s[0]] + (s[1..][..k] + s[1..][k + 1..]) == s[..k + 1] + s[k + 2..]
  {
    assert s[..k + 1] == [s[0]] + s[1..][..k];
    assert s[k + 2..] == s[1..][k + 1..];
  }

  /** Removing the first occurrence shortens by one exactly when `x` occurs,
      and takes exactly one copy of `x` out of the multiset of elements. */
  lemma {:induction false} RemoveFirstCount<T>(s: seq<T>, x: T)
    ensures |RemoveFirst(s, x)| == if x in s then |s| - 1 else |s|
    ensures multiset(RemoveFirst(s, x)) == multiset(s) - multiset{x}
  {
    if s != [] {
      HeadTail(s);
      if s[0] != x {
        RemoveFirstCount(s[1..], x);
        HeadTail([s[0]] + RemoveFirst(s[1..], x));
      }
    }
  }

  /** A non-empty sequence is its head followed by its tail. */
  lemma HeadTail<T>(s: seq<T>)
    requires s != []
    ensures s == [s[0]] + s[1..]
    ensures multiset(s) == multiset{s[0]} + multiset(s[1..])
    ensures forall y :: y in s <==> y == s[0] || y in s[1..]
  {
    assert s == [s[0]] + s[1..];
  }

  /** Removing one occurrence keeps the other elements and their order:
      disregarding `x`, nothing changed. */
  lemma {:induction false} RemoveFirstKeepsOthers<T>(s: seq<T>, x: T)
    ensures Without(RemoveFirst(s, x), x) == Without(s, x)
  {
    if s != [] && s[0] != x {
      RemoveFirstKeepsOthers(s[1..], x);
      assert ([s[0]] + RemoveFirst(s[1..], x))[1..] == RemoveFirst(s[1..], x);
    }
  }

  /** Without drops every copy of `x`, and only those. */
  lemma {:induction false} WithoutSpec<T>(s: seq<T>, x: T)
    ensures x !in Without(s, x)
    ensures forall y :: y != x ==> (y in Without(s, x) <==> y in s)
    ensures |Without(s, x)| <= |s|
  {
    if s != [] {
      WithoutSpec(s[1..], x);
    }
  }

  /** In a duplicate-free sequence, removing the first occurrence removes all
      of them, and the result is still duplicate-free. */
  lemma {:induction false} RemoveFirstNoDup<T>(s: seq<T>, x: T)
    requires NoDup(s)
    ensures RemoveFirst(s, x) == Without(s, x)
    ensures NoDup(RemoveFirst(s, x))
    ensures x !in RemoveFirst(s, x)
  {
    RemoveFirstSplit(s, x);
    if s != [] {
      assert NoDup(s[1..]);
      RemoveFirstNoDup(s[1..], x);
      if s[0] == x {
        assert x !in s[1..];
        WithoutAbsent(s[1..], x);
      } else {
        WithoutSpec(s[1..], x);
      }
    }
  }

  /** Every element of a subsequence is an element of the whole. */
  lemma {:induction false} SubseqMembers<T>(a: seq<T>, b: seq<T>)
    requires Subseq(a, b)
    ensures forall x :: x in a ==> x in b
    decreases |b|
  {
    if a != [] && b != [] {
      if a[|a| - 1] == b[|b| - 1] {
        SubseqMembers(a[..|a| - 1], b[..|b| - 1]);
        assert a == a[..|a| - 1] + [a[|a| - 1]];
        assert b == b[..|b| - 1] + [b[|b| - 1]];
      } else {
        SubseqMembers(a, b[..|b| - 1]);
        assert b == b[..|b| - 1] + [b[|b| - 1]];
      }
    }
  }

  /** A subsequence of a duplicate-free sequence is duplicate-free. */
  lemma {:induction false} SubseqNoDup<T>(a: seq<T>, b: seq<T>)
    requires Subseq(a, b) && NoDup(b)
    ensures NoDup(a)
    decreases |b|
  {
    if a != [] && b != [] {
      var b' := b[..|b| - 1];
      assert b == b' + [b[|b| - 1]];
      NoDupConcat(b', [b[|b| - 1]]);
      if a[|a| - 1] == b[|b| - 1] {
        var a' := a[..|a| - 1];
        SubseqNoDup(a', b');
        SubseqMembers(a', b');
        assert a == a' + [a[|a| - 1]];
        NoDupConcat(a', [a[|a| - 1]]);
      } else {
        SubseqNoDup(a, b');
      }
    }
  }

  /** A concatenation is duplicate-free exactly when both parts are and
      they share no element. */
  lemma NoDupConcat<T>(a: seq<T>, b: seq<T>)
    ensures NoDup(a + b) <==> NoDup(a) && NoDup(b) && forall x :: x in a ==> x !in b
  {
    var s := a + b;
    if NoDup(s) {
      assert s[..|a|] == a;
      forall i, j | 0 <= i < j < |b|
        ensures b[i] != b[j]
      {
        assert s[|a| + i] == b[i] && s[|a| + j] == b[j];
      }
    }
    if NoDup(a) && NoDup(b) && forall x :: x in a ==> x !in b {
      forall i, j | 0 <= i < j < |s|
        ensures s[i] != s[j]
      {
        if i < |a| && j >= |a| {
          assert s[i] in a && s[j] == b[j - |a|];
        } else if i >= |a| {
          assert s[i] == b[i - |a|] && s[j] == b[j - |a|];
        }
      }
    }
  }

  lemma {:induction false} WithoutAbsent<T>(s: seq<T>, x: T)
    requires x !in s
    ensures Without(s, x) == s
  {
    if s != [] {
      WithoutAbsent(s[1..], x);
    }
  }

  /** Dropping the last element of the smaller sequence keeps it a subsequence. */
  lemma {:induction false} SubseqDropLast<T>(a: seq<T>, b: seq<T>)
    requires a != [] && Subseq(a, b)
    ensures Subseq(a[..|a| - 1], b)
    decreases |b|, 0
  {
    var a' := a[..|a| - 1];
    if a' == [] {
    } else if a[|a| - 1] == b[|b| - 1] {
      SubseqExtend(a', b[..|b| - 1], b[|b| - 1]);
      assert b[..|b| - 1] + [b[|b| - 1]] == b;
    } else {
      SubseqDropLast(a, b[..|b| - 1]);
      SubseqExtend(a', b[..|b| - 1], b[|b| - 1]);
      assert b[..|b| - 1] + [b[|b| - 1]] == b;
    }
  }

  /** A subsequence of `b` is a subsequence of `b` with one more element. */
  lemma {:induction false} SubseqExtend<T>(a: seq<T>, b: seq<T>, y: T)
    requires Subseq(a, b)
    ensures Subseq(a, b + [y])
    decreases |b|, 1
  {
    if a != [] {
      assert (b + [y])[..|b|] == b;
      if a[|a| - 1] == y {
        SubseqDropLast(a, b);
      }
    }
  }

  /** Appending the same element to both sides keeps the subsequence relation. */
  lemma SubseqAppendBoth<T>(a: seq<T>, b: seq<T>, y: T)
    requires Subseq(a, b)
    ensures Subseq(a + [y], b + [y])
  {
    assert (a + [y])[..|a|] == a;
    assert (b + [y])[..|b|] == b;
  }

  /** A concatenation with a non-empty right part ends in that part's last element. */
  lemma AppendSplitLast<T>(a: seq<T>, b: seq<T>)
    requires b != []
    ensures a + b == (a + b[..|b| - 1]) + [b[|b| - 1]]
  {
    assert b == b[..|b| - 1] + [b[|b| - 1]];
  }

  /** The tail from `n` on, after one more element. */
  lemma DropAppend<T>(s: seq<T>, n: nat, x: T)
    requires n <= |s|
    ensures (s + [x])[n..] == s[n..] + [x]
  {
  }

  /** Appending an element outside a set that holds all the others keeps
      a sequence duplicate-free. */
  lemma NoDupAppendFresh<T>(s: seq<T>, x: T, used: set<T>)
    requires NoDup(s) && (forall n :: n in s ==> n in used) && x !in used
    ensures NoDup(s + [x])
  {
    NoDupConcat(s, [x]);
  }

  /** Cutting one position out of a duplicate-free sequence leaves a
      duplicate-free sequence without the cut element. */
  lemma NoDupCut<T>(s: seq<T>, k: nat)
    requires NoDup(s) && k < |s|
    ensures NoDup(s[..k] + s[k + 1..])
    ensures s[k] !in s[..k] + s[k + 1..]
  {
    var r := s[..k] + s[k + 1..];
    forall i, j | 0 <= i < j < |r|
      ensures r[i] != r[j]
    {
      var i' := if i < k then i else i + 1;
      var j' := if j < k then j else j + 1;
      assert r[i] == s[i'] && r[j] == s[j'];
    }
    forall i | 0 <= i < |r|
      ensures r[i] != s[k]
    {
      assert r[i] == s[if i < k then i else i + 1];
    }
  }
}
