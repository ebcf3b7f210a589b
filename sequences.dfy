/** Value-level specifications of the list algorithms: reversal, palindromes,
    ascending order and the stable merge of two ascending sequences. */
module Sequences {

  /** The sequence read back to front. */
  function Reverse<T>(s: seq<T>): (r: seq<T>)
    ensures |r| == |s|
  {
    if s == [] then [] else Reverse(s[1..]) + [s[0]]
  }

  /** Position k of the reversal holds the element k places from the end. */
  lemma {:induction false} ReverseAt<T>(s: seq<T>, k: nat)
    requires k < |s|
    ensures Reverse(s)[k] == s[|s| - 1 - k]
  {
    if k < |s| - 1 {
      ReverseAt(s[1..], k);
    }
  }

  /** Reversing twice gives the sequence back. */
  lemma ReverseInvolution<T>(s: seq<T>)
    ensures Reverse(Reverse(s)) == s
  {
    var n := |s|;
    forall k | 0 <= k < n
      ensures Reverse(Reverse(s))[k] == s[k]
    {
      ReverseAt(Reverse(s), k);
      ReverseAt(s, n - 1 - k);
    }
  }

  /** Reversal keeps every element, duplicates included. */
  lemma {:induction false} ReversePermutation<T>(s: seq<T>)
    ensures multiset(Reverse(s)) == multiset(s)
  {
    if s != [] {
      ReversePermutation(s[1..]);
      assert s == [s[0]] + s[1..];
    }
  }

  /** Reversing a sequence with x appended puts x in front. */
  lemma {:induction false} ReverseSnoc<T>(s: seq<T>, x: T)
    ensures Reverse(s + [x]) == [x] + Reverse(s)
  {
    if s != [] {
      assert (s + [x])[1..] == s[1..] + [x];
      ReverseSnoc(s[1..], x);
    }
  }

  /** Empty and one-element sequences are their own reversal. */
  lemma ReverseShort<T>(s: seq<T>)
    requires |s| <= 1
    ensures Reverse(s) == s
  {
    if |s| == 1 {
      assert Reverse(s) == Reverse(s[1..]) + [s[0]];
    }
  }

  /** A sequence that reads the same in both directions. */
  predicate Palindrome<T(==)>(s: seq<T>) {
    s == Reverse(s)
  }

  /** Comparing the first half against the mirrored second half decides
      the palindrome property. */
  lemma PalindromeByHalves<T>(s: seq<T>)
    ensures Palindrome(s) <==> forall i :: 0 <= i < |s| / 2 ==> s[i] == s[|s| - 1 - i]
  {
    var n := |s|;
    if forall i :: 0 <= i < n / 2 ==> s[i] == s[n - 1 - i] {
      forall k | 0 <= k < n
        ensures Reverse(s)[k] == s[k]
      {
        ReverseAt(s, k);
        if k >= n / 2 && n - 1 - k < n / 2 {
          assert s[n - 1 - k] == s[n - 1 - (n - 1 - k)];
        }
      }
    }
    if Palindrome(s) {
      forall i | 0 <= i < n / 2
        ensures s[i] == s[n - 1 - i]
      {
        ReverseAt(s, i);
      }
    }
  }

  /** Nondecreasing order. */
  predicate Sorted(s: seq<int>) {
    forall i, j :: 0 <= i < j < |s| ==> s[i] <= s[j]
  }

  /** The stable merge of two ascending sequences: the smaller head goes
      first, and on a tie the head of a goes first. */
  function Merge(a: seq<int>, b: seq<int>): (r: seq<int>)
    ensures |r| == |a| + |b|
    decreases |a| + |b|
  {
    if a == [] then b
    else if b == [] then a
    else if a[0] <= b[0] then [a[0]] + Merge(a[1..], b)
    else [b[0]] + Merge(a, b[1..])
  }

  /** When a's head goes first, the merge is that head and then the merge
      of the rest. */
  lemma MergeTakeLeft(a: seq<int>, b: seq<int>)
    requires a != [] && (b == [] || a[0] <= b[0])
    ensures Merge(a, b) == [a[0]] + Merge(a[1..], b)
  {
    if b == [] {
      assert Merge(a[1..], b) == a[1..];
      assert a == [a[0]] + a[1..];
    }
  }

  /** When b's head goes first, the merge is that head and then the merge
      of a with the rest of b. */
  lemma MergeTakeRight(a: seq<int>, b: seq<int>)
    requires b != [] && (a == [] || a[0] > b[0])
    ensures Merge(a, b) == [b[0]] + Merge(a, b[1..])
  {
    if a == [] {
      assert b == [b[0]] + b[1..];
    }
  }

  /** The merge keeps every element of both inputs, duplicates included. */
  lemma {:induction false} MergePermutation(a: seq<int>, b: seq<int>)
    ensures multiset(Merge(a, b)) == multiset(a) + multiset(b)
    decreases |a| + |b|
  {
    if a != [] && b != [] {
      if a[0] <= b[0] {
        var rest := a[1..];
        MergePermutation(rest, b);
        MergeTakeLeft(a, b);
        ConsMultiset(a[0], rest, a);
        ConsMultiset(a[0], Merge(rest, b), Merge(a, b));
      } else {
        var rest := b[1..];
        MergePermutation(a, rest);
        MergeTakeRight(a, b);
        ConsMultiset(b[0], rest, b);
        ConsMultiset(b[0], Merge(a, rest), Merge(a, b));
      }
    }
  }

  /** The elements of a sequence with a head in front. */
  lemma ConsMultiset(x: int, s: seq<int>, t: seq<int>)
    requires t == [x] + s
    ensures multiset(t) == multiset{x} + multiset(s)
  {
  }

  /** A bound below the heads of two ascending sequences bounds their merge. */
  lemma MergeBelow(x: int, a: seq<int>, b: seq<int>)
    requires Sorted(a) && Sorted(b)
    requires (a == [] || x <= a[0]) && (b == [] || x <= b[0])
    ensures forall j :: 0 <= j < |Merge(a, b)| ==> x <= Merge(a, b)[j]
  {
    var r := Merge(a, b);
    MergePermutation(a, b);
    forall j | 0 <= j < |r|
      ensures x <= r[j]
    {
      assert r[j] in multiset(r);
      if r[j] in multiset(a) {
        assert r[j] in a;
      } else {
        assert r[j] in b;
      }
    }
  }

  /** A value no larger than anything in an ascending sequence may go in front. */
  lemma SortedCons(x: int, s: seq<int>)
    requires Sorted(s) && forall j :: 0 <= j < |s| ==> x <= s[j]
    ensures Sorted([x] + s)
  {
  }

  /** The merge of two ascending sequences is ascending. */
  lemma {:induction false} MergeSorted(a: seq<int>, b: seq<int>)
    requires Sorted(a) && Sorted(b)
    ensures Sorted(Merge(a, b))
    decreases |a| + |b|
  {
    if a != [] && b != [] {
      if a[0] <= b[0] {
        MergeSorted(a[1..], b);
        MergeBelow(a[0], a[1..], b);
        SortedCons(a[0], Merge(a[1..], b));
      } else {
        MergeSorted(a, b[1..]);
        MergeBelow(b[0], a, b[1..]);
        SortedCons(b[0], Merge(a, b[1..]));
      }
    }
  }

  /** Merging with an empty side returns the other side. */
  lemma MergeEmpty(a: seq<int>)
    ensures Merge(a, []) == a && Merge([], a) == a
  {
  }
}
