/** Generic sequence operations behind the array methods the task list uses:
    `reverse`, `filter` and de-duplication through a `Set`, each with an
    index-based characterisation of what it keeps. Every operation recurses
    on the LAST element, the order in which the array methods visit and
    append, so that positions in the prefix never shift. */
module Sequences {

  /** `r` is the subsequence of `s` picked out by the strictly increasing
      positions `idx`. */
  ghost predicate IndexedSubsequence<T>(r: seq<T>, s: seq<T>, idx: seq<nat>)
  {
    && |idx| == |r|
    && (forall k :: 0 <= k < |idx| ==> idx[k] < |s| && r[k] == s[idx[k]])
    && (forall k, l :: 0 <= k < l < |idx| ==> idx[k] < idx[l])
  }

  /** No element occurs twice. */
  predicate NoDuplicates<T(==)>(s: seq<T>)
  {
    forall i, j :: 0 <= i < j < |s| ==> s[i] != s[j]
  }

  // ---------------------------------------------------------------- reverse

  /** The elements of `s` in the opposite order. */
  function Reverse<T>(s: seq<T>): (r: seq<T>)
    ensures |r| == |s|
    ensures forall k :: 0 <= k < |s| ==> r[k] == s[|s| - 1 - k]
  {
    if s == [] then [] else [s[|s| - 1]] + Reverse(s[..|s| - 1])
  }

  lemma ReverseReverse<T>(s: seq<T>)
    ensures Reverse(Reverse(s)) == s
  {
  }

  lemma {:induction false} ReverseMembers<T>(s: seq<T>)
    ensures forall x :: x in Reverse(s) <==> x in s
  {
    forall x | x in s ensures x in Reverse(s) {
      var k :| 0 <= k < |s| && s[k] == x;
      assert Reverse(s)[|s| - 1 - k] == x;
    }
  }

  // ----------------------------------------------------------------- filter

  /** The elements of `s` that satisfy `p`, in their original order. */
  function Keep<T(!new)>(s: seq<T>, p: T -> bool): (r: seq<T>)
    ensures |r| <= |s|
    ensures forall k :: 0 <= k < |r| ==> p(r[k])
    ensures forall x :: x in r <==> x in s && p(x)
  {
    if s == [] then []
    else
      assert s == s[..|s| - 1] + [s[|s| - 1]];
      Keep(s[..|s| - 1], p) + (if p(s[|s| - 1]) then [s[|s| - 1]] else [])
  }

  /** The positions of `s` whose element satisfies `p`, in increasing order. */
  function KeptIndices<T>(s: seq<T>, p: T -> bool): (idx: seq<nat>)
  {
    if s == [] then []
    else KeptIndices(s[..|s| - 1], p) + (if p(s[|s| - 1]) then [|s| - 1] else [])
  }

  /** `Keep(s, p)` is the subsequence of `s` at exactly the positions where
      `p` holds. */
  lemma {:induction false} KeepIsSubsequence<T(!new)>(s: seq<T>, p: T -> bool)
    ensures IndexedSubsequence(Keep(s, p), s, KeptIndices(s, p))
    ensures forall j: nat :: j < |s| ==> (j in KeptIndices(s, p) <==> p(s[j]))
  {
    if s != [] {
      var n := |s| - 1;
      KeepIsSubsequence(s[..n], p);
      var idx := KeptIndices(s[..n], p);
      assert forall k :: 0 <= k < |idx| ==> idx[k] < n;
      forall j: nat | j < |s| ensures j in KeptIndices(s, p) <==> p(s[j]) {
        if j < n {
          assert s[..n][j] == s[j];
        }
      }
    }
  }

  lemma {:induction false} KeepAll<T(!new)>(s: seq<T>, p: T -> bool)
    requires forall k :: 0 <= k < |s| ==> p(s[k])
    ensures Keep(s, p) == s
  {
    if s != [] {
      KeepAll(s[..|s| - 1], p);
    }
  }

  lemma {:induction false} KeepAppend<T(!new)>(s: seq<T>, t: seq<T>, p: T -> bool)
    ensures Keep(s + t, p) == Keep(s, p) + Keep(t, p)
    decreases |t|
  {
    if t == [] {
      assert s + t == s;
    } else {
      var n := |t| - 1;
      assert (s + t)[..|s + t| - 1] == s + t[..n];
      KeepAppend(s, t[..n], p);
    }
  }

  lemma {:induction false} KeepNone<T(!new)>(s: seq<T>, p: T -> bool)
    requires forall k :: 0 <= k < |s| ==> !p(s[k])
    ensures Keep(s, p) == []
  {
    if s != [] {
      KeepNone(s[..|s| - 1], p);
    }
  }

  /** When exactly one position satisfies `p`, only its element is kept. */
  lemma {:induction false} KeepOnly<T(!new)>(s: seq<T>, p: T -> bool, j: nat)
    requires j < |s| && p(s[j])
    requires forall i :: 0 <= i < |s| && i != j ==> !p(s[i])
    ensures Keep(s, p) == [s[j]]
  {
    var n := |s| - 1;
    if j == n {
      KeepNone(s[..n], p);
    } else {
      KeepOnly(s[..n], p, j);
    }
  }

  /** Dropping position `j` commutes with dropping the last element. */
  lemma DropBeforeLast<T>(s: seq<T>, j: nat)
    requires j < |s| - 1
    ensures s[..|s| - 1][..j] + s[..|s| - 1][j + 1..] + [s[|s| - 1]] == s[..j] + s[j + 1..]
  {
    var n := |s| - 1;
    assert s[..n][..j] == s[..j];
    assert s[..n][j + 1..] + [s[n]] == s[j + 1..];
  }

  /** When exactly one position fails `p`, everything but its element is kept. */
  lemma {:induction false} KeepDropsOne<T(!new)>(s: seq<T>, p: T -> bool, j: nat)
    requires j < |s| && !p(s[j])
    requires forall i :: 0 <= i < |s| && i != j ==> p(s[i])
    ensures Keep(s, p) == s[..j] + s[j + 1..]
  {
    var n := |s| - 1;
    var pre := s[..n];
    assert Keep(s, p) == Keep(pre, p) + (if p(s[n]) then [s[n]] else []);
    if j == n {
      assert forall k :: 0 <= k < |pre| ==> p(pre[k]);
      KeepAll(pre, p);
      assert s[..j] + s[j + 1..] == pre;
    } else {
      assert forall i :: 0 <= i < |pre| && i != j ==> p(pre[i]);
      KeepDropsOne(pre, p, j);
      DropBeforeLast(s, j);
    }
  }

  // ------------------------------------------------------------ de-duplicate

  /** The distinct elements of `s`, each kept at its first occurrence. */
  function Distinct<T(==,!new)>(s: seq<T>): (r: seq<T>)
    ensures NoDuplicates(r)
    ensures forall x :: x in r <==> x in s
  {
    if s == [] then []
    else
      assert s == s[..|s| - 1] + [s[|s| - 1]];
      var r := Distinct(s[..|s| - 1]);
      if s[|s| - 1] in r then r else r + [s[|s| - 1]]
  }

  /** The positions of `s` whose element does not occur earlier. */
  function FirstOccurrences<T(==)>(s: seq<T>): (idx: seq<nat>)
  {
    if s == [] then []
    else FirstOccurrences(s[..|s| - 1]) + (if s[|s| - 1] in s[..|s| - 1] then [] else [|s| - 1])
  }

  /** `Distinct(s)` is the subsequence of `s` at exactly the first
      occurrences, so it keeps the order of first appearance. */
  lemma {:induction false} DistinctIsFirstOccurrences<T(!new)>(s: seq<T>)
    ensures IndexedSubsequence(Distinct(s), s, FirstOccurrences(s))
    ensures forall j: nat :: j < |s| ==> (j in FirstOccurrences(s) <==> s[j] !in s[..j])
  {
    if s != [] {
      var n := |s| - 1;
      var pre := s[..n];
      DistinctIsFirstOccurrences(pre);
      SubsequenceOfPrefix(Distinct(pre), s, FirstOccurrences(pre), n);
      var last := if s[n] in pre then [] else [n];
      assert Distinct(s) == Distinct(pre) + (if s[n] in pre then [] else [s[n]]);
      assert FirstOccurrences(s) == FirstOccurrences(pre) + last;
      forall j: nat | j < |s| ensures j in FirstOccurrences(s) <==> s[j] !in s[..j] {
        if j < n {
          assert pre[j] == s[j] && pre[..j] == s[..j];
          assert j in FirstOccurrences(s) <==> j in FirstOccurrences(pre);
        } else {
          assert pre == s[..j];
        }
      }
    }
  }

  /** A subsequence of a prefix of `s` is a subsequence of `s`. */
  lemma SubsequenceOfPrefix<T>(r: seq<T>, s: seq<T>, idx: seq<nat>, n: nat)
    requires n <= |s| && IndexedSubsequence(r, s[..n], idx)
    ensures IndexedSubsequence(r, s, idx)
    ensures forall k :: 0 <= k < |idx| ==> idx[k] < n
    ensures n < |s| ==> IndexedSubsequence(r + [s[n]], s, idx + [n])
  {
  }

  /** A sequence without duplicates is its own de-duplication. */
  lemma {:induction false} DistinctOfNoDuplicates<T(!new)>(s: seq<T>)
    requires NoDuplicates(s)
    ensures Distinct(s) == s
  {
    if s != [] {
      var n := |s| - 1;
      DistinctOfNoDuplicates(s[..n]);
      assert s[n] !in s[..n];
    }
  }
}
