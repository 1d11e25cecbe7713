/**
 Sequence operations shared by both scripts: order-preserving filtering (list
 comprehensions with an `if`), first-occurrence deduplication by a key (the
 `seen` set of `deduplicate` and the insertion order of the shell dictionary),
 flattening of a list of lists, and `list(set(...))`.
 */
module Sequences {

  /** `a` is obtained from `b` by deleting elements; the test matches from the back. */
  ghost predicate IsSubseq<T>(a: seq<T>, b: seq<T>)
    decreases |b|
  {
    if |a| == 0 then true
    else if |b| == 0 then false
    else if a[|a| - 1] == b[|b| - 1] then IsSubseq(a[..|a| - 1], b[..|b| - 1])
    else IsSubseq(a, b[..|b| - 1])
  }

  /** Appending to the larger sequence keeps a subsequence a subsequence. */
  lemma {:induction false} SubseqExtend<T>(a: seq<T>, b: seq<T>, x: T)
    requires IsSubseq(a, b)
    ensures IsSubseq(a, b + [x])
    decreases |b|, 1
  {
    var bx := b + [x];
    assert bx[..|bx| - 1] == b;
    if |a| > 0 && a[|a| - 1] == x {
      SubseqDropLast(a, b);
    }
  }

  /** Dropping the last element of a subsequence keeps it a subsequence. */
  lemma {:induction false} SubseqDropLast<T>(a: seq<T>, b: seq<T>)
    requires |a| > 0 && IsSubseq(a, b)
    ensures IsSubseq(a[..|a| - 1], b)
    decreases |b|, 0
  {
    var a', b', y := a[..|a| - 1], b[..|b| - 1], b[|b| - 1];
    assert b' + [y] == b;
    if a[|a| - 1] != y {
      SubseqDropLast(a, b');
    }
    SubseqExtend(a', b', y);
  }

  /** Appending the same element to both sides keeps a subsequence a subsequence. */
  lemma SubseqAppendBoth<T>(a: seq<T>, b: seq<T>, x: T)
    requires IsSubseq(a, b)
    ensures IsSubseq(a + [x], b + [x])
  {
    assert (a + [x])[..|a|] == a;
    assert (b + [x])[..|b|] == b;
  }

  /** `[x for x in s if p(x)]`: the elements of `s` that satisfy `p`, in order, with their multiplicities. */
  function Filter<T(!new)>(s: seq<T>, p: T -> bool): (r: seq<T>)
    ensures |r| <= |s|
    ensures forall x :: x in r <==> x in s && p(x)
  {
    if |s| == 0 then []
    else
      var init, last := s[..|s| - 1], s[|s| - 1];
      assert s == init + [last];
      var rest := Filter(init, p);
      if p(last) then rest + [last] else rest
  }

  /** Filtering keeps every occurrence of an element that satisfies `p` and none of the others. */
  lemma {:induction false} FilterCounts<T(!new)>(s: seq<T>, p: T -> bool)
    ensures forall x :: multiset(Filter(s, p))[x] == if p(x) then multiset(s)[x] else 0
  {
    if |s| > 0 {
      var init, last := s[..|s| - 1], s[|s| - 1];
      assert s == init + [last];
      FilterCounts(init, p);
    }
  }

  lemma {:induction false} FilterNone<T(!new)>(s: seq<T>, p: T -> bool)
    requires forall x :: x in s ==> !p(x)
    ensures Filter(s, p) == []
  {
    if |s| > 0 {
      var init := s[..|s| - 1];
      assert forall x :: x in init ==> x in s;
      FilterNone(init, p);
    }
  }

  lemma FilterAppend<T(!new)>(s: seq<T>, x: T, p: T -> bool)
    ensures Filter(s + [x], p) == if p(x) then Filter(s, p) + [x] else Filter(s, p)
  {
    assert (s + [x])[..|s|] == s;
  }

  /** A filtered list keeps the order of its input. */
  lemma {:induction false} FilterIsSubseq<T(!new)>(s: seq<T>, p: T -> bool)
    ensures IsSubseq(Filter(s, p), s)
  {
    if |s| > 0 {
      var init, last := s[..|s| - 1], s[|s| - 1];
      assert s == init + [last];
      FilterIsSubseq(init, p);
      if p(last) {
        SubseqAppendBoth(Filter(init, p), init, last);
      } else {
        SubseqExtend(Filter(init, p), init, last);
      }
    }
  }

  /** The key of every element, in order. */
  function Keys<T, K>(s: seq<T>, key: T -> K): seq<K>
  {
    seq(|s|, i requires 0 <= i < |s| => key(s[i]))
  }

  lemma KeysAppend<T, K>(s: seq<T>, x: T, key: T -> K)
    ensures Keys(s + [x], key) == Keys(s, key) + [key(x)]
  {
  }

  /**
   The first element of each key, in input order: the loop that keeps a `seen`
   set of keys and appends an element only when its key is new.
   */
  function Dedup<T, K(==,!new)>(s: seq<T>, key: T -> K): (r: seq<T>)
    ensures |r| <= |s|
    ensures forall k :: k in Keys(r, key) <==> k in Keys(s, key)
    ensures forall i, j :: 0 <= i < j < |r| ==> key(r[i]) != key(r[j])
  {
    if |s| == 0 then []
    else
      var init, last := s[..|s| - 1], s[|s| - 1];
      assert s == init + [last];
      KeysAppend(init, last, key);
      var rest := Dedup(init, key);
      if key(last) in Keys(rest, key) then rest
      else
        KeysAppend(rest, last, key);
        assert forall i :: 0 <= i < |rest| ==> Keys(rest, key)[i] == key(rest[i]);
        rest + [last]
  }

  lemma DedupAppend<T, K(!new)>(s: seq<T>, x: T, key: T -> K)
    ensures Dedup(s + [x], key) ==
              if key(x) in Keys(Dedup(s, key), key) then Dedup(s, key) else Dedup(s, key) + [x]
  {
    assert (s + [x])[..|s|] == s;
  }

  /** `s[j]` is the first element of `s` with its key. */
  ghost predicate FirstOfKey<T, K>(s: seq<T>, key: T -> K, j: int)
  {
    0 <= j < |s| && forall k :: 0 <= k < j ==> key(s[k]) != key(s[j])
  }

  /** The key of the last element is new exactly when no earlier element has it. */
  lemma LastKeyIsNew<T, K(!new)>(s: seq<T>, key: T -> K)
    requires |s| > 0
    ensures key(s[|s| - 1]) !in Keys(Dedup(s[..|s| - 1], key), key) <==> FirstOfKey(s, key, |s| - 1)
  {
    var init, last := s[..|s| - 1], s[|s| - 1];
    if key(last) in Keys(init, key) {
      var k :| 0 <= k < |init| && Keys(init, key)[k] == key(last);
      assert key(s[k]) == key(last);
    }
    if !FirstOfKey(s, key, |s| - 1) {
      var k :| 0 <= k < |s| - 1 && key(s[k]) == key(last);
      assert Keys(init, key)[k] == key(last);
    }
  }

  /** Every element deduplication keeps is the first of its key in the input. */
  lemma {:induction false} DedupKeepsOnlyFirst<T, K(!new)>(s: seq<T>, key: T -> K)
    ensures forall x :: x in Dedup(s, key) ==> exists j :: FirstOfKey(s, key, j) && s[j] == x
  {
    if |s| > 0 {
      var init, last := s[..|s| - 1], s[|s| - 1];
      assert s == init + [last];
      DedupKeepsOnlyFirst(init, key);
      DedupAppend(init, last, key);
      LastKeyIsNew(s, key);
      var rest := Dedup(init, key);
      forall x | x in Dedup(s, key) ensures exists j :: FirstOfKey(s, key, j) && s[j] == x {
        if x in rest {
          var j :| FirstOfKey(init, key, j) && init[j] == x;
          assert forall k :: 0 <= k <= j ==> s[k] == init[k];
          assert FirstOfKey(s, key, j) && s[j] == x;
        } else {
          assert FirstOfKey(s, key, |s| - 1) && s[|s| - 1] == x;
        }
      }
    }
  }

  /** Deduplication keeps the first element of every key. */
  lemma {:induction false} DedupKeepsEveryFirst<T, K(!new)>(s: seq<T>, key: T -> K)
    ensures forall j :: FirstOfKey(s, key, j) ==> s[j] in Dedup(s, key)
  {
    if |s| > 0 {
      var init, last := s[..|s| - 1], s[|s| - 1];
      assert s == init + [last];
      DedupKeepsEveryFirst(init, key);
      DedupAppend(init, last, key);
      LastKeyIsNew(s, key);
      forall j | FirstOfKey(s, key, j) ensures s[j] in Dedup(s, key) {
        if j < |s| - 1 {
          assert forall k :: 0 <= k <= j ==> s[k] == init[k];
          assert FirstOfKey(init, key, j) && init[j] == s[j];
        }
      }
    }
  }

  /** `r` holds exactly the first element of `s` of each key. */
  ghost predicate KeepsFirstOfEachKey<T, K>(s: seq<T>, r: seq<T>, key: T -> K)
  {
    && (forall x :: x in r ==> exists j :: FirstOfKey(s, key, j) && s[j] == x)
    && (forall j :: FirstOfKey(s, key, j) ==> s[j] in r)
  }

  lemma DedupKeepsFirstOfEachKey<T, K(!new)>(s: seq<T>, key: T -> K)
    ensures KeepsFirstOfEachKey(s, Dedup(s, key), key)
  {
    DedupKeepsOnlyFirst(s, key);
    DedupKeepsEveryFirst(s, key);
  }

  /** Deduplication keeps the input order. */
  lemma {:induction false} DedupIsSubseq<T, K(!new)>(s: seq<T>, key: T -> K)
    ensures IsSubseq(Dedup(s, key), s)
  {
    if |s| > 0 {
      var init, last := s[..|s| - 1], s[|s| - 1];
      assert s == init + [last];
      DedupIsSubseq(init, key);
      if key(last) in Keys(Dedup(init, key), key) {
        SubseqExtend(Dedup(init, key), init, last);
      } else {
        SubseqAppendBoth(Dedup(init, key), init, last);
      }
    }
  }

  /** A sequence whose keys are pairwise distinct is left as it is. */
  lemma {:induction false} DedupOfDistinct<T, K(!new)>(s: seq<T>, key: T -> K)
    requires forall i, j :: 0 <= i < j < |s| ==> key(s[i]) != key(s[j])
    ensures Dedup(s, key) == s
  {
    if |s| > 0 {
      var init, last := s[..|s| - 1], s[|s| - 1];
      assert s == init + [last];
      assert forall i, j :: 0 <= i < j < |init| ==> key(init[i]) != key(init[j]);
      DedupOfDistinct(init, key);
      assert forall i :: 0 <= i < |init| ==> Keys(init, key)[i] == key(s[i]) != key(last);
      assert key(last) !in Keys(Dedup(init, key), key);
    }
  }

  /** Deduplicating twice is deduplicating once. */
  lemma DedupIdempotent<T, K(!new)>(s: seq<T>, key: T -> K)
    ensures Dedup(Dedup(s, key), key) == Dedup(s, key)
  {
    DedupOfDistinct(Dedup(s, key), key);
  }

  /** `[item for sublist in ss for item in sublist]`. */
  function Concat<T(!new)>(ss: seq<seq<T>>): (r: seq<T>)
    ensures forall x :: x in r <==> exists i :: 0 <= i < |ss| && x in ss[i]
  {
    if |ss| == 0 then []
    else
      var init := ss[..|ss| - 1];
      assert forall i :: 0 <= i < |init| ==> init[i] == ss[i];
      Concat(init) + ss[|ss| - 1]
  }

  /** `list(s)` for a set: its elements, each once, in an order the caller cannot rely on. */
  method ListOfSet<T>(s: set<T>) returns (r: seq<T>)
    ensures forall x :: x in r <==> x in s
    ensures forall i, j :: 0 <= i < j < |r| ==> r[i] != r[j]
  {
    r := [];
    var rest := s;
    while rest != {}
      invariant rest <= s
      invariant forall x :: x in r <==> x in s && x !in rest
      invariant forall i, j :: 0 <= i < j < |r| ==> r[i] != r[j]
      decreases |rest|
    {
      var x :| x in rest;
      r := r + [x];
      rest := rest - {x};
    }
  }
}
