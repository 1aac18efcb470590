/**
 The contract shared by every variant of "remove every occurrence of an id,
 keeping order": `Filter(s, id)` is the list of the elements of `s` that are
 not `id`, in their original order. The lemmas below characterise it
 independently of its definition (by subsequence and counts) and collect the
 boundary cases.
 */
module Filtering {
  import opened U64

  /** The elements of `s` other than `id`, in order. */
  function Filter(s: seq<u64>, id: u64): (r: seq<u64>)
    ensures |r| <= |s|
    ensures forall i :: 0 <= i < |r| ==> r[i] != id
  {
    if |s| == 0 then []
    else (if s[0] != id then [s[0]] else []) + Filter(s[1..], id)
  }

  /** `t` can be obtained from `s` by deleting elements. */
  predicate IsSubsequence(t: seq<u64>, s: seq<u64>)
    decreases |s|
  {
    |t| == 0 ||
    (|s| > 0 &&
     ((t[0] == s[0] && IsSubsequence(t[1..], s[1..])) || IsSubsequence(t, s[1..])))
  }

  /** The number of occurrences of `x` in `s`. */
  function Count(s: seq<u64>, x: u64): (n: nat) {
    multiset(s)[x]
  }

  lemma {:induction false} FilterAppend(a: seq<u64>, b: seq<u64>, id: u64)
    ensures Filter(a + b, id) == Filter(a, id) + Filter(b, id)
    decreases |a|
  {
    if |a| == 0 {
      assert a + b == b;
    } else {
      assert (a + b)[1..] == a[1..] + b;
      FilterAppend(a[1..], b, id);
    }
  }

  /** Filtering a sequence with a known first element. */
  lemma FilterCons(x: u64, s: seq<u64>, id: u64)
    ensures Filter([x] + s, id) == (if x != id then [x] else []) + Filter(s, id)
  {
  }

  /** Filtering a prefix extended by one element: the step of a left-to-right loop. */
  lemma FilterSnoc(s: seq<u64>, x: u64, id: u64)
    ensures Filter(s + [x], id) == Filter(s, id) + (if x != id then [x] else [])
  {
    FilterAppend(s, [x], id);
    assert Filter([x], id) == (if x != id then [x] else []) + Filter([], id);
  }

  /** Exactly the occurrences of `id` are removed; every other element keeps its multiplicity. */
  lemma {:induction false} FilterMultiset(s: seq<u64>, id: u64)
    ensures multiset(Filter(s, id)) == multiset(s)[id := 0]
    decreases |s|
  {
    if |s| == 0 {
    } else {
      FilterMultiset(s[1..], id);
      assert s == [s[0]] + s[1..];
      assert multiset(s) == multiset{s[0]} + multiset(s[1..]);
    }
  }

  /** An element occurs in the result exactly when it occurs in the input and is not `id`. */
  lemma FilterMembership(s: seq<u64>, id: u64, x: u64)
    ensures x in Filter(s, id) <==> x in s && x != id
  {
    FilterMultiset(s, id);
    assert x in Filter(s, id) <==> x in multiset(Filter(s, id));
    assert x in s <==> x in multiset(s);
  }

  /** The result is shorter than the input by exactly the number of occurrences of `id`. */
  lemma FilterLength(s: seq<u64>, id: u64)
    ensures |Filter(s, id)| == |s| - Count(s, id)
  {
    FilterMultiset(s, id);
    assert |multiset(Filter(s, id))| == |multiset(s)[id := 0]|;
  }

  /** The result keeps the relative order of the input: it is a subsequence of it. */
  lemma {:induction false} FilterIsSubsequence(s: seq<u64>, id: u64)
    ensures IsSubsequence(Filter(s, id), s)
    decreases |s|
  {
    if |s| > 0 {
      FilterIsSubsequence(s[1..], id);
      if s[0] != id {
        assert Filter(s, id) == [s[0]] + Filter(s[1..], id);
        assert Filter(s, id)[1..] == Filter(s[1..], id);
      } else {
        assert Filter(s, id) == Filter(s[1..], id);
      }
    }
  }

  /** A subsequence never holds more of any element than the sequence it came from. */
  lemma {:induction false} SubsequenceMultiset(t: seq<u64>, s: seq<u64>)
    requires IsSubsequence(t, s)
    ensures multiset(t) <= multiset(s)
    decreases |s|
  {
    if |t| > 0 {
      assert s == [s[0]] + s[1..];
      if t[0] == s[0] && IsSubsequence(t[1..], s[1..]) {
        SubsequenceMultiset(t[1..], s[1..]);
        assert t == [t[0]] + t[1..];
      } else {
        SubsequenceMultiset(t, s[1..]);
      }
    }
  }

  /** Splitting off the first element of a sequence splits its multiset. */
  lemma MultisetCons(s: seq<u64>)
    requires |s| > 0
    ensures multiset(s) == multiset{s[0]} + multiset(s[1..])
  {
    assert s == [s[0]] + s[1..];
  }

  /** Removing one `x` from both sides of an equation between multisets. */
  lemma MultisetCancel(x: u64, a: multiset<u64>, b: multiset<u64>)
    requires multiset{x} + a == multiset{x} + b
    ensures a == b
  {
    forall y ensures a[y] == b[y] {
      assert (multiset{x} + a)[y] == (multiset{x} + b)[y];
    }
  }

  /** A subsequence whose first element differs from the first element of `s` lies in `s[1..]`. */
  lemma SubsequenceSkip(t: seq<u64>, s: seq<u64>)
    requires IsSubsequence(t, s) && |s| > 0
    requires |t| == 0 || t[0] != s[0]
    ensures IsSubsequence(t, s[1..])
  {
  }

  /** A subsequence of `s[1..]` cannot hold as many copies of `s[0]` as `s` does. */
  lemma SubsequenceOfTailMissesHead(t: seq<u64>, s: seq<u64>)
    requires |s| > 0 && IsSubsequence(t, s[1..])
    ensures multiset(t)[s[0]] < multiset(s)[s[0]]
  {
    SubsequenceMultiset(t, s[1..]);
    MultisetCons(s);
  }

  /**
   Being a subsequence of `s`, holding no `id`, and keeping the count of
   every other value determine the result: a sequence with all three
   properties is `Filter(s, id)`.
   */
  lemma {:induction false} FilterUnique(t: seq<u64>, s: seq<u64>, id: u64)
    requires IsSubsequence(t, s)
    requires id !in t
    requires multiset(t) == multiset(s)[id := 0]
    ensures t == Filter(s, id)
    decreases |s|, 1
  {
    if |s| == 0 {
      assert multiset(t) == multiset{};
    } else if s[0] == id {
      FilterUniqueDropHead(t, s, id);
    } else {
      FilterUniqueKeepHead(t, s, id);
    }
  }

  /** `FilterUnique` when the first element of `s` is `id`. */
  lemma {:induction false} FilterUniqueDropHead(t: seq<u64>, s: seq<u64>, id: u64)
    requires |s| > 0 && s[0] == id
    requires IsSubsequence(t, s)
    requires id !in t
    requires multiset(t) == multiset(s)[id := 0]
    ensures t == Filter(s, id)
    decreases |s|, 0
  {
    var rest := s[1..];
    MultisetCons(s);
    FilterCons(id, rest, id);
    assert s == [id] + rest;
    assert multiset(s)[id := 0] == multiset(rest)[id := 0];
    SubsequenceSkip(t, s);
    FilterUnique(t, rest, id);
  }

  /** `FilterUnique` when the first element of `s` is kept. */
  lemma {:induction false} FilterUniqueKeepHead(t: seq<u64>, s: seq<u64>, id: u64)
    requires |s| > 0 && s[0] != id
    requires IsSubsequence(t, s)
    requires id !in t
    requires multiset(t) == multiset(s)[id := 0]
    ensures t == Filter(s, id)
    decreases |s|, 0
  {
    if |t| > 0 && t[0] == s[0] && IsSubsequence(t[1..], s[1..]) {
      MatchedHeadTail(t, s, id);
      FilterUnique(t[1..], s[1..], id);
      FilterCons(s[0], s[1..], id);
      assert s == [s[0]] + s[1..];
      assert t == [t[0]] + t[1..];
    } else {
      assert IsSubsequence(t, s[1..]);
      SubsequenceOfTailMissesHead(t, s);
      assert false;
    }
  }

  /**
   When `t` starts with the kept head of `s`, the tails of `t` and `s` meet
   the requirements of `FilterUnique` again.
   */
  lemma MatchedHeadTail(t: seq<u64>, s: seq<u64>, id: u64)
    requires |s| > 0 && s[0] != id
    requires |t| > 0 && t[0] == s[0]
    requires id !in t
    requires multiset(t) == multiset(s)[id := 0]
    ensures id !in t[1..]
    ensures multiset(t[1..]) == multiset(s[1..])[id := 0]
  {
    var x := s[0];
    MultisetCons(s);
    MultisetCons(t);
    assert multiset(s)[id := 0] == multiset{x} + multiset(s[1..])[id := 0];
    MultisetCancel(x, multiset(t[1..]), multiset(s[1..])[id := 0]);
    forall k | 0 <= k < |t| - 1 ensures t[1..][k] != id {
      assert t[1..][k] == t[k + 1];
    }
  }

  /**
   `Filter(s, id)` is the one sequence that is a subsequence of `s`, holds no
   `id`, and keeps the multiplicity of every other element.
   */
  lemma FilterCharacterisation(t: seq<u64>, s: seq<u64>, id: u64)
    ensures t == Filter(s, id) <==>
            (IsSubsequence(t, s) && id !in t && multiset(t) == multiset(s)[id := 0])
  {
    if t == Filter(s, id) {
      FilterIsSubsequence(s, id);
      FilterMultiset(s, id);
    }
    if IsSubsequence(t, s) && id !in t && multiset(t) == multiset(s)[id := 0] {
      FilterUnique(t, s, id);
    }
  }

  /** The input comes back unchanged exactly when `id` does not occur in it. */
  lemma {:induction false} FilterUnchangedIff(s: seq<u64>, id: u64)
    ensures Filter(s, id) == s <==> id !in s
    decreases |s|
  {
    if |s| > 0 {
      FilterUnchangedIff(s[1..], id);
      assert s == [s[0]] + s[1..];
      if s[0] == id {
        assert |Filter(s, id)| <= |s[1..]| < |s|;
      }
    }
  }

  /** The result is empty exactly when every element of the input is `id` (in particular, for empty input). */
  lemma {:induction false} FilterEmptyIff(s: seq<u64>, id: u64)
    ensures Filter(s, id) == [] <==> forall i :: 0 <= i < |s| ==> s[i] == id
    decreases |s|
  {
    if |s| > 0 {
      FilterEmptyIff(s[1..], id);
      assert forall i :: 0 < i < |s| ==> s[i] == s[1..][i - 1];
    }
  }

  /** Filtering twice with the same id changes nothing more. */
  lemma FilterIdempotent(s: seq<u64>, id: u64)
    ensures Filter(Filter(s, id), id) == Filter(s, id)
  {
    FilterUnchangedIff(Filter(s, id), id);
  }
}
