/**
 * Facts about sequences of any element type. Proving them once, generically,
 * keeps the facts about strings out of scope when the proofs about pieces,
 * pages and nodes take these steps.
 */
module SeqFacts {

  /** Extending a prefix by one element. */
  lemma PrefixStep<T>(s: seq<T>, j: nat)
    requires j < |s|
    ensures s[..j + 1] == s[..j] + [s[j]]
  {
  }

  lemma AppendAssoc<T>(a: seq<T>, b: seq<T>, c: seq<T>)
    ensures (a + b) + c == a + (b + c)
  {
  }

  /** Head and tail of a concatenation whose left part is not empty. */
  lemma ConcatHeadTail<T>(a: seq<T>, b: seq<T>)
    requires |a| > 0
    ensures (a + b)[0] == a[0] && (a + b)[1..] == a[1..] + b
  {
  }

  /** A sequence is the part before index `k`, the element at `k`, and the
      part after it. */
  lemma AroundIndex<T>(s: seq<T>, k: nat)
    requires k < |s|
    ensures s == s[..k] + ([s[k]] + s[k + 1..])
    ensures ([s[k]] + s[k + 1..])[0] == s[k] && ([s[k]] + s[k + 1..])[1..] == s[k + 1..]
  {
  }

  /** The middle part of a three-part concatenation. */
  lemma SliceMiddle<T>(x: seq<T>, y: seq<T>, z: seq<T>)
    ensures |x| + |y| <= |x + (y + z)|
    ensures (x + (y + z))[|x|..|x| + |y|] == y
  {
  }

  /** A non-empty sequence is its head followed by its tail. */
  lemma HeadTail<T>(s: seq<T>)
    requires |s| > 0
    ensures s == [s[0]] + s[1..]
  {
  }

  /** Every element of `s` satisfies `p`. */
  predicate All<T>(s: seq<T>, p: T -> bool) {
    forall k :: 0 <= k < |s| ==> p(s[k])
  }

  /** When `l` is `s` less a prefix of `p`-elements and `r` is `l` less a
      suffix of `p`-elements, `r` is the slice of `s` between a run of
      `p`-elements and another. */
  lemma InfixBetween<T>(s: seq<T>, l: seq<T>, r: seq<T>, p: T -> bool)
    requires |l| <= |s| && l == s[|s| - |l|..]
    requires forall k :: 0 <= k < |s| - |l| ==> p(s[k])
    requires |r| <= |l| && r == l[..|r|]
    requires forall k :: |r| <= k < |l| ==> p(l[k])
    ensures r == s[|s| - |l|..|s| - |l| + |r|]
    ensures All(s[..|s| - |l|], p)
    ensures All(s[|s| - |l| + |r|..], p)
  {
    var j := |s| - |l| + |r|;
    var t := s[j..];
    assert t == l[|r|..];
    forall k | 0 <= k < |t| ensures p(t[k]) {
      assert t[k] == l[|r| + k];
    }
  }
}
