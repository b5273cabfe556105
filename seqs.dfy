/** Small facts about sequences shared by the tree and desktop models. */
module Seqs {

  /** The position of the first occurrence of `x` in `s`. */
  function IndexOf<T(==)>(s: seq<T>, x: T): (k: nat)
    requires x in s
    ensures k < |s| && s[k] == x && x !in s[..k]
  {
    if s[0] == x then 0
    else
      var k' := IndexOf(s[1..], x);
      assert s[..1 + k'] == [s[0]] + s[1..][..k'];
      1 + k'
  }

  /** A position holding `x` with no `x` before it is the first occurrence. */
  lemma {:induction false} IndexOfUnique<T>(s: seq<T>, x: T, k: nat)
    requires k < |s| && s[k] == x && x !in s[..k]
    ensures IndexOf(s, x) == k
  {
    if k > 0 {
      assert s[..k] == [s[0]] + s[1..][..k - 1];
      IndexOfUnique(s[1..], x, k - 1);
    }
  }

  /** An element of `a` is first found in `a + b` where it is first found in `a`. */
  lemma IndexOfAppendLeft<T>(a: seq<T>, b: seq<T>, x: T)
    requires x in a
    ensures IndexOf(a + b, x) == IndexOf(a, x)
  {
    var k := IndexOf(a, x);
    assert (a + b)[..k] == a[..k];
    IndexOfUnique(a + b, x, k);
  }

  /** An element of `b` that is not in `a` is first found in `a + b` after all of `a`. */
  lemma IndexOfAppendRight<T>(a: seq<T>, b: seq<T>, x: T)
    requires x !in a && x in b
    ensures IndexOf(a + b, x) == |a| + IndexOf(b, x)
  {
    var k := IndexOf(b, x);
    assert (a + b)[..|a| + k] == a + b[..k];
    IndexOfUnique(a + b, x, |a| + k);
  }

  /** `s` without its element at position `k`. */
  function RemoveAt<T>(s: seq<T>, k: nat): (r: seq<T>)
    requires k < |s|
    ensures |r| == |s| - 1
    ensures forall i :: 0 <= i < k ==> r[i] == s[i]
    ensures forall i :: k <= i < |r| ==> r[i] == s[i + 1]
  {
    s[..k] + s[k + 1..]
  }

  /** Removing an element that occurs once leaves every other element, and that one no more. */
  lemma RemoveAtCounts<T>(s: seq<T>, k: nat)
    requires k < |s|
    ensures multiset(RemoveAt(s, k)) == multiset(s) - multiset{s[k]}
  {
    assert s == s[..k] + [s[k]] + s[k + 1..];
  }

  /** Removing inside the left operand of a concatenation. */
  lemma RemoveAtAppendLeft<T>(a: seq<T>, b: seq<T>, k: nat)
    requires k < |a|
    ensures RemoveAt(a + b, k) == RemoveAt(a, k) + b
  {
    assert (a + b)[..k] == a[..k];
    assert (a + b)[k + 1..] == a[k + 1..] + b;
  }

  /** Removing inside the right operand of a concatenation. */
  lemma RemoveAtAppendRight<T>(a: seq<T>, b: seq<T>, k: nat)
    requires k < |b|
    ensures RemoveAt(a + b, |a| + k) == a + RemoveAt(b, k)
  {
    assert (a + b)[..|a| + k] == a + b[..k];
    assert (a + b)[|a| + k + 1..] == b[k + 1..];
  }

  /** Putting `y` next to the element at `k`, on either side, adds `y` and nothing else. */
  lemma InsertNextCounts<T>(s: seq<T>, k: nat, y: T, after: bool)
    requires k < |s|
    ensures |s[..k] + (if after then [s[k], y] else [y, s[k]]) + s[k + 1..]| == |s| + 1
    ensures multiset(s[..k] + (if after then [s[k], y] else [y, s[k]]) + s[k + 1..]) == multiset(s) + multiset{y}
  {
    var pre, post := s[..k], s[k + 1..];
    assert s == pre + [s[k]] + post;
    assert multiset(s) == multiset(pre) + multiset{s[k]} + multiset(post);
    var pair := if after then [s[k], y] else [y, s[k]];
    assert multiset(pair) == multiset{s[k]} + multiset{y};
    assert multiset(pre + pair + post) == multiset(pre) + multiset(pair) + multiset(post);
  }
}
