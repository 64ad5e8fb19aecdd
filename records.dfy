/** List bookkeeping shared by the three record stores: the order-preserving
    scans behind the views and deletions, the first-match search behind lookups
    and updates, the largest-id scan behind nextId, and std::remove_if. */
module Records {

  /** The elements x of xs with p(x, a) == want, in their original order. */
  function Select<T, A>(xs: seq<T>, p: (T, A) -> bool, a: A, want: bool): (r: seq<T>)
    ensures |r| <= |xs|
  {
    if xs == [] then []
    else
      var init := Select(xs[..|xs| - 1], p, a, want);
      var x := xs[|xs| - 1];
      if p(x, a) == want then init + [x] else init
  }

  /** The elements that satisfy p(_, a): what a `push_back` filtering loop collects. */
  function Filter<T, A>(xs: seq<T>, p: (T, A) -> bool, a: A): seq<T>
  {
    Select(xs, p, a, true)
  }

  /** The elements that do not satisfy p(_, a): what remove_if + erase leaves. */
  function Reject<T, A>(xs: seq<T>, p: (T, A) -> bool, a: A): seq<T>
  {
    Select(xs, p, a, false)
  }

  /** idx lists, in increasing order, the positions of xs that ys is made of. */
  ghost predicate Embeds<T>(ys: seq<T>, xs: seq<T>, idx: seq<int>)
  {
    && |idx| == |ys|
    && (forall k | 0 <= k < |idx| :: 0 <= idx[k] < |xs| && ys[k] == xs[idx[k]])
    && (forall k, l | 0 <= k < l < |idx| :: idx[k] < idx[l])
  }

  /** ys is obtained from xs by deleting elements, keeping the order of the rest. */
  ghost predicate IsSubsequence<T>(ys: seq<T>, xs: seq<T>)
  {
    exists idx :: Embeds(ys, xs, idx)
  }

  /** Selection keeps order, keeps exactly the wanted elements, and keeps all of them. */
  lemma SelectSpec<T, A>(xs: seq<T>, p: (T, A) -> bool, a: A, want: bool)
    ensures IsSubsequence(Select(xs, p, a, want), xs)
    ensures forall x :: x in Select(xs, p, a, want) <==> x in xs && p(x, a) == want
    ensures exists idx :: Embeds(Select(xs, p, a, want), xs, idx) &&
              forall i | 0 <= i < |xs| :: i in idx <==> p(xs[i], a) == want
  {
    var idx := SelectEmbedding(xs, p, a, want);
    var ys := Select(xs, p, a, want);
    forall x ensures x in ys <==> x in xs && p(x, a) == want {
      if x in ys {
        var k :| 0 <= k < |ys| && ys[k] == x;
        assert idx[k] in idx;
      }
      if x in xs && p(x, a) == want {
        var i :| 0 <= i < |xs| && xs[i] == x;
        assert i in idx;
        var k :| 0 <= k < |idx| && idx[k] == i;
        assert ys[k] == x;
      }
    }
  }

  lemma {:induction false} SelectEmbedding<T, A>(xs: seq<T>, p: (T, A) -> bool, a: A, want: bool)
    returns (idx: seq<int>)
    ensures Embeds(Select(xs, p, a, want), xs, idx)
    ensures forall i | 0 <= i < |xs| :: i in idx <==> p(xs[i], a) == want
    decreases |xs|
  {
    if xs == [] {
      idx := [];
    } else {
      var n := |xs| - 1;
      var init := SelectEmbedding(xs[..n], p, a, want);
      assert forall k | 0 <= k < |init| :: init[k] < n;
      if p(xs[n], a) == want {
        idx := init + [n];
      } else {
        idx := init;
      }
    }
  }

  /** Nothing was removed exactly when no element had to go. */
  lemma {:induction false} SelectAll<T, A>(xs: seq<T>, p: (T, A) -> bool, a: A, want: bool)
    ensures |Select(xs, p, a, want)| == |xs| <==> forall k | 0 <= k < |xs| :: p(xs[k], a) == want
    ensures (forall k | 0 <= k < |xs| :: p(xs[k], a) == want) ==> Select(xs, p, a, want) == xs
    decreases |xs|
  {
    if xs != [] {
      var n := |xs| - 1;
      SelectAll(xs[..n], p, a, want);
      assert xs == xs[..n] + [xs[n]];
      assert forall k | 0 <= k < n :: xs[..n][k] == xs[k];
    }
  }

  /** The two halves of a selection partition the list. */
  lemma {:induction false} SelectPartition<T, A>(xs: seq<T>, p: (T, A) -> bool, a: A)
    ensures |Filter(xs, p, a)| + |Reject(xs, p, a)| == |xs|
    decreases |xs|
  {
    if xs != [] {
      SelectPartition(xs[..|xs| - 1], p, a);
    }
  }

  /** f(_, a) applied to every element, in order. */
  function Map<T, A, U>(xs: seq<T>, f: (T, A) -> U, a: A): (r: seq<U>)
    ensures |r| == |xs|
    ensures forall k | 0 <= k < |xs| :: r[k] == f(xs[k], a)
  {
    if xs == [] then [] else Map(xs[..|xs| - 1], f, a) + [f(xs[|xs| - 1], a)]
  }

  /** Mapping one more element of a prefix appends its image. */
  lemma MapPrefixSnoc<T, A, U>(xs: seq<T>, f: (T, A) -> U, a: A, i: int)
    requires 0 <= i < |xs|
    ensures Map(xs[..i + 1], f, a) == Map(xs[..i], f, a) + [f(xs[i], a)]
  {
    assert xs[..i + 1][..i] == xs[..i];
  }

  /** The counting loop `n = 0; for (x : xs) if (p(x, a)) n++;`. */
  method CountIf<T, A>(xs: seq<T>, p: (T, A) -> bool, a: A) returns (n: int)
    ensures n == |Filter(xs, p, a)|
  {
    n := 0;
    for i := 0 to |xs|
      invariant n == |Filter(xs[..i], p, a)|
    {
      assert xs[..i + 1][..i] == xs[..i];
      if p(xs[i], a) {
        n := n + 1;
      }
    }
    assert xs[..|xs|] == xs;
  }

  /** The position of the first element with p(_, a), or -1 when there is none:
      the range-for loop that returns (or assigns) at the first match. */
  function FirstIndex<T, A>(xs: seq<T>, p: (T, A) -> bool, a: A): (r: int)
    ensures -1 <= r < |xs|
    ensures r >= 0 ==> p(xs[r], a)
    ensures forall k | 0 <= k < (if r < 0 then |xs| else r) :: !p(xs[k], a)
  {
    if xs == [] then -1
    else if p(xs[0], a) then 0
    else
      var r := FirstIndex(xs[1..], p, a);
      if r < 0 then -1 else r + 1
  }

  /** The position a first-match loop stops at is the one FirstIndex names. */
  lemma FirstIndexAt<T, A>(xs: seq<T>, p: (T, A) -> bool, a: A, i: int)
    requires 0 <= i < |xs| && p(xs[i], a)
    requires forall k | 0 <= k < i :: !p(xs[k], a)
    ensures FirstIndex(xs, p, a) == i
  {
  }

  /** A loop that finds no match ends where FirstIndex reports none. */
  lemma FirstIndexNone<T, A>(xs: seq<T>, p: (T, A) -> bool, a: A)
    requires forall k | 0 <= k < |xs| :: !p(xs[k], a)
    ensures FirstIndex(xs, p, a) == -1
  {
  }

  /** The range-for loop that stops at its first match:
      `for (i = 0; i < n; i++) if (p(xs[i])) return i;`, -1 for no match. */
  method FindFirst<T, A>(xs: seq<T>, p: (T, A) -> bool, a: A) returns (i: int)
    ensures i == FirstIndex(xs, p, a)
  {
    for j := 0 to |xs|
      invariant forall k | 0 <= k < j :: !p(xs[k], a)
    {
      if p(xs[j], a) {
        FirstIndexAt(xs, p, a, j);
        return j;
      }
    }
    FirstIndexNone(xs, p, a);
    return -1;
  }

  /** A non-empty list is its front followed by its last element. */
  lemma SplitLast<T>(xs: seq<T>)
    requires xs != []
    ensures xs == xs[..|xs| - 1] + [xs[|xs| - 1]]
  {
  }

  /** Extending a slice by one element. */
  lemma SliceSnoc<T>(xs: seq<T>, i: int, j: int)
    requires 0 <= i <= j < |xs|
    ensures xs[i..j + 1] == xs[i..j] + [xs[j]]
  {
  }

  /** Extending a prefix by one element. */
  lemma PrefixSnoc<T>(xs: seq<T>, i: int)
    requires 0 <= i < |xs|
    ensures xs[..i + 1][..i] == xs[..i] && xs[..i + 1] == xs[..i] + [xs[i]]
  {
  }

  /** The list with its first element satisfying p(_, a) replaced by x, every other
      position as it was; the same list when no element satisfies it:
      `for (auto& y : xs) if (p(y)) { y = x; break; }`. */
  function ReplaceFirst<T, A>(xs: seq<T>, p: (T, A) -> bool, a: A, x: T): (r: seq<T>)
    ensures |r| == |xs|
    ensures (forall k | 0 <= k < |xs| :: !p(xs[k], a)) ==> r == xs
    ensures forall k | 0 <= k < |xs| :: r[k] == xs[k] || (r[k] == x && p(xs[k], a))
    ensures forall k | 0 <= k < |xs| && r[k] != xs[k] ::
              forall j | 0 <= j < |xs| && j != k :: r[j] == xs[j]
    ensures FirstIndex(xs, p, a) >= 0 ==> r[FirstIndex(xs, p, a)] == x
    ensures forall k | 0 <= k < |xs| && k != FirstIndex(xs, p, a) :: r[k] == xs[k]
  {
    var i := FirstIndex(xs, p, a);
    if i < 0 then xs else xs[i := x]
  }

  /** The largest key, or 0 when the list is empty or every key is negative:
      `maxId = 0; for (x : xs) if (key(x) > maxId) maxId = key(x);`. */
  function MaxKey<T>(xs: seq<T>, key: T -> int): (m: int)
    ensures m >= 0
    ensures forall k | 0 <= k < |xs| :: key(xs[k]) <= m
    ensures m == 0 || exists k | 0 <= k < |xs| :: key(xs[k]) == m
  {
    if xs == [] then 0
    else
      var m := MaxKey(xs[..|xs| - 1], key);
      var k := key(xs[|xs| - 1]);
      if k > m then k else m
  }

  /** std::remove_if on a vector: the elements to keep are moved, in order, to the
      front; the returned end marks where the kept elements stop. */
  method RemoveIf<T, A>(arr: array<T>, p: (T, A) -> bool, a: A) returns (end: nat)
    modifies arr
    ensures end <= arr.Length
    ensures arr[..end] == Reject(old(arr[..]), p, a)
  {
    ghost var orig := arr[..];
    end := 0;
    var i := 0;
    while i < arr.Length
      invariant end <= i <= arr.Length
      invariant arr[..end] == Reject(orig[..i], p, a)
      invariant forall k | i <= k < arr.Length :: arr[k] == orig[k]
    {
      assert orig[..i + 1][..i] == orig[..i];
      assert arr[i] == orig[i];
      if !p(arr[i], a) {
        arr[end] := arr[i];
        assert arr[..end + 1] == arr[..end] + [orig[i]];
        end := end + 1;
      }
      i := i + 1;
    }
    assert orig[..arr.Length] == orig;
  }
}
