/** The implicit binary tree behind Go's container/heap (slot j's children are 2j+1 and
    2j+2) and the order facts its sift-up and sift-down rely on, stated over the sequence of
    keys the heap compares. */
module HeapIndex {

  /** The parent slot as container/heap's sift-up computes it, `(j - 1) / 2`. Go's division
      truncates toward zero, so at the root the result is 0 (the root is its own parent),
      not -1 as Dafny's Euclidean division would give. */
  function Parent(j: nat): (p: nat)
    ensures j == 0 ==> p == 0
    ensures j > 0 ==> p < j && (j == 2 * p + 1 || j == 2 * p + 2)
  {
    if j == 0 then 0 else (j - 1) / 2
  }

  /** Slots i and j exchanged, as the heap's Swap does. */
  function Swapped(keys: seq<int>, i: nat, j: nat): seq<int>
    requires i < |keys| && j < |keys|
  {
    keys[i := keys[j]][j := keys[i]]
  }

  /** Min-heap order on the slots below n: no slot holds a smaller key than its parent. */
  ghost predicate HeapBelow(keys: seq<int>, n: nat)
    requires n <= |keys|
  {
    forall k :: 0 < k < n ==> keys[Parent(k)] <= keys[k]
  }

  ghost predicate IsMinHeap(keys: seq<int>)
  {
    HeapBelow(keys, |keys|)
  }

  /** The children of slot i below n hold keys no smaller than the key of i's parent. */
  ghost predicate GrandparentBound(keys: seq<int>, n: nat, i: nat)
    requires i < n <= |keys|
  {
    i > 0 ==> forall c :: 0 < c < n && Parent(c) == i ==> keys[Parent(i)] <= keys[c]
  }

  /** The children of slot i below n hold keys no smaller than slot i's. */
  ghost predicate ChildrenAbove(keys: seq<int>, n: nat, i: nat)
    requires i < n <= |keys|
  {
    forall c :: 0 < c < n && Parent(c) == i ==> keys[i] <= keys[c]
  }

  /** The state sift-up works on: heap order below n except on the edge into slot j. */
  ghost predicate ReadyUp(keys: seq<int>, n: nat, j: nat)
    requires j < n <= |keys|
  {
    (forall k :: 0 < k < n && k != j ==> keys[Parent(k)] <= keys[k]) &&
    GrandparentBound(keys, n, j)
  }

  /** The state sift-down works on: heap order below n except on the edges touching slot i. */
  ghost predicate ReadyDown(keys: seq<int>, n: nat, i: nat)
    requires i < n <= |keys|
  {
    (forall k :: 0 < k < n && k != i && Parent(k) != i ==> keys[Parent(k)] <= keys[k]) &&
    GrandparentBound(keys, n, i)
  }

  /** One round of sift-up: a key smaller than its parent's moves up one level. */
  lemma UpStep(keys: seq<int>, n: nat, j: nat)
    requires j < n <= |keys| && ReadyUp(keys, n, j)
    requires j > 0 && keys[j] < keys[Parent(j)]
    ensures ReadyUp(Swapped(keys, Parent(j), j), n, Parent(j))
  {
  }

  /** Sift-up stops once the edge into j is in order, and the heap is then whole. */
  lemma UpDone(keys: seq<int>, n: nat, j: nat)
    requires j < n <= |keys| && ReadyUp(keys, n, j)
    requires j == 0 || keys[Parent(j)] <= keys[j]
    ensures HeapBelow(keys, n)
  {
  }

  /** One round of sift-down: a key larger than its smaller child trades places with it. */
  lemma DownStep(keys: seq<int>, n: nat, i: nat, j: nat)
    requires i < j < n <= |keys| && Parent(j) == i && ReadyDown(keys, n, i)
    requires forall c :: 0 < c < n && Parent(c) == i ==> keys[j] <= keys[c]
    requires keys[j] < keys[i]
    ensures ReadyDown(Swapped(keys, i, j), n, j)
    ensures Swapped(keys, i, j)[i] <= Swapped(keys, i, j)[j]
  {
  }

  /** The child sift-down picks: the right child when it is strictly smaller than the left,
      else the left. It is no larger than any child of i. */
  lemma SmallerChildIsLeast(keys: seq<int>, n: nat, i: nat, j: nat)
    requires n <= |keys| && 2 * i + 1 < n
    requires j == 2 * i + 1 || (j == 2 * i + 2 && j < n)
    requires j == 2 * i + 1 ==> 2 * i + 2 >= n || keys[2 * i + 1] <= keys[2 * i + 2]
    requires j == 2 * i + 2 ==> keys[2 * i + 2] < keys[2 * i + 1]
    ensures Parent(j) == i && i < j < n
    ensures forall c :: 0 < c < n && Parent(c) == i ==> keys[j] <= keys[c]
  {
  }

  /** A slot with no children below n is trivially no larger than its children. */
  lemma LeafSlot(keys: seq<int>, n: nat, i: nat)
    requires i < n <= |keys| && 2 * i + 1 >= n
    ensures ChildrenAbove(keys, n, i)
  {
  }

  /** A slot no larger than its smallest child j is no larger than any of its children. */
  lemma SettledSlot(keys: seq<int>, n: nat, i: nat, j: nat)
    requires i < j < n <= |keys| && Parent(j) == i && keys[i] <= keys[j]
    requires forall c :: 0 < c < n && Parent(c) == i ==> keys[j] <= keys[c]
    ensures ChildrenAbove(keys, n, i)
  {
  }

  /** Sift-down stops once slot i is no larger than its children; if the edge into i is in
      order as well, the heap is whole. */
  lemma DownDone(keys: seq<int>, n: nat, i: nat)
    requires i < n <= |keys| && ReadyDown(keys, n, i) && ChildrenAbove(keys, n, i)
    requires i == 0 || keys[Parent(i)] <= keys[i]
    ensures HeapBelow(keys, n)
  {
  }

  /** When sift-down moves nothing, what is left is a sift-up problem at the same slot. */
  lemma DownThenUp(keys: seq<int>, n: nat, i: nat)
    requires i < n <= |keys| && ReadyDown(keys, n, i) && ChildrenAbove(keys, n, i)
    ensures ReadyUp(keys, n, i)
  {
  }

  /** Changing one key of a heap leaves exactly a sift-down problem at that slot. */
  lemma ChangedKey(before: seq<int>, after: seq<int>, i: nat)
    requires IsMinHeap(before) && |after| == |before| && i < |before|
    requires forall k :: 0 <= k < |before| && k != i ==> after[k] == before[k]
    ensures ReadyDown(after, |after|, i)
  {
  }

  /** Moving the last key into slot i leaves a sift-down problem at i on the shorter heap. */
  lemma LastIntoSlot(keys: seq<int>, i: nat)
    requires IsMinHeap(keys) && i < |keys| - 1
    ensures ReadyDown(Swapped(keys, i, |keys| - 1), |keys| - 1, i)
  {
  }

  /** An appended key leaves a sift-up problem at the new last slot. */
  lemma AppendedKey(keys: seq<int>, x: int)
    requires IsMinHeap(keys)
    ensures ReadyUp(keys + [x], |keys| + 1, |keys|)
  {
  }

  /** `a` is `k` or lies on the path from `k` up to the root. */
  ghost predicate IsAncestor(a: nat, k: nat)
    decreases k
  {
    a == k || (k > 0 && IsAncestor(a, Parent(k)))
  }

  /** In a min-heap every key is at least the key of each of its ancestors. */
  lemma {:induction false} AncestorBound(keys: seq<int>, a: nat, k: nat)
    requires IsMinHeap(keys) && k < |keys| && IsAncestor(a, k)
    ensures a <= k && keys[a] <= keys[k]
    decreases k
  {
    if a != k {
      AncestorBound(keys, a, Parent(k));
    }
  }

  /** The root is an ancestor of every slot. */
  lemma {:induction false} RootIsAncestor(k: nat)
    ensures IsAncestor(0, k)
    decreases k
  {
    if k > 0 {
      RootIsAncestor(Parent(k));
    }
  }

  /** The root of a min-heap holds the least key. */
  lemma RootIsMin(keys: seq<int>, k: nat)
    requires IsMinHeap(keys) && k < |keys|
    ensures keys[0] <= keys[k]
  {
    RootIsAncestor(k);
    AncestorBound(keys, 0, k);
  }
}
