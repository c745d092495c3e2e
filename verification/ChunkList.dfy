/** Circular doubly linked lists threaded through headers in memory, seen as sequences of addresses. */
module ChunkList {
  type Links = map<int, int>

  /** The i-th node of the circle that starts and ends at `head` and passes through `s`. */
  function Node(head: int, s: seq<int>, i: nat): int
    requires i <= |s| + 1
  {
    if 1 <= i <= |s| then s[i - 1] else head
  }

  ghost predicate Distinct(s: seq<int>) {
    forall i, j :: 0 <= i < j < |s| ==> s[i] != s[j]
  }

  /** The i-th node and the one after it point at each other. */
  ghost predicate Joined(next: Links, previous: Links, head: int, s: seq<int>, i: nat)
    requires i <= |s|
  {
    && Node(head, s, i) in next && next[Node(head, s, i)] == Node(head, s, i + 1)
    && Node(head, s, i + 1) in previous && previous[Node(head, s, i + 1)] == Node(head, s, i)
  }

  /** `next` leads once around the circle, and `previous` is its inverse. */
  ghost predicate Ring(next: Links, previous: Links, head: int, s: seq<int>) {
    && Distinct(s) && head !in s
    && forall i :: 0 <= i <= |s| ==> Joined(next, previous, head, s, i)
  }

  function Without(s: seq<int>, k: nat): seq<int>
    requires k < |s|
  {
    s[..k] + s[k + 1..]
  }

  /** Outside one circle nothing differs. */
  ghost predicate SameOutside(a: Links, b: Links, nodes: seq<int>) {
    forall x :: x !in nodes ==> (x in a <==> x in b) && (x in a ==> a[x] == b[x])
  }

  lemma {:induction false} RingFrame(next: Links, previous: Links, next': Links, previous': Links, nodes: seq<int>,
                                     head: int, s: seq<int>)
    requires Ring(next, previous, head, s)
    requires SameOutside(next, next', nodes) && SameOutside(previous, previous', nodes)
    requires head !in nodes && forall x :: x in s ==> x !in nodes
    ensures Ring(next', previous', head, s)
  {
    forall i | 0 <= i <= |s|
      ensures Joined(next', previous', head, s, i)
    {
      assert Joined(next, previous, head, s, i);
      assert Node(head, s, i) !in nodes && Node(head, s, i + 1) !in nodes;
    }
  }

  /** Putting a node right behind the head. */
  lemma LinkKeepsRing(next: Links, previous: Links, next': Links, previous': Links, head: int, s: seq<int>, x: int)
    requires Ring(next, previous, head, s) && x != head && x !in s
    requires next' == next[x := Node(head, s, 1)][head := x]
    requires previous' == previous[Node(head, s, 1) := x][x := head]
    ensures Ring(next', previous', head, [x] + s)
  {
    var t := [x] + s;
    forall i | 0 <= i <= |t|
      ensures Joined(next', previous', head, t, i)
    {
      assert Joined(next, previous, head, s, if i == 0 then 0 else i - 1);
    }
  }

  lemma Different(head: int, s: seq<int>, k: nat, i: nat)
    requires Distinct(s) && head !in s && k < |s| && i < |s|
    ensures i < k ==> Node(head, s, i) != Node(head, s, k) && Node(head, s, i + 1) != Node(head, s, k + 2)
    ensures i > k ==> Node(head, s, i + 1) != Node(head, s, k) && Node(head, s, i + 2) != Node(head, s, k + 2)
  {
  }

  /** Taking a node out. */
  lemma UnlinkKeepsRing(next: Links, previous: Links, next': Links, previous': Links, head: int, s: seq<int>, k: nat)
    requires Ring(next, previous, head, s) && k < |s|
    requires next' == next[Node(head, s, k) := Node(head, s, k + 2)]
    requires previous' == previous[Node(head, s, k + 2) := Node(head, s, k)]
    ensures Ring(next', previous', head, Without(s, k))
  {
    var t := Without(s, k);
    forall i | 0 <= i <= |t| + 1
      ensures Node(head, t, i) == if i <= k then Node(head, s, i) else Node(head, s, i + 1)
    {
    }
    assert Distinct(t);
    forall i | 0 <= i <= |t|
      ensures Joined(next', previous', head, t, i)
    {
      assert Joined(next, previous, head, s, if i < k then i else i + 1);
      assert Joined(next, previous, head, s, k) && Joined(next, previous, head, s, k + 1);
      Different(head, s, k, i);
    }
  }

  lemma WithoutMembers(s: seq<int>, k: nat)
    requires Distinct(s) && k < |s|
    ensures forall x :: x in Without(s, k) <==> x in s && x != s[k]
    ensures Distinct(Without(s, k)) && |Without(s, k)| == |s| - 1
  {
    forall x | x in s && x != s[k]
      ensures x in Without(s, k)
    {
      var i :| 0 <= i < |s| && s[i] == x;
      assert x == if i < k then Without(s, k)[i] else Without(s, k)[i - 1];
    }
  }
}
