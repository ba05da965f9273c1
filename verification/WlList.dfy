/** The circular doubly linked list of `wayland/wayland-util.c`. */
module WlLists {
  function Succ(i: nat, n: nat): (j: nat)
    requires i < n
    ensures j < n
  {
    if i + 1 == n then 0 else i + 1
  }

  function Pred(i: nat, n: nat): (j: nat)
    requires i < n
    ensures j < n && Succ(j, n) == i
  {
    if i == 0 then n - 1 else i - 1
  }

  function NextOf(ring: seq<WlList>, i: nat): WlList
    requires i < |ring|
  {
    ring[Succ(i, |ring|)]
  }

  function PrevOf(ring: seq<WlList>, i: nat): WlList
    requires i < |ring|
  {
    ring[Pred(i, |ring|)]
  }

  /** Node `i` and the one after it point to each other. */
  ghost predicate Linked(ring: seq<WlList>, i: nat)
    requires i < |ring|
    reads ring
  {
    ring[i].next == NextOf(ring, i) && NextOf(ring, i).prev == ring[i]
  }

  ghost predicate Distinct(ring: seq<WlList>) {
    forall i, j | 0 <= i < j < |ring| :: ring[i] != ring[j]
  }

  /** The nodes, from some node on around to the one before it. */
  ghost predicate Ring(ring: seq<WlList>)
    reads ring
  {
    Distinct(ring) && forall i | 0 <= i < |ring| :: Linked(ring, i)
  }

  /** `struct wl_list`: a link embedded in an element, or the head of a list. */
  class WlList {
    var prev: WlList?
    var next: WlList?

    /** `wl_list_init`. */
    constructor ()
      ensures Ring([this])
    {
      prev, next := this, this;
    }

    /** `wl_list_insert`: `elm` comes right after this node, the `k`-th of the ring. */
    method Insert(elm: WlList, ghost ring: seq<WlList>, ghost k: nat)
      requires Ring(ring) && k < |ring| && ring[k] == this && elm !in ring
      modifies this`next, elm, NextOf(ring, k)`prev
      ensures Ring(ring[..k + 1] + [elm] + ring[k + 1..])
    {
      ghost var n := |ring|;
      assert Linked(ring, k);
      elm.prev := this;
      elm.next := next;
      next := elm;
      elm.next.prev := elm;
      forall i | 0 <= i < n && i != k
        ensures Linked(ring, i)
      {
        assert old(Linked(ring, i)) && Succ(i, n) != Succ(k, n);
      }
      Inserted(ring, elm, k);
    }

    /** `wl_list_remove`: this node, the `k`-th of the ring, goes. */
    method Remove(ghost ring: seq<WlList>, ghost k: nat)
      requires Ring(ring) && k < |ring| && ring[k] == this
      modifies this, PrevOf(ring, k)`next, NextOf(ring, k)`prev
      ensures Ring(ring[..k] + ring[k + 1..]) && next == prev == null
    {
      ghost var n := |ring|;
      ghost var p := Pred(k, n);
      assert Linked(ring, k) && Linked(ring, p);
      prev.next := next;
      next.prev := prev;
      next := null;
      prev := null;
      forall i | 0 <= i < n && i != k && i != p
        ensures Linked(ring, i)
      {
        assert old(Linked(ring, i)) && Succ(i, n) != Succ(k, n) && Succ(i, n) != k && Succ(k, n) != k;
      }
      Removed(ring, k);
    }

    /** `wl_list_length`, from this node on. */
    method Length(ghost ring: seq<WlList>) returns (count: nat)
      requires Ring(ring) && ring != [] && ring[0] == this
      ensures count == |ring| - 1
    {
      assert Linked(ring, 0);
      var e := next;
      count := 0;
      while e != this
        invariant count < |ring| && e == ring[Succ(count, |ring|)]
        decreases |ring| - count
      {
        assert Linked(ring, count + 1);
        e := e.next;
        count := count + 1;
      }
    }

    /** `wl_list_empty`. */
    method Empty(ghost ring: seq<WlList>) returns (empty: bool)
      requires Ring(ring) && ring != [] && ring[0] == this
      ensures empty <==> ring == [this]
    {
      assert Linked(ring, 0);
      return next == this;
    }

    /** `wl_list_insert_list`: the elements of `other`, its head left out, come right after this node. */
    method InsertList(other: WlList, ghost ring: seq<WlList>, ghost k: nat, ghost added: seq<WlList>)
      requires Ring(ring) && k < |ring| && ring[k] == this
      requires Ring(added) && added != [] && added[0] == other
      requires forall i, j | 0 <= i < |ring| && 0 <= j < |added| :: ring[i] != added[j]
      modifies this`next, NextOf(ring, k)`prev
      modifies NextOf(added, 0)`prev, PrevOf(added, 0)`next
      ensures Ring(ring[..k + 1] + added[1..] + ring[k + 1..])
    {
      ghost var n, m := |ring|, |added|;
      ghost var r := ring[..k + 1] + added[1..] + ring[k + 1..];
      var empty := other.Empty(added);
      if empty {
        assert r == ring;
        return;
      }
      assert Linked(ring, k) && Linked(added, 0) && Linked(added, m - 1);
      other.next.prev := this;
      other.prev.next := next;
      next.prev := other.prev;
      next := other.next;
      forall i | 0 <= i < n && i != k
        ensures Linked(ring, i)
      {
        assert old(Linked(ring, i)) && Succ(i, n) != Succ(k, n);
      }
      forall i | 1 <= i < m - 1
        ensures Linked(added, i)
      {
        assert old(Linked(added, i));
      }
      Spliced(ring, added, k);
    }
  }

  /** Different nodes put together are different nodes. */
  lemma DistinctParts(ring: seq<WlList>, added: seq<WlList>, i: nat, j: nat, from: nat)
    requires i <= j <= |ring| && from <= |added| && Distinct(ring) && Distinct(added)
    requires forall i, j | 0 <= i < |ring| && 0 <= j < |added| :: ring[i] != added[j]
    ensures Distinct(ring[..i] + added[from..] + ring[j..])
  {
  }

  /** The two new links of an insertion and the untouched ones make one ring. */
  lemma Inserted(ring: seq<WlList>, elm: WlList, k: nat)
    requires k < |ring| && Distinct(ring) && elm !in ring
    requires forall i | 0 <= i < |ring| && i != k :: Linked(ring, i)
    requires ring[k].next == elm && elm.prev == ring[k]
    requires elm.next == NextOf(ring, k) && NextOf(ring, k).prev == elm
    ensures Ring(ring[..k + 1] + [elm] + ring[k + 1..])
  {
    var r := ring[..k + 1] + [elm] + ring[k + 1..];
    DistinctParts(ring, [elm], k + 1, k + 1, 0);
    assert [elm][0..] == [elm];
    forall i | 0 <= i < |r|
      ensures Linked(r, i)
    {
      if i < k {
        assert Linked(ring, i);
      } else if i > k + 1 {
        assert Linked(ring, i - 1);
      }
    }
  }

  /** The link over a removed node and the untouched ones make a ring of the others. */
  lemma Removed(ring: seq<WlList>, k: nat)
    requires k < |ring| && Distinct(ring)
    requires forall i | 0 <= i < |ring| && i != k && i != Pred(k, |ring|) :: Linked(ring, i)
    requires |ring| > 1 ==> PrevOf(ring, k).next == NextOf(ring, k) && NextOf(ring, k).prev == PrevOf(ring, k)
    ensures Ring(ring[..k] + ring[k + 1..])
  {
    var r := ring[..k] + ring[k + 1..];
    DistinctParts(ring, [], k, k + 1, 0);
    assert r == ring[..k] + [][0..] + ring[k + 1..];
    forall i | 0 <= i < |r|
      ensures Linked(r, i)
    {
      var j := if i < k then i else i + 1;
      if j != Pred(k, |ring|) {
        assert Linked(ring, j);
      }
    }
  }

  /** The four links of a splice and the untouched ones make one ring. */
  lemma Spliced(ring: seq<WlList>, added: seq<WlList>, k: nat)
    requires k < |ring| && |added| >= 2 && Distinct(ring) && Distinct(added)
    requires forall i, j | 0 <= i < |ring| && 0 <= j < |added| :: ring[i] != added[j]
    requires forall i | 0 <= i < |ring| && i != k :: Linked(ring, i)
    requires forall i | 1 <= i < |added| - 1 :: Linked(added, i)
    requires ring[k].next == added[1] && added[1].prev == ring[k]
    requires added[|added| - 1].next == NextOf(ring, k) && NextOf(ring, k).prev == added[|added| - 1]
    ensures Ring(ring[..k + 1] + added[1..] + ring[k + 1..])
  {
    var r, m := ring[..k + 1] + added[1..] + ring[k + 1..], |added|;
    DistinctParts(ring, added, k + 1, k + 1, 1);
    forall i | 0 <= i < |r|
      ensures Linked(r, i)
    {
      if i < k {
        assert Linked(ring, i);
      } else if k < i < k + m - 1 {
        assert Linked(added, i - k);
      } else if i >= k + m {
        assert Linked(ring, i - m + 1);
      }
    }
  }

  /** The pointers determine the ring: two rings from the same node are the same sequence. */
  lemma {:induction false} RingsFrom(r: seq<WlList>, s: seq<WlList>, i: nat)
    requires Ring(r) && Ring(s) && i < |r| && s != [] && r[0] == s[0]
    ensures i < |s| && r[..i + 1] == s[..i + 1]
  {
    if i > 0 {
      RingsFrom(r, s, i - 1);
      assert Linked(r, i - 1) && Linked(s, i - 1);
      assert r[..i] == s[..i] && r[i - 1] == r[..i][i - 1] == s[..i][i - 1];
    }
  }

  lemma RingUnique(r: seq<WlList>, s: seq<WlList>)
    requires Ring(r) && Ring(s) && r != [] && s != [] && r[0] == s[0]
    ensures r == s
  {
    RingsFrom(r, s, |r| - 1);
    RingsFrom(s, r, |s| - 1);
  }

  /** Any node of a ring may be taken as its first. */
  lemma RingTurns(r: seq<WlList>, k: nat)
    requires Ring(r) && k < |r|
    ensures Ring(r[k..] + r[..k])
  {
    var t := r[k..] + r[..k];
    forall i | 0 <= i < |t|
      ensures Linked(t, i)
    {
      assert Linked(r, if i < |r| - k then i + k else i - (|r| - k));
    }
  }

  /** A removal undoes the insertion before it. */
  method InsertRemove(list: WlList, elm: WlList, ghost ring: seq<WlList>, ghost k: nat)
    requires Ring(ring) && k < |ring| && ring[k] == list && elm !in ring
    modifies ring, elm
    ensures Ring(ring)
  {
    list.Insert(elm, ring, k);
    ghost var r := ring[..k + 1] + [elm] + ring[k + 1..];
    elm.Remove(r, k + 1);
    assert r[..k + 1] + r[k + 2..] == ring;
  }
}
