/** `struct wl_buffer`: a ring of 4096 bytes with free-running 32-bit `head` and
    `tail`, and the scatter/gather views handed to `sendmsg` and `recvmsg`. */
module RingBuffer {
  import opened Bytes

  const CAP := 4096

  /** The cell `i` places after the free-running position `from`. */
  function Cell(from: int, i: int): (c: nat)
    ensures c < CAP
  {
    (from + i) % CAP
  }

  /** How many places after position `from` cell `c` lies. */
  function Dist(from: int, c: int): (i: nat)
    ensures i < CAP
  {
    (c - from) % CAP
  }

  lemma DistOfCell(from: int, start: int, i: int)
    requires 0 <= start + i - from < CAP
    ensures Dist(from, Cell(start, i)) == start + i - from
  {
  }

  lemma CellOfDist(from: int, c: nat)
    requires c < CAP
    ensures Cell(from, Dist(from, c)) == c
  {
  }

  /** Two positions on the same cell. */
  ghost predicate Same(a: int, b: int) { Cell(a, 0) == Cell(b, 0) }

  lemma SameCells(a: int, b: int)
    requires Same(a, b)
    ensures forall i :: Cell(a, i) == Cell(b, i)
    ensures forall c :: Dist(a, c) == Dist(b, c)
  {
  }

  lemma SameWrapped(pos: int)
    ensures Same(pos % TWO32, pos) && Same(pos % CAP, pos)
  {
  }

  /** `n` consecutive cells from position `from` on. */
  function Arc(from: int, n: nat): (c: seq<int>)
    ensures |c| == n
  {
    seq(n, i => Cell(from, i))
  }

  /** The bytes held by those cells. */
  function Window(cells: seq<byte>, from: int, n: nat): (w: seq<byte>)
    requires |cells| == CAP
    ensures |w| == n
  {
    seq(n, i requires 0 <= i < n => cells[Cell(from, i)])
  }

  /** The ring after `src` was laid down from position `from` on. */
  function Filled(cells: seq<byte>, from: int, src: seq<byte>): (r: seq<byte>)
    requires |cells| == CAP
    requires |src| <= CAP
    ensures |r| == CAP
  {
    seq(CAP, c requires 0 <= c < CAP => if Dist(from, c) < |src| then src[Dist(from, c)] else cells[c])
  }

  /** Positions on the same cell are interchangeable, so 32-bit wrap-around is harmless. */
  lemma Congruent(cells: seq<byte>, a: int, b: int, n: nat, src: seq<byte>)
    requires |cells| == CAP && |src| <= CAP
    requires Same(a, b)
    ensures Arc(a, n) == Arc(b, n)
    ensures Window(cells, a, n) == Window(cells, b, n)
    ensures Filled(cells, a, src) == Filled(cells, b, src)
  {
    SameCells(a, b);
  }

  /** Laying bytes behind the stored ones appends them and leaves the stored ones alone. */
  lemma FilledAppends(cells: seq<byte>, tail: int, n: nat, src: seq<byte>)
    requires |cells| == CAP
    requires n + |src| <= CAP
    ensures Window(Filled(cells, tail + n, src), tail, n + |src|) == Window(cells, tail, n) + src
  {
  }

  /** One `struct iovec` pointing into the ring's cells. */
  datatype Iov = Iov(base: nat, len: nat)

  ghost predicate InRing(iov: seq<Iov>) {
    forall k | 0 <= k < |iov| :: iov[k].base + iov[k].len <= CAP
  }

  /** The cells an iovec list names, in the order the kernel visits them. */
  function Cells(iov: seq<Iov>): (c: seq<int>) {
    if iov == [] then [] else seq(iov[0].len, i => iov[0].base + i) + Cells(iov[1..])
  }

  lemma {:induction false} CellsOfTwo(iov: seq<Iov>)
    requires 1 <= |iov| <= 2
    ensures Cells(iov) == seq(iov[0].len, i => iov[0].base + i) +
                          if |iov| == 1 then [] else seq(iov[1].len, i => iov[1].base + i)
  {
    if |iov| == 2 {
      assert Cells(iov[1..]) == seq(iov[1].len, i => iov[1].base + i) + Cells(iov[2..]);
    }
  }

  lemma InArc(from: int, n: nat, c: nat)
    requires n <= CAP && c < CAP
    ensures c in Arc(from, n) <==> Dist(from, c) < n
  {
    CellOfDist(from, c);
    if Dist(from, c) < n {
      assert Arc(from, n)[Dist(from, c)] == c;
    }
    if c in Arc(from, n) {
      var j :| 0 <= j < n && Arc(from, n)[j] == c;
      DistOfCell(from, from, j);
    }
  }

  /** The stored cells and the free cells partition the ring. */
  lemma ArcsPartition(tail: int, n: nat, c: nat)
    requires n <= CAP && c < CAP
    ensures c in Arc(tail, n) <==> c !in Arc(tail + n, CAP - n)
  {
    InArc(tail, n, c);
    InArc(tail + n, CAP - n, c);
    CellOfDist(tail, c);
    var k := Dist(tail, c);
    if k < n {
      DistOfCell(tail + n - CAP, tail, k);
      ModShift(c - (tail + n), 1);
    } else {
      DistOfCell(tail + n, tail, k);
    }
  }

  /** The bytes the kernel reads when `sendmsg` is given `iov`. */
  function Gather(cells: seq<byte>, iov: seq<Iov>): (bytes: seq<byte>)
    requires |cells| == CAP && InRing(iov)
  {
    if iov == [] then []
    else cells[iov[0].base..iov[0].base + iov[0].len] + Gather(cells, iov[1..])
  }

  lemma {:induction false} GatherReadsCells(cells: seq<byte>, iov: seq<Iov>)
    requires |cells| == CAP && InRing(iov)
    ensures |Gather(cells, iov)| == |Cells(iov)|
    ensures forall k | 0 <= k < |Cells(iov)| ::
              0 <= Cells(iov)[k] < CAP && Gather(cells, iov)[k] == cells[Cells(iov)[k]]
  {
    if iov != [] {
      GatherReadsCells(cells, iov[1..]);
    }
  }

  /** An iovec list naming an arc of cells gathers exactly that window. */
  lemma {:induction false} GatherArc(cells: seq<byte>, iov: seq<Iov>, from: int, n: nat)
    requires |cells| == CAP && InRing(iov)
    requires Cells(iov) == Arc(from, n)
    ensures Gather(cells, iov) == Window(cells, from, n)
  {
    GatherReadsCells(cells, iov);
  }

  /** The two views together name every cell exactly once, for a ring neither empty nor full. */
  lemma {:induction false} IovPartition(head: u32, tail: u32, get: seq<Iov>, put: seq<Iov>, c: nat)
    requires 0 < Sub32(head, tail) < CAP && c < CAP
    requires Cells(get) == Arc(tail, Sub32(head, tail)) && Cells(put) == Arc(head, CAP - Sub32(head, tail))
    ensures c in Cells(get) <==> c !in Cells(put)
    ensures |Cells(get)| + |Cells(put)| == CAP
  {
    var n := Sub32(head, tail);
    ArcsPartition(tail, n, c);
    assert head == (tail + n) % TWO32;
    SameWrapped(tail + n);
    SameCells(head, tail + n);
    assert Arc(head, CAP - n) == Arc(tail + n, CAP - n);
  }

  /** `memcpy` into the ring's cells. */
  method Memcpy(dst: array<byte>, at: nat, src: seq<byte>)
    requires at + |src| <= dst.Length
    modifies dst
    ensures dst[..] == old(dst[..at]) + src + old(dst[at + |src|..])
  {
    forall i | 0 <= i < |src| {
      dst[at + i] := src[i];
    }
  }

  class WlBuffer {
    const data: array<byte>
    var head: u32
    var tail: u32

    constructor ()
      ensures head == tail == 0 && fresh(data)
      ensures Valid() && Contents() == []
    {
      data := new byte[CAP](_ => 0);
      head, tail := 0, 0;
    }

    function Size(): (n: nat)
      reads this
      ensures n < TWO32
    {
      Sub32(head, tail)
    }

    ghost predicate Valid()
      reads this
      ensures Valid() ==> data.Length == CAP && Size() <= CAP
    {
      data.Length == CAP && Size() <= CAP
    }

    /** The bytes queued in the ring, oldest first. */
    ghost function Contents(): (s: seq<byte>)
      requires Valid()
      reads this, data
      ensures |s| == Size()
    {
      Window(data[..], tail, Size())
    }

    /** `wl_buffer_put`: both `memcpy` cases; it does not look at how much is stored. */
    method Put(src: seq<byte>) returns (ok: bool)
      requires Valid()
      modifies this`head, data
      ensures ok == (|src| <= CAP)
      ensures !ok ==> head == old(head) && data[..] == old(data[..])
      ensures ok ==> head == Add32(old(head), |src|) && data[..] == Filled(old(data[..]), old(head), src)
      ensures ok ==> (Valid() <==> old(Size()) + |src| <= CAP)
      ensures ok && old(Size()) + |src| <= CAP ==> Contents() == old(Contents()) + src
    {
      hide Filled, Window, Dist, Cell, Add32, Sub32;
      ghost var cells := data[..];
      if |src| > CAP {
        return false;
      }
      var h := head % CAP;
      if h + |src| <= CAP {
        OneCopy(cells, head, src);
        Memcpy(data, h, src);
      } else {
        var size := CAP - h;
        WrapCopies(cells, head, src);
        Memcpy(data, h, src[..size]);
        Memcpy(data, 0, src[size..]);
      }
      PutAppends(cells, head, tail, src);
      head := Add32(head, |src|);
      return true;
    }

    /** `wl_buffer_copy`: the first `count` bytes, left in the ring. */
    method Copy(count: nat) returns (dst: seq<byte>)
      requires Valid() && count <= CAP
      ensures dst == Window(data[..], tail, count)
      ensures count <= Size() ==> dst == Contents()[..count]
    {
      var t := tail % CAP;
      if t + count <= CAP {
        dst := data[t..t + count];
      } else {
        var size := CAP - t;
        dst := data[t..] + data[..count - size];
      }
      assert dst == Window(data[..], t, count);
      SameWrapped(tail);
      Congruent(data[..], t, tail, count, []);
    }

    /** `b->tail += count`. */
    method Consume(count: nat)
      requires Valid() && count <= Size()
      modifies this`tail
      ensures tail == Add32(old(tail), count) && Size() == old(Size()) - count
      ensures Valid() && Contents() == old(Contents())[count..]
    {
      hide Window, Add32, Sub32;
      ConsumeDrops(data[..], head, tail, count);
      tail := Add32(tail, count);
    }

    /** `wl_buffer_put_iov`: the free cells in fill order, unless the ring is full. */
    method PutIov() returns (iov: seq<Iov>)
      requires Valid()
      ensures InRing(iov)
      ensures Cells(iov) == Arc(head, if Size() == CAP then CAP else CAP - Size())
    {
      var h, t := head % CAP, tail % CAP;
      if h < t {
        iov := [Iov(h, t - h)];
      } else if t == 0 {
        iov := [Iov(h, CAP - h)];
      } else {
        iov := [Iov(h, CAP - h), Iov(0, t)];
      }
      MaskedSize(head, tail);
      var n := if Size() == CAP then CAP else CAP - Size();
      CellsOfTwo(iov);
      assert Cells(iov) == Arc(h, n);
      SameWrapped(head);
      Congruent(data[..], h, head, n, []);
    }

    /** `wl_buffer_get_iov`: the stored cells in queue order, unless the ring is empty. */
    method GetIov() returns (iov: seq<Iov>)
      requires Valid()
      ensures InRing(iov)
      ensures Cells(iov) == Arc(tail, if Size() == 0 then CAP else Size())
    {
      var h, t := head % CAP, tail % CAP;
      if t < h {
        iov := [Iov(t, h - t)];
      } else if h == 0 {
        iov := [Iov(t, CAP - t)];
      } else {
        iov := [Iov(t, CAP - t), Iov(0, h)];
      }
      MaskedSize(head, tail);
      var n := if Size() == 0 then CAP else Size();
      CellsOfTwo(iov);
      assert Cells(iov) == Arc(t, n);
      SameWrapped(tail);
      Congruent(data[..], t, tail, n, []);
    }

    /** What the kernel does when `recvmsg` delivers `bytes` into `iov`: it fills the named cells in order. */
    method Scatter(iov: seq<Iov>, bytes: seq<byte>)
      requires Valid() && |bytes| <= |Cells(iov)| <= CAP
      requires Cells(iov) == Arc(head, |Cells(iov)|)
      modifies data
      ensures data[..] == Filled(old(data[..]), old(head), bytes)
    {
      var at := Cells(iov);
      for j := 0 to |bytes|
        invariant data[..] == Filled(old(data[..]), head, bytes[..j])
      {
        FilledStep(old(data[..]), head, bytes, j);
        data[at[j]] := bytes[j];
      }
      assert bytes[..|bytes|] == bytes;
    }
  }

  lemma FilledStep(cells: seq<byte>, from: int, src: seq<byte>, j: nat)
    requires |cells| == CAP && j < |src| <= CAP
    ensures Filled(cells, from, src[..j + 1]) == Filled(cells, from, src[..j])[Cell(from, j) := src[j]]
  {
  }

  /** What the two masked positions say about the number of stored bytes. */
  lemma MaskedSize(head: u32, tail: u32)
    requires Sub32(head, tail) <= CAP
    ensures var h, t, n := head % CAP, tail % CAP, Sub32(head, tail);
            if h == t then n == 0 || n == CAP else n == if t < h then h - t else CAP - t + h
  {
    var n := Sub32(head, tail);
    assert head == (tail + n) % TWO32;
    SameWrapped(tail + n);
    SameWrapped(tail);
    SameCells(tail % CAP, tail);
    if n < CAP {
      DistOfCell(tail, tail, n);
      assert Dist(tail % CAP, head % CAP) == n;
    } else {
      ModShift(tail, 1);
    }
  }

  lemma OneCopy(cells: seq<byte>, head: u32, src: seq<byte>)
    requires |cells| == CAP && head % CAP + |src| <= CAP
    ensures var h := head % CAP;
            cells[..h] + src + cells[h + |src|..] == Filled(cells, head, src)
  {
  }

  lemma WrapCopies(cells: seq<byte>, head: u32, src: seq<byte>)
    requires |cells| == CAP && |src| <= CAP < head % CAP + |src|
    ensures var h := head % CAP;
            var size := CAP - h;
            var once := cells[..h] + src[..size] + cells[h + size..];
            once[..0] + src[size..] + once[|src| - size..] == Filled(cells, head, src)
  {
  }

  /** Moving the tail drops the oldest bytes. */
  lemma ConsumeDrops(cells: seq<byte>, head: u32, tail: u32, count: nat)
    requires |cells| == CAP && count <= Sub32(head, tail) <= CAP
    ensures Sub32(head, Add32(tail, count)) == Sub32(head, tail) - count
    ensures Window(cells, Add32(tail, count), Sub32(head, tail) - count) ==
            Window(cells, tail, Sub32(head, tail))[count..]
  {
    hide Window, Filled, Arc, Cell, Same;
    var n := Sub32(head, tail);
    SameWrapped(tail + count);
    Congruent(cells, tail + count, Add32(tail, count), n - count, []);
    WindowDrop(cells, tail, n, count);
  }

  lemma WindowDrop(cells: seq<byte>, from: int, n: nat, count: nat)
    requires |cells| == CAP && count <= n
    ensures Window(cells, from + count, n - count) == Window(cells, from, n)[count..]
  {
  }

  /** The arithmetic of `wl_buffer_put` on a ring whose size still fits afterwards. */
  lemma PutAppends(cells: seq<byte>, head: u32, tail: u32, src: seq<byte>)
    requires |cells| == CAP && |src| <= CAP && Sub32(head, tail) <= CAP
    ensures Sub32(Add32(head, |src|), tail) == Sub32(head, tail) + |src|
    ensures Sub32(head, tail) + |src| <= CAP ==>
              Window(Filled(cells, head, src), tail, Sub32(head, tail) + |src|) ==
              Window(cells, tail, Sub32(head, tail)) + src
  {
    var n := Sub32(head, tail);
    if n + |src| <= CAP {
      assert (tail + n) % TWO32 == head;
      SameWrapped(tail + n);
      Congruent(cells, tail + n, head, 0, src);
      FilledAppends(cells, tail, n, src);
    }
  }
}
