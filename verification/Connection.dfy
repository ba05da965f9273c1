/** `struct wl_connection`: bytes and descriptors queued through rings, sent by a
    `sendmsg` that may take any part of what it is offered or fail. */
module Connection {
  import opened Bytes
  import opened RingBuffer
  import opened Ledgers

  /** What one `recvmsg` call comes back with; `again` is `errno == EAGAIN`. */
  datatype Recv = Failed(again: bool) | Eof | Data(bytes: seq<byte>, cmsgs: seq<Cmsg>)

  /** A control message: descriptors, or some other kind that is skipped. */
  datatype Cmsg = Rights(fds: seq<Fd>) | Other

  /** What `decode_cmsg` makes of the control messages: descriptors kept, descriptors closed. */
  datatype Received = Received(fds: seq<Fd>, closed: seq<Fd>, overflow: bool)

  function AllFds(cmsgs: seq<Cmsg>): seq<Fd> {
    if cmsgs == [] then []
    else (if cmsgs[0].Rights? then cmsgs[0].fds else []) + AllFds(cmsgs[1..])
  }

  /** Whole control messages are kept while there is room; from the first that does not fit on, all are closed. */
  function Keep(room: nat, cmsgs: seq<Cmsg>): (r: Received)
    ensures 4 * |r.fds| <= room
  {
    if cmsgs == [] then Received([], [], false)
    else if cmsgs[0].Other? then Keep(room, cmsgs[1..])
    else if 4 * |cmsgs[0].fds| > room then Received([], AllFds(cmsgs), true)
    else
      var rest := Keep(room - 4 * |cmsgs[0].fds|, cmsgs[1..]);
      Received(cmsgs[0].fds + rest.fds, rest.closed, rest.overflow)
  }

  /** No received descriptor leaks: it is kept, in order, or closed. */
  lemma {:induction false} KeepLeaksNothing(room: nat, cmsgs: seq<Cmsg>)
    ensures Keep(room, cmsgs).fds + Keep(room, cmsgs).closed == AllFds(cmsgs)
    ensures !Keep(room, cmsgs).overflow <==> 4 * |AllFds(cmsgs)| <= room
    ensures !Keep(room, cmsgs).overflow ==> Keep(room, cmsgs).closed == []
  {
    if cmsgs != [] {
      if cmsgs[0].Other? {
        KeepLeaksNothing(room, cmsgs[1..]);
      } else if 4 * |cmsgs[0].fds| <= room {
        KeepLeaksNothing(room - 4 * |cmsgs[0].fds|, cmsgs[1..]);
      }
    }
  }

  /** How many of the numbers below `n` are in `s`. */
  ghost function CountIn(s: iset<nat>, n: nat): nat {
    if n == 0 then 0 else CountIn(s, n - 1) + if n - 1 in s then 1 else 0
  }

  /** What is kept is whole control messages from the first on, as many as there is room for. */
  lemma {:induction false} KeepWhole(room: nat, cmsgs: seq<Cmsg>) returns (n: nat)
    ensures n <= |cmsgs| && Keep(room, cmsgs).fds == AllFds(cmsgs[..n])
    ensures n < |cmsgs| <==> Keep(room, cmsgs).overflow
    ensures n < |cmsgs| ==> 4 * |AllFds(cmsgs[..n + 1])| > room
  {
    if cmsgs == [] {
      n := 0;
    } else if cmsgs[0].Rights? && 4 * |cmsgs[0].fds| > room {
      n := 0;
      assert cmsgs[..1][1..] == [];
    } else {
      n := KeepWhole(room - if cmsgs[0].Rights? then 4 * |cmsgs[0].fds| else 0, cmsgs[1..]);
      n := n + 1;
      assert cmsgs[..n][1..] == cmsgs[1..][..n - 1];
      if n < |cmsgs| {
        assert cmsgs[..n + 1][1..] == cmsgs[1..][..n];
      }
    }
  }

  /** Our end of the socket. `SendMsg` is every behaviour the kernel may show: which calls it
      refuses is not ours to choose, and of the others it takes any non-empty prefix. */
  class Socket {
    const refusals: iset<nat>
    var calls: nat
    var sends: seq<Send>

    constructor ()
      ensures sends == [] && calls == 0
    {
      refusals := *;
      calls, sends := 0, [];
    }

    /** How many calls were refused so far. */
    ghost function Refused(): nat
      reads this
    {
      CountIn(refusals, calls)
    }

    method SendMsg(bytes: seq<byte>, fds: seq<Fd>) returns (len: int)
      requires bytes != []
      modifies this
      ensures calls == old(calls) + 1 && (len == -1 <==> old(calls) in refusals)
      ensures len == -1 || 1 <= len <= |bytes|
      ensures sends == if len == -1 then old(sends) else old(sends) + [Send(bytes[..len], fds)]
      ensures Refused() == old(Refused()) + if len == -1 then 1 else 0
    {
      var call := calls;
      calls := calls + 1;
      if call in refusals {
        return -1;
      }
      len :| 1 <= len <= |bytes|;
      sends := sends + [Send(bytes[..len], fds)];
    }
  }

  /** Reads the descriptors out of their byte image. */
  method ReadFds(bytes: seq<byte>, ghost q: seq<Fd>) returns (fds: seq<Fd>)
    requires bytes == FdBytes(q)
    ensures fds == q
  {
    fds := [];
    while |fds| < |bytes| / 4
      invariant |fds| <= |q| && fds == q[..|fds|]
    {
      var i := |fds|;
      FdBytesTake(q, i);
      assert bytes[4 * i..4 * i + 4] == FdBytes(q[i..])[..4];
      WordOfLe32(q[i]);
      fds := fds + [Word(bytes[4 * i..4 * i + 4])];
    }
  }

  /** `close_fds`: closes the first `max` (all, when not positive) queued descriptors and empties the ring. */
  method CloseFds(b: WlBuffer, max: int, ghost q: seq<Fd>) returns (closed: seq<Fd>)
    requires b.Valid() && b.Contents() == FdBytes(q)
    modifies b`tail
    ensures b.Valid() && b.Contents() == []
    ensures closed == if max == MAX_FDS_OUT then FirstFds(q) else if 0 < max < |q| then q[..max] else q
  {
    var size := b.Size();
    if size == 0 {
      return [];
    }
    var bytes := b.Copy(size);
    var fds := ReadFds(bytes, q);
    var count := |fds|;
    if max > 0 && max < count {
      count := max;
    }
    closed := fds[..count];
    b.Consume(size);
  }

  /** `build_cmsg`: the descriptors the next `sendmsg` carries. */
  method BuildCmsg(b: WlBuffer, ghost q: seq<Fd>) returns (fds: seq<Fd>)
    requires b.Valid() && b.Contents() == FdBytes(q)
    ensures fds == FirstFds(q)
  {
    var size := b.Size();
    if size > MAX_FDS_OUT * 4 {
      size := MAX_FDS_OUT * 4;
    }
    ghost var n := if |q| > MAX_FDS_OUT then MAX_FDS_OUT else |q|;
    FdBytesTake(q, n);
    assert FirstFds(q) == q[..n];
    var bytes := b.Copy(size);
    fds := ReadFds(bytes, q[..n]);
  }

  lemma {:induction false} KeepStep(room: nat, cmsgs: seq<Cmsg>, i: nat)
    requires i < |cmsgs|
    ensures AllFds(cmsgs[i..]) == (if cmsgs[i].Rights? then cmsgs[i].fds else []) + AllFds(cmsgs[i + 1..])
    ensures Keep(room, cmsgs[i..]) ==
            if cmsgs[i].Other? then Keep(room, cmsgs[i + 1..])
            else if 4 * |cmsgs[i].fds| > room then Received([], AllFds(cmsgs[i..]), true)
            else var rest := Keep(room - 4 * |cmsgs[i].fds|, cmsgs[i + 1..]);
              Received(cmsgs[i].fds + rest.fds, rest.closed, rest.overflow)
  {
  }

  lemma KeepNone()
    ensures AllFds([]) == [] && forall room: nat :: Keep(room, []) == Received([], [], false)
  {
  }

  method PutFds(b: WlBuffer, fds: seq<Fd>, ghost q: seq<Fd>)
    requires b.Valid() && b.Contents() == FdBytes(q) && 4 * |fds| <= CAP - b.Size()
    modifies b`head, b.data
    ensures b.Valid() && b.Contents() == FdBytes(q + fds) && b.Size() == old(b.Size()) + 4 * |fds|
  {
    hide Window, Filled, FdBytes;
    FdBytesConcat(q, fds);
    var put := b.Put(FdBytes(fds));
  }

  /** `decode_cmsg`. */
  method DecodeCmsg(b: WlBuffer, cmsgs: seq<Cmsg>, ghost q: seq<Fd>) returns (ok: bool, closed: seq<Fd>)
    requires b.Valid() && b.Contents() == FdBytes(q)
    modifies b`head, b.data
    ensures b.Valid()
    ensures var kept := Keep(CAP - old(b.Size()), cmsgs);
            b.Contents() == FdBytes(q + kept.fds) && closed == kept.closed && ok == !kept.overflow
  {
    hide Window, Filled, FdBytes, WlBuffer.Contents, WlBuffer.Size, WlBuffer.Valid, Keep, AllFds;
    KeepNone();
    ghost var kept := Keep(CAP - b.Size(), cmsgs);
    ghost var taken := [];
    closed := [];
    var overflow := false;
    assert q + taken == q && cmsgs[0..] == cmsgs;
    for i := 0 to |cmsgs|
      invariant b.Valid() && b.Contents() == FdBytes(q + taken)
      invariant overflow ==> kept == Received(taken, closed + AllFds(cmsgs[i..]), true)
      invariant !overflow ==> closed == [] &&
                              var rest := Keep(CAP - b.Size(), cmsgs[i..]);
                              kept == Received(taken + rest.fds, rest.closed, rest.overflow)
    {
      KeepStep(CAP - b.Size(), cmsgs, i);
      if cmsgs[i].Rights? {
        var fds := cmsgs[i].fds;
        if 4 * |fds| > CAP - b.Size() || overflow {
          overflow := true;
          assert closed + (fds + AllFds(cmsgs[i + 1..])) == closed + fds + AllFds(cmsgs[i + 1..]);
          closed := closed + fds;
        } else {
          ghost var rest := Keep(CAP - b.Size() - 4 * |fds|, cmsgs[i + 1..]);
          assert taken + (fds + rest.fds) == taken + fds + rest.fds;
          PutFds(b, fds, q + taken);
          assert q + taken + fds == q + (taken + fds);
          taken := taken + fds;
        }
      }
    }
    assert cmsgs[|cmsgs|..] == [] && taken + [] == taken && closed + [] == closed;
    ok := !overflow;
  }

  class WlConnection {
    const input: WlBuffer
    const output: WlBuffer
    const fdsIn: WlBuffer
    const fdsOut: WlBuffer
    const sock: Socket
    var wantFlush: bool
    /** The history of the output direction. */
    ghost var out: Ledger
    /** Descriptors waiting in `fds_in`. */
    ghost var fdInQueue: seq<Fd>

    constructor ()
      ensures Valid() && fresh(Repr())
      ensures out == NothingYet()
      ensures input.Contents() == [] && fdInQueue == [] && fdsIn.tail == 0 && !wantFlush && sock.Refused() == 0
    {
      hide Ledger.Balanced, Window, WlBuffer.Contents, WlBuffer.Size, WlBuffer.Valid, SentBytes, SentFds, Cell;
      input := new WlBuffer();
      output := new WlBuffer();
      fdsIn := new WlBuffer();
      fdsOut := new WlBuffer();
      sock := new Socket();
      wantFlush := false;
      out := NothingYet();
      fdInQueue := [];
    }

    ghost function OutRepr(): set<object> {
      {sock, output, output.data, fdsOut, fdsOut.data}
    }

    ghost function InRepr(): set<object> {
      {input, input.data, fdsIn, fdsIn.data}
    }

    ghost function Repr(): set<object> {
      {this} + OutRepr() + InRepr()
    }

    ghost predicate ValidOut()
      reads this`out, OutRepr()
    {
      && output != fdsOut && output.data != fdsOut.data
      && output.Valid() && fdsOut.Valid()
      && out.sends == sock.sends
      && out.pending == output.Contents()
      && FdBytes(out.queue) == fdsOut.Contents()
      && out.Balanced()
    }

    ghost predicate ValidIn()
      reads this`fdInQueue, InRepr()
    {
      && input != fdsIn && input.data != fdsIn.data
      && input.Valid() && fdsIn.Valid()
      && FdBytes(fdInQueue) == fdsIn.Contents()
    }

    ghost predicate Valid()
      reads Repr()
    {
      InRepr() !! OutRepr() && ValidIn() && ValidOut()
    }

    /** One turn of the flush loop: offer everything, keep what was not taken. */
    method SendSome() returns (len: int)
      requires ValidOut() && out.pending != []
      modifies this`out, sock, output`tail, fdsOut`tail
      ensures ValidOut()
      ensures len == -1 || 1 <= len <= |old(out).pending|
      ensures out == if len == -1 then old(out) else old(out).AfterSend(len)
      ensures sock.Refused() == old(sock.Refused()) + if len == -1 then 1 else 0
    {
      hide Ledger.Balanced, Window, Gather, Cells, Arc, CountIn;
      var iov := output.GetIov();
      GatherArc(output.data[..], iov, output.tail, output.Size());
      var fds := BuildCmsg(fdsOut, out.queue);
      len := sock.SendMsg(Gather(output.data[..], iov), fds);
      if len == -1 {
        return;
      }
      out.SendKeepsBalance(len);
      var closed := CloseFds(fdsOut, MAX_FDS_OUT, out.queue);
      output.Consume(len);
      out := out.AfterSend(len);
    }

    /** Whatever waits will go out with the next flush. */
    ghost predicate Scheduled()
      reads this
    {
      out.pending != [] ==> wantFlush
    }

    /** `wl_connection_flush`: sends until everything is gone or a `sendmsg` is refused. */
    method Flush() returns (r: int)
      requires ValidOut()
      modifies this`wantFlush, this`out, sock, output`tail, fdsOut`tail
      ensures ValidOut() && out.Follows(old(out))
      ensures r == if !old(wantFlush) then 0 else if out.pending == [] then |old(out).pending| else -1
      ensures wantFlush <==> r == -1
      ensures !old(wantFlush) || old(out).pending == [] ==> out == old(out)
      ensures sock.Refused() == old(sock.Refused()) + if r == -1 then 1 else 0
      ensures old(wantFlush) && sock.Refused() == old(sock.Refused()) ==> out.pending == [] && r == |old(out).pending|
      ensures out.pending == [] ==> SentBytes(sock.sends) == SentBytes(old(sock.sends)) + old(out).pending
    {
      hide Ledger.Balanced, Window, SentBytes, SentFds, Timely, Socket.Refused;
      BalanceShows();
      if !wantFlush {
        return 0;
      }
      var queued := output.Size();
      while output.Size() > 0
        invariant ValidOut() && out.Follows(old(out))
        invariant wantFlush
        invariant old(out).pending == [] ==> out == old(out)
        invariant sock.Refused() == old(sock.Refused())
        decreases output.Size()
      {
        ghost var before := out;
        var len := SendSome();
        if len == -1 {
          return -1;
        }
        before.FollowsSend(old(out), len);
      }
      wantFlush := false;
      BalanceShows();
      return queued;
    }

    lemma BalanceShows()
      requires ValidOut()
      ensures SentBytes(sock.sends) + out.pending == out.written
    {
    }

    /** `wl_connection_write` when `flushLater`, `wl_connection_queue` otherwise. */
    method Write(src: seq<byte>, flushLater: bool) returns (ok: bool)
      requires ValidOut()
      modifies this`wantFlush, this`out, sock, output, output.data, fdsOut`tail
      ensures ValidOut()
      ensures exists mid: Ledger :: mid.Follows(old(out)) && out == (if ok then mid.AfterWrite(src) else mid) &&
                (|old(out).pending| + |src| <= CAP ==> mid == old(out)) &&
                (ok && |old(out).pending| + |src| > CAP ==> mid.pending == [])
      ensures !ok ==> |old(out).pending| + |src| > CAP && (|src| > CAP || out.pending != [])
      ensures ok ==> |src| <= CAP
      ensures wantFlush <==> if !ok then out.pending != []
                             else flushLater || (old(wantFlush) && |old(out).pending| + |src| <= CAP)
      ensures sock.Refused() == old(sock.Refused()) + if !ok && out.pending != [] then 1 else 0
    {
      hide Ledger.Balanced, Window, Filled, SentBytes, Socket.Refused;
      if output.Size() + |src| > CAP {
        wantFlush := true;
        var r := Flush();
        if r < 0 {
          return false;
        }
      }
      ghost var mid := out;
      ok := output.Put(src);
      if !ok {
        return;
      }
      out.WriteKeepsBalance(src);
      out := out.AfterWrite(src);
      if flushLater {
        wantFlush := true;
      }
    }

    /** `wl_connection_put_fd`: flushes first when exactly 28 descriptors wait. */
    method PutFd(fd: Fd) returns (ok: bool)
      requires ValidOut()
      requires |out.queue| < CAP / 4
      modifies this`wantFlush, this`out, sock, output`tail, fdsOut, fdsOut.data
      ensures ValidOut()
      ensures exists mid: Ledger :: mid.Follows(old(out)) && out == (if ok then mid.AfterPost(fd) else mid) &&
                (|old(out).queue| != MAX_FDS_OUT ==> ok && mid == old(out)) &&
                (|old(out).queue| == MAX_FDS_OUT ==> (ok <==> mid.pending == []))
      ensures sock.Refused() == old(sock.Refused()) + if ok then 0 else 1
      ensures old(Scheduled()) || !ok ==> Scheduled()
    {
      hide Ledger.Balanced, Window, Filled, SentBytes, Socket.Refused;
      if fdsOut.Size() == MAX_FDS_OUT * 4 {
        wantFlush := true;
        var r := Flush();
        if r < 0 {
          return false;
        }
      }
      ghost var mid := out;
      ok := fdsOut.Put(Le32(fd));
      FdBytesConcat(out.queue, [fd]);
      assert FdBytes([fd]) == Le32(fd);
      out.PostKeepsBalance(fd);
      out := out.AfterPost(fd);
    }

    /** `wl_connection_copy` followed by `wl_connection_consume`. */
    method TakeBytes(len: nat) returns (chunk: seq<byte>)
      requires ValidIn() && len <= input.Size()
      modifies input`tail
      ensures ValidIn() && chunk == old(input.Contents())[..len]
      ensures input.Contents() == old(input.Contents())[len..] && fdsIn.tail == old(fdsIn.tail)
    {
      hide Window, FdBytes;
      chunk := input.Copy(len);
      input.Consume(len);
    }

    /** `wl_connection_read`, given what its `recvmsg` comes back with. */
    method Read(ev: Recv) returns (r: int)
      requires ValidIn()
      requires ev.Data? && input.Size() < CAP ==> 1 <= |ev.bytes| <= CAP - input.Size()
      modifies this`fdInQueue, input`head, input.data, fdsIn`head, fdsIn.data
      ensures ValidIn()
      ensures var kept := if old(input.Size()) < CAP && ev.Data? then Keep(CAP - old(fdsIn.Size()), ev.cmsgs)
                          else Received([], [], false);
              && fdInQueue == old(fdInQueue) + kept.fds
              && if old(input.Size()) < CAP && ev.Data? && !kept.overflow
                 then input.Contents() == old(input.Contents()) + ev.bytes && r == input.Size()
                 else && input.Contents() == old(input.Contents())
                      && r == if old(input.Size()) < CAP && ev.Eof? then 0 else -1
    {
      hide Filled, Keep;
      if input.Size() >= CAP {
        return -1;
      }
      var iov := input.PutIov();
      if ev.Failed? {
        return -1;
      }
      if ev.Eof? {
        return 0;
      }
      PutAppends(input.data[..], input.head, input.tail, ev.bytes);
      input.Scatter(iov, ev.bytes);
      ghost var all := Window(input.data[..], input.tail, input.Size() + |ev.bytes|);
      assert all == old(input.Contents()) + ev.bytes;
      assert input.Contents() == all[..input.Size()];
      var ok, closed := DecodeCmsg(fdsIn, ev.cmsgs, fdInQueue);
      fdInQueue := fdInQueue + Keep(CAP - old(fdsIn.Size()), ev.cmsgs).fds;
      if !ok {
        return -1;
      }
      input.head := Add32(input.head, |ev.bytes|);
      return input.Size();
    }
  }

  /** Descriptors put all at once, as they lie in a ring. */
  method PutFlat(dst: WlConnection, flat: seq<byte>, ghost fds: seq<Fd>) returns (ok: bool)
    requires dst.ValidOut() && flat == FdBytes(fds) && |fds| + |dst.out.queue| <= CAP / 4
    modifies dst`out, dst.fdsOut`head, dst.fdsOut.data
    ensures ok && dst.ValidOut() && dst.out == old(dst.out).AfterPosts(fds)
  {
    hide Ledger.Balanced, Window, Filled, FdBytes, Ledger.AfterPosts;
    ok := dst.fdsOut.Put(flat);
    FdBytesConcat(dst.out.queue, fds);
    dst.out.PostsKeepBalance(fds);
    dst.out := dst.out.AfterPosts(fds);
  }

  /** `wl_connection_copy_fds`: moves the received descriptors of one connection to the output
      of another. It reads them flat from `fds_in.data + fds_in.tail`, which stays inside the
      buffer only while the unmasked tail plus the size does. */
  method CopyFds(src: WlConnection, dst: WlConnection) returns (ok: bool)
    requires src.ValidIn() && dst.ValidOut() && src.InRepr() !! dst.OutRepr() && src != dst
    requires src.fdInQueue != [] ==> src.fdsIn.tail + 4 * |src.fdInQueue| <= CAP
    requires |src.fdInQueue| + |dst.out.queue| <= CAP / 4
    modifies src`fdInQueue, src.fdsIn`tail
    modifies dst`wantFlush, dst`out, dst.sock, dst.output`tail, dst.fdsOut, dst.fdsOut.data
    ensures src.ValidIn() && dst.ValidOut()
    ensures src.input.Size() == old(src.input.Size())
    ensures src.fdInQueue == if ok then [] else old(src.fdInQueue)
    ensures src.fdsIn.tail == if ok then Add32(old(src.fdsIn.tail), 4 * |old(src.fdInQueue)|) else old(src.fdsIn.tail)
    ensures exists mid: Ledger :: mid.Follows(old(dst.out)) &&
              dst.out == (if ok then mid.AfterPosts(old(src.fdInQueue)) else mid) &&
              var many := old(src.fdInQueue) != [] && |old(src.fdInQueue)| + |old(dst.out).queue| >= MAX_FDS_OUT;
              if many then ok <==> mid.pending == [] else ok && mid == old(dst.out)
    ensures dst.sock.Refused() == old(dst.sock.Refused()) + if ok then 0 else 1
  {
    hide Ledger.Balanced, Window, Filled, FdBytes, Ledger.AfterPosts, SentBytes, SentFds, WlBuffer.Size, WlBuffer.Valid,
      Socket.Refused;
    var size := src.fdsIn.Size();
    if size == 0 {
      dst.out.PostsOfNone();
      return true;
    }
    if size + dst.fdsOut.Size() >= MAX_FDS_OUT * 4 {
      dst.wantFlush := true;
      var r := dst.Flush();
      if r < 0 {
        return false;
      }
    }
    var flat := src.fdsIn.data[src.fdsIn.tail..src.fdsIn.tail + size];
    FlatWindow(src.fdsIn.data[..], src.fdsIn.tail, size);
    ok := PutFlat(dst, flat, src.fdInQueue);
    src.fdsIn.Consume(size);
    src.fdInQueue := [];
  }

  lemma FlatWindow(cells: seq<byte>, from: nat, n: nat)
    requires |cells| == CAP && from + n <= CAP
    ensures Window(cells, from, n) == cells[from..from + n]
  {
  }

  /** Memory from the start of a ring's cells on; what lies behind them is arbitrary. */
  ghost predicate Begins(mem: nat -> byte, cells: seq<byte>) {
    forall i: nat | i < |cells| :: mem(i) == cells[i]
  }

  function Flat(mem: nat -> byte, from: nat, n: nat): (r: seq<byte>)
    ensures |r| == n
  {
    seq(n, i requires 0 <= i => mem(from + i))
  }

  /** The flat copy of `wl_connection_copy_fds` reads the queued descriptors, whatever lies behind
      the ring, exactly when it stays inside it; a tail that has counted past 4096 bytes does not. */
  lemma FlatCopyExact(cells: seq<byte>, tail: u32, n: nat)
    requires |cells| == CAP && 0 < n <= CAP
    ensures tail + n <= CAP <==>
            forall mem: nat -> byte | Begins(mem, cells) :: Flat(mem, tail, n) == Window(cells, tail, n)
  {
    var w := Window(cells, tail, n);
    if tail + n <= CAP {
      FlatWindow(cells, tail, n);
      forall mem: nat -> byte | Begins(mem, cells)
        ensures Flat(mem, tail, n) == w
      {
        assert w == cells[tail..tail + n];
      }
    } else {
      var other: byte := if w[n - 1] == 0 then 1 else 0;
      var mem: nat -> byte := (i: nat) => if i < CAP && i < |cells| then cells[i] else other;
      assert Begins(mem, cells);
      assert Flat(mem, tail, n)[n - 1] != w[n - 1];
    }
  }
}
