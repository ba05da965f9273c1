/** The man-in-the-middle loop of `src/wldbg.c`: read a chunk from one side, run the
    passes over its messages, write and flush them to the other side. */
module Proxy {
  import opened Bytes
  import opened RingBuffer
  import opened Ledgers
  import opened Connection
  import opened Wire
  import opened Pipeline

  /** Nothing waits for output. */
  ghost predicate Drained(l: Ledger) {
    l.pending == [] && l.queue == [] && l.lost == []
  }

  /** One direction, from the input of `src` to the output of `dst`: what was accepted for the
      peer is what is due to it. */
  ghost predicate Lane(src: WlConnection, dst: WlConnection, due: seq<byte>)
    reads src`fdInQueue, src.InRepr(), dst`out, dst.OutRepr()
  {
    src.ValidIn() && dst.ValidOut() && dst.out.written == due
  }

  /** The objects of a direction are distinct from each other, from the scratch buffer and from `obj`. */
  ghost predicate Separate(obj: object, buffer: array<byte>, src: WlConnection, dst: WlConnection) {
    && src != dst && src.InRepr() !! dst.OutRepr()
    && buffer !in src.InRepr() && buffer !in dst.OutRepr() && obj !in src.InRepr() && obj !in dst.OutRepr()
  }

  /** The other direction shares nothing with it. */
  ghost predicate Unrelated(obj: object, buffer: array<byte>, src: WlConnection, dst: WlConnection) {
    && Separate(obj, buffer, src, dst) && Separate(obj, buffer, dst, src)
    && src.InRepr() !! src.OutRepr() && src.InRepr() !! dst.InRepr()
    && dst.OutRepr() !! src.OutRepr() && dst.OutRepr() !! dst.InRepr()
    && src !in dst.InRepr() && src !in src.OutRepr() && dst !in dst.InRepr() && dst !in src.OutRepr()
    && src !in src.InRepr() && src !in dst.OutRepr() && dst !in src.InRepr() && dst !in dst.OutRepr()
    && obj != src && obj != dst
  }

  lemma ReprAllocated(c: WlConnection)
    ensures allocated(c.InRepr()) && allocated(c.OutRepr())
  {
  }

  lemma SockInRepr(c: WlConnection)
    ensures c.sock in c.OutRepr()
  {
  }

  /** The rings of a direction between dispatches, after `fds` came through. */
  ghost predicate Still(src: WlConnection, dst: WlConnection, fds: seq<Fd>)
    reads src`fdInQueue, src.InRepr(), dst`out
  {
    && Drained(dst.out) && FdsOf(dst.out.posted) == fds
    && src.input.Size() == 0 && src.fdInQueue == [] && src.fdsIn.tail == 4 * |fds| % TWO32
  }

  /** Both at once. */
  ghost predicate Resting(src: WlConnection, dst: WlConnection, due: seq<byte>, fds: seq<Fd>)
    reads src`fdInQueue, src.InRepr(), dst`out, dst.OutRepr()
  {
    Lane(src, dst, due) && Still(src, dst, fds)
  }

  /** Why a dispatch may fail: nothing could be read, a pass asked to quit, or the socket written to refused. */
  ghost predicate Stops<S>(ev: Recv, world: World<S>, refused: bool) {
    match ev
    case Failed(again) => !again
    case Eof => true
    case Data(_, _) => world.Quits() || refused
  }

  /** A dispatch fails exactly for one of these reasons, and leaves bytes behind exactly if it was refused;
      `refused` is how many calls were refused before. */
  ghost predicate Took<S>(ev: Recv, world: World<S>, ret: int, dst: WlConnection, refused: nat)
    reads dst`out, dst.sock
  {
    && dst.sock.Refused() == refused + (if dst.out.pending != [] then 1 else 0)
    && (ret > 0 ==> dst.out.pending == [])
    && (ret <= 0 <==> Stops(ev, world, dst.sock.Refused() > refused))
  }

  /** `wl_connection_write` followed by `wl_connection_flush`, on a connection with nothing pending. */
  method Forward(dst: WlConnection, msg: seq<byte>) returns (ok: bool)
    requires dst.ValidOut() && dst.out.pending == [] && dst.out.lost == [] && |dst.out.queue| <= MAX_FDS_OUT
    requires 0 < |msg| <= CAP
    modifies dst`wantFlush, dst`out, dst.sock, dst.output, dst.output.data, dst.fdsOut`tail
    ensures dst.ValidOut()
    ensures dst.out.written == old(dst.out).written + msg && dst.out.posted == old(dst.out).posted
    ensures ok ==> Drained(dst.out)
    ensures ok <==> dst.out.pending == []
    ensures dst.sock.Refused() == old(dst.sock.Refused()) + if ok then 0 else 1
  {
    hide Ledger.Balanced, Window, SentBytes, SentFds, Timely, FdBytes, Socket.Refused;
    ghost var before := dst.out;
    var w := dst.Write(msg, true);
    assert dst.out == before.AfterWrite(msg);
    var r := dst.Flush();
    return r >= 0;
  }

  class Wldbg<S(!new)> {
    const passes: seq<Pass<S>>
    const client: WlConnection
    const server: WlConnection
    const buffer: array<byte>
    const passWholeBuffer: bool
    var world: World<S>
    /** The state before the first message, every message run through the passes and written on,
        and the descriptors received, by side. */
    ghost const start: World<S>
    ghost var log: seq<Entry>
    ghost var clientFds: seq<Fd>
    ghost var serverFds: seq<Fd>

    /** A pair of new connections, as set up for one client. */
    constructor (passes: seq<Pass<S>>, wholeBuffer: bool, data: S,
                 client: WlConnection, server: WlConnection, buffer: array<byte>)
      requires SizeKeeping(passes) && buffer.Length == CAP
      requires buffer !in client.Repr() && buffer !in server.Repr()
      requires client.Valid() && server.Valid() && client.Repr() !! server.Repr()
      requires Lane(client, server, []) && Lane(server, client, [])
      requires Still(client, server, []) && Still(server, client, [])
      ensures Valid() && Idle() && log == [] && clientFds == serverFds == []
      ensures this.client == client && this.server == server && this.passes == passes
      ensures this.buffer == buffer && passWholeBuffer == wholeBuffer && start == World(data, false, false)
    {
      hide SizeKeeping, Lane, Still;
      this.passes, passWholeBuffer := passes, wholeBuffer;
      this.client := client;
      this.server := server;
      this.buffer := buffer;
      world := World(data, false, false);
      start := World(data, false, false);
      log, clientFds, serverFds := [], [], [];
    }

    function End(s: Side): WlConnection { if s == Server then server else client }

    ghost function Repr(): set<object> {
      {this, buffer, client, server} + client.InRepr() + client.OutRepr() + server.InRepr() + server.OutRepr()
    }

    ghost predicate Apart() {
      && client.Repr() !! server.Repr()
      && client.InRepr() !! client.OutRepr() && server.InRepr() !! server.OutRepr()
      && this !in client.Repr() && this !in server.Repr()
      && buffer !in client.Repr() && buffer !in server.Repr()
      && buffer.Length == CAP && SizeKeeping(passes)
    }

    lemma LanesApart()
      requires Apart()
      ensures Unrelated(this, buffer, client, server) && Unrelated(this, buffer, server, client)
    {
    }

    lemma ApartIs()
      requires Apart()
      ensures buffer.Length == CAP && SizeKeeping(passes)
    {
    }

    /** What the messages so far come to. */
    ghost function Due(): Played<S>
      reads this`log
    {
      Play(passes, start, log)
    }

    /** Each peer has been given, or is still due, the messages of the other as the passes left them. */
    ghost predicate Valid()
      reads Repr()
    {
      && Apart()
      && Lane(client, server, Due().toServer) && Lane(server, client, Due().toClient)
    }

    /** Between dispatches: rings empty, flags down, descriptors passed on in order. */
    ghost predicate Idle()
      reads Repr()
    {
      && !world.Quits() && world == Due().world
      && Still(client, server, clientFds) && Still(server, client, serverFds)
    }

    /** `run_passes` on the message at `off` in the scratch buffer; `rs` is what the passes returned. */
    method RunPasses(from: Side, off: nat, size: nat) returns (ghost rs: seq<Result<S>>)
      requires buffer.Length == CAP && SizeKeeping(passes) && off + size <= CAP
      modifies this`world, buffer
      ensures (world, buffer[off..off + size]) == Piped(passes, from, old(world), old(buffer[off..off + size]))
      ensures Leaves(passes, from, old(world), old(buffer[off..off + size]), rs, world, buffer[off..off + size])
      ensures buffer[off + size..] == old(buffer[off + size..])
    {
      assert passes[0..] == passes;
      rs := [Result(world, buffer[off..off + size], Next)];
      for k := 0 to |passes|
        invariant |rs| == k + 1 && rs[0] == Result(old(world), old(buffer[off..off + size]), Next)
        invariant rs[k] == Result(world, buffer[off..off + size], Next)
        invariant forall i | 0 <= i < k :: Follows(passes[i], from, rs[i], rs[i + 1])
        invariant Piped(passes, from, old(world), old(buffer[off..off + size])) ==
                  Piped(passes[k..], from, world, buffer[off..off + size])
        invariant buffer[off + size..] == old(buffer[off + size..])
      {
        assert passes[k..][0] == passes[k] && passes[k..][1..] == passes[k + 1..];
        var r := passes[k].On(from, world, buffer[off..off + size]);
        assert |r.msg| == size;
        world := r.world;
        Memcpy(buffer, off, r.msg);
        assert buffer[off..off + size] == r.msg;
        rs := rs + [r];
        if r.verdict.Stop? {
          return;
        }
      }
    }

    /** The body of the loop of `process_one_by_one`, and of whole-buffer mode: 1 when the message
        went through, 0 when a pass asked to exit, -1 on an error. */
    method PassOn(from: Side, off: nat, size: nat, dst: WlConnection) returns (r: int)
      requires buffer.Length == CAP && SizeKeeping(passes) && dst == End(Peer(from))
      requires this !in dst.OutRepr() && buffer !in dst.OutRepr()
      requires 0 < size && off + size <= CAP
      requires dst.ValidOut() && dst.out.pending == [] && dst.out.lost == [] && |dst.out.queue| <= MAX_FDS_OUT
      requires dst.out.written == Due().To(Peer(from)) && world == Due().world
      modifies this`world, this`log, buffer
      modifies dst`wantFlush, dst`out, dst.sock, dst.output, dst.output.data, dst.fdsOut`tail
      ensures dst.ValidOut() && dst.out.posted == old(dst.out.posted)
      ensures dst.out.written == Due().To(Peer(from)) && Due().To(from) == old(Due()).To(from)
      ensures buffer[off + size..] == old(buffer[off + size..])
      ensures r == if world.exit then 0 else if world.error || dst.out.pending != [] then -1 else 1
      ensures if world.Quits() then log == old(log) && dst.out == old(dst.out)
              else log == old(log) + [Entry(from, old(buffer[off..off + size]))] && world == Due().world
      ensures r == 1 ==> Drained(dst.out)
      ensures dst.sock.Refused() == old(dst.sock.Refused()) + if dst.out.pending != [] then 1 else 0
    {
      hide SizeKeeping, Piped, WlConnection.ValidOut, Play, Socket.Refused;
      ghost var e := Entry(from, buffer[off..off + size]);
      PlaySnoc(passes, start, log, e);
      ghost var rs := RunPasses(from, off, size);
      if world.exit {
        return 0;
      }
      if world.error {
        return -1;
      }
      var ok := Forward(dst, buffer[off..off + size]);
      log := log + [e];
      return if ok then 1 else -1;
    }

    /** `process_one_by_one` on the first `len` bytes of the scratch buffer. */
    method ProcessOneByOne(from: Side, len: nat, dst: WlConnection) returns (ret: int)
      requires buffer.Length == CAP && SizeKeeping(passes) && dst == End(Peer(from))
      requires this !in dst.OutRepr() && buffer !in dst.OutRepr()
      requires len <= CAP && Framed(buffer[..len])
      requires dst.ValidOut() && dst.out.pending == [] && dst.out.lost == [] && |dst.out.queue| <= MAX_FDS_OUT
      requires dst.out.written == Due().To(Peer(from)) && world == Due().world
      modifies this`world, this`log, buffer
      modifies dst`wantFlush, dst`out, dst.sock, dst.output, dst.output.data, dst.fdsOut`tail
      ensures dst.ValidOut() && dst.out.posted == old(dst.out.posted)
      ensures dst.out.written == Due().To(Peer(from)) && Due().To(from) == old(Due()).To(from)
      ensures old(log) <= log <= old(log) + Frames(old(buffer[..len]), from)
      ensures ret > 0 ==> log == old(log) + Frames(old(buffer[..len]), from) && Drained(dst.out) &&
                          world == Due().world && ret == |log| - |old(log)|
      ensures len > 0 ==> (ret > 0 <==> !world.Quits() && dst.out.pending == [])
      ensures len > 0 ==> (ret == 0 <==> world.exit)
      ensures dst.sock.Refused() == old(dst.sock.Refused()) + if dst.out.pending != [] then 1 else 0
    {
      hide SizeKeeping, Piped, WlConnection.ValidOut, Play, Framed, Frames, Word, SizeOf, Socket.Refused;
      ret := 0;
      var rest, off := len, 0;
      ghost var todo, all := buffer[..len], log + Frames(buffer[..len], from);
      while rest > 0
        invariant off + rest == len && off <= len
        invariant buffer[off..len] == todo && Framed(todo) && all == log + Frames(todo, from)
        invariant old(log) <= log
        invariant dst.ValidOut() && dst.out.posted == old(dst.out.posted)
        invariant dst.out.pending == [] && dst.out.lost == [] && |dst.out.queue| <= MAX_FDS_OUT
        invariant dst.out.written == Due().To(Peer(from)) && Due().To(from) == old(Due()).To(from)
        invariant world == Due().world && dst.sock.Refused() == old(dst.sock.Refused())
        invariant ret > 0 ==> Drained(dst.out) && !world.Quits()
        invariant ret == |log| - |old(log)| && (off > 0 ==> ret > 0)
      {
        FramedFirst(todo, from);
        ghost var before := buffer[..];
        MessageAt(before, off, len);
        var size := Word(buffer[off + 4..off + 8]) / 65536;
        var r := PassOn(from, off, size, dst);
        StillAfter(before, buffer[..], off, size, len);
        todo := todo[size..];
        if r != 1 {
          return r;
        }
        off := off + size;
        rest := rest - size;
        ret := ret + 1;
      }
      FramesNone(from);
    }

    /** `dispatch_messages` and `process_data` for the direction from `src` to `dst`. */
    method DispatchLane(from: Side, ev: Recv, src: WlConnection, dst: WlConnection, ghost fds: seq<Fd>)
      returns (ret: int)
      requires buffer.Length == CAP && SizeKeeping(passes) && src == End(from) && dst == End(Peer(from))
      requires Separate(this, buffer, src, dst)
      requires Lane(src, dst, Due().To(Peer(from))) && Still(src, dst, fds) && world == Due().world && !world.Quits()
      requires ev.Data? ==> 1 <= |ev.bytes| <= CAP && (!passWholeBuffer ==> Framed(ev.bytes))
      requires |ChunkFds(ev)| <= MAX_FDS_OUT && 4 * |fds + ChunkFds(ev)| <= CAP
      modifies this`world, this`log, buffer, src`fdInQueue, src.InRepr(), dst`wantFlush, dst`out, dst.OutRepr()
      ensures Lane(src, dst, Due().To(Peer(from))) && Due().To(from) == old(Due()).To(from)
      ensures old(log) <= log <= old(log) + Chunk(from, ev, passWholeBuffer)
      ensures ret > 0 ==> Still(src, dst, fds + ChunkFds(ev)) && world == Due().world && !world.Quits() &&
                          log == old(log) + Chunk(from, ev, passWholeBuffer)
      ensures Took(ev, world, ret, dst, old(dst.sock.Refused()))
    {
      hide Socket.Refused, SizeKeeping, Ledger.AfterPosts, WlConnection.ValidIn, WlConnection.ValidOut;
      hide Piped, Play, Framed, Frames, AllFds, FdsOf;
      ghost var before := dst.out;
      var len := ReadChunk(buffer, ev, src, dst, fds);
      if len < 0 {
        return if ev.Failed? && ev.again then 1 else -1;
      }
      if len == 0 {
        return -1;
      }
      if !passWholeBuffer {
        ret := ProcessOneByOne(from, len, dst);
      } else {
        ret := PassOn(from, 0, len, dst);
      }
    }

    /** The same, seen from both directions: the other one is not touched. */
    method DispatchBeside(from: Side, ev: Recv, src: WlConnection, dst: WlConnection, ghost fds: seq<Fd>,
                          ghost all: seq<Entry>, ghost due: seq<byte>, ghost otherFds: seq<Fd>) returns (ret: int)
      requires Apart() && src == End(from) && dst == End(Peer(from))
      requires Lane(src, dst, Due().To(Peer(from))) && Still(src, dst, fds) && world == Due().world && !world.Quits()
      requires Resting(dst, src, due, otherFds)
      requires ev.Data? ==> 1 <= |ev.bytes| <= CAP && (!passWholeBuffer ==> Framed(ev.bytes))
      requires |ChunkFds(ev)| <= MAX_FDS_OUT && 4 * |fds + ChunkFds(ev)| <= CAP
      requires all == log + Chunk(from, ev, passWholeBuffer)
      modifies this`world, this`log, buffer, src`fdInQueue, src.InRepr(), dst`wantFlush, dst`out, dst.OutRepr()
      ensures Lane(src, dst, Due().To(Peer(from))) && Due().To(from) == old(Due()).To(from)
      ensures Resting(dst, src, due, otherFds)
      ensures old(log) <= log <= all
      ensures ret > 0 ==> log == all && Still(src, dst, fds + ChunkFds(ev)) && world == Due().world && !world.Quits()
      ensures Took(ev, world, ret, dst, old(dst.sock.Refused())) && src.sock.Refused() == old(src.sock.Refused())
    {
      hide Socket.Refused;
      hide SizeKeeping, Apart, Lane, Still, Resting, Chunk, Play, ChunkFds, Framed, Due, World.Quits, Piped, Played.To,
        WlConnection.InRepr, WlConnection.OutRepr;
      LanesApart();
      ApartIs();
      ReprAllocated(src);
      ReprAllocated(dst);
      assert src.sock in src.OutRepr() by {
        SockInRepr(src);
      }
      ret := DispatchLane(from, ev, src, dst, fds);
    }

    ghost function Fds(s: Side): seq<Fd>
      reads this`clientFds, this`serverFds
    {
      if s == Server then serverFds else clientFds
    }

    /** What `recvmsg` may bring from one side: at most 28 descriptors and a ring full of bytes, cut
        at message boundaries when messages are handled one by one. The flat copy of descriptors
        stays inside its buffer for the first 4096 bytes of them. */
    ghost predicate Deliverable(from: Side, ev: Recv)
      reads this`clientFds, this`serverFds
    {
      && (ev.Data? ==> 1 <= |ev.bytes| <= CAP && (!passWholeBuffer ==> Framed(ev.bytes)))
      && |ChunkFds(ev)| <= MAX_FDS_OUT && 4 * |Fds(from) + ChunkFds(ev)| <= CAP
    }

    method DispatchClient(ev: Recv) returns (ret: int)
      requires Valid() && Idle() && Deliverable(Client, ev)
      modifies this, buffer, client, server, client.InRepr(), client.OutRepr(), server.InRepr(), server.OutRepr()
      ensures Valid() && old(log) <= log <= old(log) + Chunk(Client, ev, passWholeBuffer)
      ensures ret > 0 ==> Idle() && log == old(log) + Chunk(Client, ev, passWholeBuffer)
      ensures ret > 0 ==> clientFds == old(clientFds) + ChunkFds(ev) && serverFds == old(serverFds)
      ensures Took(ev, world, ret, server, old(server.sock.Refused()))
      ensures client.sock.Refused() == old(client.sock.Refused())
    {
      hide Took, Stops, Socket.Refused;
      hide SizeKeeping, Lane, Still, Chunk, Piped, Play, ChunkFds, Framed, Due, Apart, World.Quits;
      ret := DispatchBeside(Client, ev, client, server, clientFds, log + Chunk(Client, ev, passWholeBuffer),
        Due().toClient, serverFds);
      clientFds := clientFds + ChunkFds(ev);
    }

    method DispatchServer(ev: Recv) returns (ret: int)
      requires Valid() && Idle() && Deliverable(Server, ev)
      modifies this, buffer, client, server, client.InRepr(), client.OutRepr(), server.InRepr(), server.OutRepr()
      ensures Valid() && old(log) <= log <= old(log) + Chunk(Server, ev, passWholeBuffer)
      ensures ret > 0 ==> Idle() && log == old(log) + Chunk(Server, ev, passWholeBuffer)
      ensures ret > 0 ==> serverFds == old(serverFds) + ChunkFds(ev) && clientFds == old(clientFds)
      ensures Took(ev, world, ret, client, old(client.sock.Refused()))
      ensures server.sock.Refused() == old(server.sock.Refused())
    {
      hide Took, Stops, Socket.Refused;
      hide SizeKeeping, Lane, Still, Chunk, Piped, Play, ChunkFds, Framed, Due, Apart, World.Quits;
      ret := DispatchBeside(Server, ev, server, client, serverFds, log + Chunk(Server, ev, passWholeBuffer),
        Due().toServer, clientFds);
      serverFds := serverFds + ChunkFds(ev);
    }

    /** `dispatch_messages` on the connection of `from`, given what its `recvmsg` comes back with. */
    method Dispatch(from: Side, ev: Recv) returns (ret: int)
      requires Valid() && Idle() && Deliverable(from, ev)
      modifies this, buffer, client, server, client.InRepr(), client.OutRepr(), server.InRepr(), server.OutRepr()
      ensures Valid() && old(log) <= log <= old(log) + Chunk(from, ev, passWholeBuffer)
      ensures ret > 0 ==> Idle() && log == old(log) + Chunk(from, ev, passWholeBuffer)
      ensures ret > 0 ==> forall s :: Fds(s) == old(Fds(s)) + if s == from then ChunkFds(ev) else []
      ensures Took(ev, world, ret, End(Peer(from)), old(End(Peer(from)).sock.Refused()))
      ensures End(from).sock.Refused() == old(End(from).sock.Refused())
    {
      hide Took, Stops, Socket.Refused, SizeKeeping, Chunk, ChunkFds, Framed, Apart, Lane, Still;
      if from == Client {
        ret := DispatchClient(ev);
      } else {
        ret := DispatchServer(ev);
      }
    }
  }

  /** What a read adds to the log: its messages one by one, or as a single lump. */
  function Chunk(from: Side, ev: Recv, whole: bool): seq<Entry>
    requires ev.Data? && !whole ==> Framed(ev.bytes)
  {
    if !ev.Data? then [] else if whole then [Entry(from, ev.bytes)] else Frames(ev.bytes, from)
  }

  function ChunkFds(ev: Recv): seq<Fd> { if ev.Data? then AllFds(ev.cmsgs) else [] }

  /** The first half of `process_data`: the chunk moves to the scratch buffer, its descriptors to
      the other connection. */
  method TakeIn(buffer: array<byte>, len: nat, src: WlConnection, dst: WlConnection)
    requires buffer.Length == CAP && buffer !in src.InRepr() && buffer !in dst.OutRepr()
    requires src != dst && src.InRepr() !! dst.OutRepr()
    requires src.ValidIn() && src.input.Size() == len <= CAP
    requires dst.ValidOut() && Drained(dst.out)
    requires |src.fdInQueue| <= MAX_FDS_OUT && src.fdsIn.tail + 4 * |src.fdInQueue| <= CAP
    modifies buffer, src`fdInQueue, src.input`tail, src.fdsIn`tail
    modifies dst`wantFlush, dst`out, dst.sock, dst.output`tail, dst.fdsOut, dst.fdsOut.data
    ensures src.ValidIn() && src.input.Size() == 0 && src.fdInQueue == []
    ensures src.fdsIn.tail == old(src.fdsIn.tail) + 4 * |old(src.fdInQueue)|
    ensures buffer[..len] == old(src.input.Contents())
    ensures dst.ValidOut() && dst.out == old(dst.out).AfterPosts(old(src.fdInQueue))
    ensures dst.sock.Refused() == old(dst.sock.Refused())
  {
    hide Socket.Refused;
    hide Ledger.Balanced, Ledger.AfterPosts, Window, FdBytes, WlConnection.ValidIn, WlConnection.ValidOut;
    ghost var before, fds := dst.out, src.fdInQueue;
    var chunk := src.TakeBytes(len);
    Memcpy(buffer, 0, chunk);
    var ok := CopyFds(src, dst);
    ghost var mid: Ledger :| mid.Follows(before) && dst.out == (if ok then mid.AfterPosts(fds) else mid) &&
      var many := fds != [] && |fds| + |before.queue| >= MAX_FDS_OUT;
      if many then ok <==> mid.pending == [] else ok && mid == before;
    mid.FollowsNothing(before);
  }

  /** The read in `dispatch_messages` and the first half of `process_data`: the length read, or
      what `recvmsg` returned when nothing came. */
  method ReadChunk(buffer: array<byte>, ev: Recv, src: WlConnection, dst: WlConnection, ghost fds: seq<Fd>)
    returns (len: int)
    requires buffer.Length == CAP && buffer !in src.InRepr() && buffer !in dst.OutRepr()
    requires src != dst && src.InRepr() !! dst.OutRepr()
    requires src.ValidIn() && dst.ValidOut() && Still(src, dst, fds)
    requires ev.Data? ==> 1 <= |ev.bytes| <= CAP
    requires |ChunkFds(ev)| <= MAX_FDS_OUT && 4 * |fds + ChunkFds(ev)| <= CAP
    modifies buffer, src`fdInQueue, src.input, src.input.data, src.fdsIn, src.fdsIn.data
    modifies dst`wantFlush, dst`out, dst.sock, dst.output`tail, dst.fdsOut, dst.fdsOut.data
    ensures src.ValidIn() && dst.ValidOut()
    ensures src.input.Size() == 0 && src.fdInQueue == [] && src.fdsIn.tail == 4 * |fds + ChunkFds(ev)|
    ensures dst.out == old(dst.out).AfterPosts(ChunkFds(ev))
    ensures len == if ev.Data? then |ev.bytes| else if ev.Eof? then 0 else -1
    ensures ev.Data? ==> buffer[..len] == ev.bytes
    ensures dst.sock.Refused() == old(dst.sock.Refused())
  {
    hide Socket.Refused, Ledger.Balanced, Ledger.AfterPosts, Window, FdBytes, Keep, AllFds;
    if ev.Data? {
      KeepLeaksNothing(CAP, ev.cmsgs);
    }
    len := src.Read(ev);
    if len <= 0 {
      dst.out.PostsOfNone();
      return;
    }
    assert src.fdInQueue == ChunkFds(ev);
    TakeIn(buffer, len, src, dst);
  }

  lemma MessageAt(s: seq<byte>, off: nat, len: nat)
    requires off + 8 <= len <= |s|
    ensures SizeOf(s[off..len]) == Word(s[off + 4..off + 8]) / 65536
    ensures forall n | 0 <= n <= len - off :: s[off..len][..n] == s[off..off + n]
  {
    SliceOfSlice(s, off, len, 4, 8);
  }

  lemma StillAfter(before: seq<byte>, after: seq<byte>, off: nat, size: nat, len: nat)
    requires |before| == |after| && off + size <= len <= |before|
    requires before[off + size..] == after[off + size..]
    ensures after[off + size..len] == before[off..len][size..]
  {
  }
}
