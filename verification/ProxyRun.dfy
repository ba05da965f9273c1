/** Whole runs of the proxy: what each peer has been sent, against what the other sent. */
module ProxyRuns {
  import opened Bytes
  import opened RingBuffer
  import opened Ledgers
  import opened Connection
  import opened Pipeline
  import opened Proxy

  /** One readable socket reported by the event loop. */
  datatype Arrival = Arrival(from: Side, ev: Recv)

  function BytesFrom(script: seq<Arrival>, s: Side): seq<byte> {
    if script == [] then []
    else (if script[0].from == s && script[0].ev.Data? then script[0].ev.bytes else []) + BytesFrom(script[1..], s)
  }

  function FdsFrom(script: seq<Arrival>, s: Side): seq<Fd> {
    if script == [] then []
    else (if script[0].from == s then ChunkFds(script[0].ev) else []) + FdsFrom(script[1..], s)
  }

  /** Reads that are whole messages, unless passes get whole buffers. */
  ghost predicate Whole(script: seq<Arrival>, lump: bool) {
    forall e | e in script && e.ev.Data? :: 1 <= |e.ev.bytes| <= CAP && (!lump ==> Framed(e.ev.bytes))
  }

  function Chunks(script: seq<Arrival>, lump: bool): seq<Entry>
    requires Whole(script, lump)
  {
    if script == [] then [] else Chunk(script[0].from, script[0].ev, lump) + Chunks(script[1..], lump)
  }

  /** However reads are cut into messages, no byte of them is dropped. */
  lemma {:induction false} ChunksKeepBytes(script: seq<Arrival>, lump: bool, s: Side)
    requires Whole(script, lump)
    ensures Incoming(Chunks(script, lump), s) == BytesFrom(script, s)
  {
    hide Framed, Frames;
    if script != [] {
      var e := script[0];
      var first := Chunk(e.from, e.ev, lump);
      IncomingConcat(first, Chunks(script[1..], lump), s);
      ChunksKeepBytes(script[1..], lump, s);
      if e.ev.Data? {
        if lump {
          IncomingOne(Entry(e.from, e.ev.bytes), s);
        } else {
          FramesKeepBytes(e.ev.bytes, e.from, s);
        }
      }
    }
  }

  /** Between dispatches, each socket has been sent exactly the other side's messages as the passes
      left them, message by message, with the descriptors that came along, none late; and if the
      passes only look, exactly the bytes that came in. */
  lemma SentIsDue<S(!new)>(w: Wldbg<S>)
    requires w.Valid() && w.Idle()
    ensures SentBytes(w.server.sock.sends) == Play(w.passes, w.start, w.log).toServer
    ensures SentBytes(w.client.sock.sends) == Play(w.passes, w.start, w.log).toClient
    ensures SentFds(w.server.sock.sends) == w.clientFds && SentFds(w.client.sock.sends) == w.serverFds
    ensures Timely(w.server.sock.sends, w.server.out.posted) && Timely(w.client.sock.sends, w.client.out.posted)
    ensures Observing(w.passes) ==> SentBytes(w.server.sock.sends) == Incoming(w.log, Client) &&
                                    SentBytes(w.client.sock.sends) == Incoming(w.log, Server)
  {
    hide SizeKeeping, Play, Timely, Observing;
    LaneSent(w.client, w.server, w.Due().toServer, w.clientFds);
    LaneSent(w.server, w.client, w.Due().toClient, w.serverFds);
    if Observing(w.passes) {
      ObservingIsTransparent(w.passes, w.start, w.log, Server);
      ObservingIsTransparent(w.passes, w.start, w.log, Client);
    }
  }

  /** Transparency end to end: with passes that only look, after a whole script each side has been
      sent exactly the bytes that were read from the other, in order, whether the passes get
      message by message or whole buffers. */
  lemma {:induction false} EveryByteArrives<S(!new)>(w: Wldbg<S>, script: seq<Arrival>)
    requires w.Valid() && w.Idle() && Observing(w.passes)
    requires Whole(script, w.passWholeBuffer) && w.log == Chunks(script, w.passWholeBuffer)
    ensures SentBytes(w.server.sock.sends) == BytesFrom(script, Client)
    ensures SentBytes(w.client.sock.sends) == BytesFrom(script, Server)
  {
    hide Wldbg.Valid, Wldbg.Idle, Observing, Whole, Chunks, BytesFrom, SentBytes, Timely;
    SentIsDue(w);
    ChunksKeepBytes(script, w.passWholeBuffer, Client);
    ChunksKeepBytes(script, w.passWholeBuffer, Server);
  }

  lemma LaneSent(src: WlConnection, dst: WlConnection, due: seq<byte>, fds: seq<Fd>)
    requires Lane(src, dst, due) && Still(src, dst, fds)
    ensures SentBytes(dst.sock.sends) == due && SentFds(dst.sock.sends) == fds && Timely(dst.sock.sends, dst.out.posted)
  {
  }

  /** Every read of the script brings something, or nothing for the moment. */
  ghost predicate Readable(script: seq<Arrival>) {
    forall k | 0 <= k < |script| :: script[k].ev.Data? || (script[k].ev.Failed? && script[k].ev.again)
  }

  /** The event loop over any script of readable sockets, until a dispatch fails, reports the end
      of a connection, or a pass asks to stop: after `n` dispatches every byte read so far has been
      handed to the passes and forwarded, in order, to the other side and to nobody else. It gets
      through the script exactly if all of it can be read, no pass quits and no socket refuses. */
  method Run<S(!new)>(w: Wldbg<S>, script: seq<Arrival>) returns (n: nat)
    requires w.Valid() && w.Idle() && Whole(script, w.passWholeBuffer)
    requires forall e | e in script :: |ChunkFds(e.ev)| <= MAX_FDS_OUT
    requires forall s: Side :: 4 * |w.Fds(s) + FdsFrom(script, s)| <= CAP
    modifies w, w.buffer, w.client, w.server
    modifies w.client.InRepr(), w.client.OutRepr(), w.server.InRepr(), w.server.OutRepr()
    ensures w.Valid() && n <= |script|
    ensures old(w.log) <= w.log <= old(w.log) + Chunks(script, w.passWholeBuffer)
    ensures n == |script| ==> w.Idle() && w.log == old(w.log) + Chunks(script, w.passWholeBuffer) &&
                              forall s: Side :: w.Fds(s) == old(w.Fds(s)) + FdsFrom(script, s)
    ensures n == |script| <==> Readable(script) && !w.world.Quits() && Refusals(w) == old(Refusals(w))
    ensures n < |script| ==> Stops(script[n].ev, w.world, Refusals(w) > old(Refusals(w)))
  {
    hide Socket.Refused;
    hide Chunk, ChunkFds, Framed, SizeKeeping, Play, Wldbg.Valid, Wldbg.Idle, Wldbg.Fds, Chunks, FdsFrom, Whole;
    n := 0;
    ghost var lump := w.passWholeBuffer;
    ghost var all, toCome := w.log + Chunks(script, lump), Chunks(script, lump);
    ghost var allServer, allClient := w.Fds(Server) + FdsFrom(script, Server), w.Fds(Client) + FdsFrom(script, Client);
    assert script[0..] == script;
    while n < |script|
      invariant w.Valid() && w.Idle() && n <= |script| && w.passWholeBuffer == lump
      invariant Refusals(w) == old(Refusals(w)) && Readable(script[..n])
      invariant Whole(script[n..], lump) && toCome == Chunks(script[n..], lump)
      invariant old(w.log) <= w.log && all == w.log + toCome
      invariant w.Fds(Server) + FdsFrom(script[n..], Server) == allServer
      invariant w.Fds(Client) + FdsFrom(script[n..], Client) == allClient
      decreases |script| - n
    {
      var e := script[n];
      assert script[..n + 1] == script[..n] + [e];
      ScriptStep(script, n, lump);
      ghost var fds := w.Fds(e.from);
      assert fds + (ChunkFds(e.ev) + FdsFrom(script[n + 1..], e.from)) ==
             fds + ChunkFds(e.ev) + FdsFrom(script[n + 1..], e.from);
      var ret := w.Dispatch(e.from, e.ev);
      assert w.End(e.from) == if e.from == Client then w.client else w.server;
      toCome := Chunks(script[n + 1..], lump);
      if ret <= 0 {
        return;
      }
      n := n + 1;
    }
    NothingLeft(lump);
    assert script[n..] == [] && script[..n] == script;
    NotQuitting(w);
    forall s: Side
      ensures w.Fds(s) == old(w.Fds(s)) + FdsFrom(script, s)
    {
      assert s == Server || s == Client;
      assert w.Fds(s) + [] == w.Fds(s);
    }
  }

  /** How many calls both sockets have refused. */
  ghost function Refusals<S(!new)>(w: Wldbg<S>): nat
    reads w.client.sock, w.server.sock
  {
    w.client.sock.Refused() + w.server.sock.Refused()
  }

  lemma NotQuitting<S(!new)>(w: Wldbg<S>)
    requires w.Idle()
    ensures !w.world.Quits()
  {
  }

  lemma {:induction false} NothingLeft(lump: bool)
    ensures Whole([], lump) && Chunks([], lump) == [] && forall s: Side :: FdsFrom([], s) == []
  {
  }

  lemma {:induction false} ScriptStep(script: seq<Arrival>, n: nat, lump: bool)
    requires n < |script| && Whole(script[n..], lump)
    ensures Whole(script[n + 1..], lump)
    ensures script[n].ev.Data? ==> 1 <= |script[n].ev.bytes| <= CAP && (!lump ==> Framed(script[n].ev.bytes))
    ensures Chunks(script[n..], lump) == Chunk(script[n].from, script[n].ev, lump) + Chunks(script[n + 1..], lump)
    ensures forall s: Side :: FdsFrom(script[n..], s) ==
                        (if script[n].from == s then ChunkFds(script[n].ev) else []) + FdsFrom(script[n + 1..], s)
  {
  }

  /** What was sent is a prefix of what was due, also while bytes wait. */
  lemma SentSoFar(src: WlConnection, dst: WlConnection, due: seq<byte>)
    requires Lane(src, dst, due)
    ensures SentBytes(dst.sock.sends) <= due
  {
    hide SentBytes, SentFds, Timely;
  }

  lemma {:induction false} IncomingPrefix(a: seq<Entry>, b: seq<Entry>, from: Side)
    requires a <= b
    ensures Incoming(a, from) <= Incoming(b, from)
  {
    hide Incoming;
    IncomingConcat(a, b[|a|..], from);
    assert b == a + b[|a|..];
  }

  /** At any time, whatever failed: with passes that only look, a peer has been sent nothing but bytes
      the other one sent, in order and from the first on. */
  lemma {:induction false} NothingElseArrives<S(!new)>(w: Wldbg<S>, script: seq<Arrival>)
    requires w.Valid() && Observing(w.passes)
    requires Whole(script, w.passWholeBuffer) && w.log <= Chunks(script, w.passWholeBuffer)
    ensures SentBytes(w.server.sock.sends) <= BytesFrom(script, Client)
    ensures SentBytes(w.client.sock.sends) <= BytesFrom(script, Server)
  {
    hide Observing, Whole, Chunks, BytesFrom, SentBytes, Lane, Incoming, Play, SizeKeeping;
    var all := Chunks(script, w.passWholeBuffer);
    SentSoFar(w.client, w.server, w.Due().toServer);
    SentSoFar(w.server, w.client, w.Due().toClient);
    ObservingIsTransparent(w.passes, w.start, w.log, Server);
    ObservingIsTransparent(w.passes, w.start, w.log, Client);
    IncomingPrefix(w.log, all, Client);
    IncomingPrefix(w.log, all, Server);
    ChunksKeepBytes(script, w.passWholeBuffer, Client);
    ChunksKeepBytes(script, w.passWholeBuffer, Server);
  }

  /** What the passes made of the messages, told without following the run: each socket has been sent
      these bytes as far as it took them, and between dispatches all of them. */
  lemma {:induction false} SentTranscript<S(!new)>(w: Wldbg<S>) returns (worlds: seq<World<S>>, outs: seq<Entry>)
    requires w.Valid()
    ensures Transcript(w.passes, w.start, w.log, worlds, outs)
    ensures SentBytes(w.server.sock.sends) <= Incoming(outs, Client)
    ensures SentBytes(w.client.sock.sends) <= Incoming(outs, Server)
    ensures w.Idle() ==>
              && SentBytes(w.server.sock.sends) == Incoming(outs, Client) && SentFds(w.server.sock.sends) == w.clientFds
              && SentBytes(w.client.sock.sends) == Incoming(outs, Server) && SentFds(w.client.sock.sends) == w.serverFds
              && w.world == worlds[|w.log|]
  {
    hide SentBytes, SentFds, Timely, Transcript, Play, Incoming, SizeKeeping, Lane;
    worlds, outs := PlayTranscript(w.passes, w.start, w.log);
    TranscriptSize(w.passes, w.start, w.log, worlds, outs);
    SentSoFar(w.client, w.server, w.Due().toServer);
    SentSoFar(w.server, w.client, w.Due().toClient);
    if w.Idle() {
      SentIsDue(w);
    }
  }

  /** The whole proxy, from new connections: it handles the script to its end, and then each socket has
      been sent exactly the other side's messages as the passes left them, with all its descriptors,
      or it stops for one of the reasons of a dispatch. With passes that only look, what a socket has
      been sent is what the other side sent: all of it at the end, a prefix of it whatever happened. */
  method Proxied<S(!new)>(passes: seq<Pass<S>>, wholeBuffer: bool, data: S, script: seq<Arrival>)
    returns (w: Wldbg<S>, n: nat, ghost worlds: seq<World<S>>, ghost outs: seq<Entry>)
    requires SizeKeeping(passes) && Whole(script, wholeBuffer)
    requires forall e | e in script :: |ChunkFds(e.ev)| <= MAX_FDS_OUT
    requires forall s: Side :: 4 * |FdsFrom(script, s)| <= CAP
    ensures n <= |script| && (n < |script| ==> Stops(script[n].ev, w.world, Refusals(w) > 0))
    ensures n == |script| <==> Readable(script) && !w.world.Quits() && Refusals(w) == 0
    ensures w.log <= Chunks(script, wholeBuffer)
    ensures Transcript(passes, World(data, false, false), w.log, worlds, outs)
    ensures SentBytes(w.server.sock.sends) <= Incoming(outs, Client)
    ensures SentBytes(w.client.sock.sends) <= Incoming(outs, Server)
    ensures n == |script| ==>
              && w.log == Chunks(script, wholeBuffer) && w.world == worlds[|w.log|]
              && SentBytes(w.server.sock.sends) == Incoming(outs, Client)
              && SentBytes(w.client.sock.sends) == Incoming(outs, Server)
              && SentFds(w.server.sock.sends) == FdsFrom(script, Client)
              && SentFds(w.client.sock.sends) == FdsFrom(script, Server)
    ensures Observing(passes) ==>
              && SentBytes(w.server.sock.sends) <= BytesFrom(script, Client)
              && SentBytes(w.client.sock.sends) <= BytesFrom(script, Server)
              && (n == |script| ==>
                    && SentBytes(w.server.sock.sends) == BytesFrom(script, Client)
                    && SentBytes(w.client.sock.sends) == BytesFrom(script, Server))
  {
    hide Stops, SizeKeeping, Whole, Observing, Chunks, Play, SentBytes, SentFds, BytesFrom, FdsFrom, ChunkFds, Timely;
    hide Wldbg.Valid, Wldbg.Idle, Readable, CountIn, Transcript, Incoming;
    w := NewProxy(passes, wholeBuffer, data);
    n := Run(w, script);
    assert [] + Chunks(script, wholeBuffer) == Chunks(script, wholeBuffer);
    worlds, outs := SentTranscript(w);
    if Observing(passes) {
      NothingElseArrives(w, script);
      if n == |script| {
        EveryByteArrives(w, script);
      }
    }
  }

  /** New connections and the proxy between them. */
  method NewProxy<S(!new)>(passes: seq<Pass<S>>, wholeBuffer: bool, data: S) returns (w: Wldbg<S>)
    requires SizeKeeping(passes)
    ensures w.Valid() && w.Idle() && w.log == [] && w.clientFds == w.serverFds == []
    ensures w.passes == passes && w.passWholeBuffer == wholeBuffer && w.start == World(data, false, false)
    ensures Refusals(w) == 0
    ensures fresh(w) && fresh(w.buffer) && fresh(w.client) && fresh(w.server)
    ensures fresh(w.client.InRepr() + w.client.OutRepr()) && fresh(w.server.InRepr() + w.server.OutRepr())
  {
    hide SizeKeeping, Lane, Still, WlConnection.ValidIn, WlConnection.ValidOut, Wldbg.Valid, Wldbg.Idle;
    var client := new WlConnection();
    var server := new WlConnection();
    NewLanes(client, server);
    var buffer := new byte[CAP];
    w := new Wldbg<S>(passes, wholeBuffer, data, client, server, buffer);
  }

  lemma NewLanes(client: WlConnection, server: WlConnection)
    requires client.Valid() && server.Valid() && client.out == server.out == NothingYet()
    requires client.input.Contents() == server.input.Contents() == [] && client.fdInQueue == server.fdInQueue == []
    requires client.fdsIn.tail == server.fdsIn.tail == 0
    ensures Lane(client, server, []) && Lane(server, client, [])
    ensures Still(client, server, []) && Still(server, client, [])
  {
  }
}
