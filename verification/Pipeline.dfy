/** Passes and the bytes a run of messages turns into. */
module Pipeline {
  import opened Bytes
  import opened Wire

  datatype Side = Server | Client

  datatype Verdict = Next | Stop

  /** Everything a pass can touch besides the message: its own data and wldbg's exit and error flags. */
  datatype World<S> = World(data: S, exit: bool, error: bool) {
    predicate Quits() { exit || error }
  }

  datatype Result<S> = Result(world: World<S>, msg: seq<byte>, verdict: Verdict)

  /** A pass: any two functions of the world and the message, one for each origin. */
  datatype Pass<!S> = Pass(serverPass: (World<S>, seq<byte>) -> Result<S>,
                           clientPass: (World<S>, seq<byte>) -> Result<S>) {
    function On(from: Side, world: World<S>, msg: seq<byte>): Result<S> {
      if from == Server then serverPass(world, msg) else clientPass(world, msg)
    }
  }

  /** No pass changes the length of a message. */
  ghost predicate SizeKeeping<S(!new)>(passes: seq<Pass<S>>) {
    && (forall k, w: World<S>, m | 0 <= k < |passes| :: |passes[k].serverPass(w, m).msg| == |m|)
    && (forall k, w: World<S>, m | 0 <= k < |passes| :: |passes[k].clientPass(w, m).msg| == |m|)
  }

  /** No pass changes a message at all. */
  ghost predicate Observing<S(!new)>(passes: seq<Pass<S>>) {
    && (forall k, w: World<S>, m | 0 <= k < |passes| :: passes[k].serverPass(w, m).msg == m)
    && (forall k, w: World<S>, m | 0 <= k < |passes| :: passes[k].clientPass(w, m).msg == m)
  }

  /** The pipeline on one message: up to and including the first pass that says stop. */
  function Piped<S>(passes: seq<Pass<S>>, from: Side, world: World<S>, msg: seq<byte>): (r: (World<S>, seq<byte>)) {
    if passes == [] then (world, msg)
    else
      var r := passes[0].On(from, world, msg);
      if r.verdict.Stop? then (r.world, r.msg) else Piped(passes[1..], from, r.world, r.msg)
  }

  /** The passes run one after the other: `rs` are their results, behind what there was to begin with.
      The client's function of a pass is for messages from the client, the server's for those from the
      server; each works on what the one before it left; and the last is the first that said stop, or
      all have run. */
  ghost predicate Steps<S(!new)>(passes: seq<Pass<S>>, from: Side, rs: seq<Result<S>>) {
    && 1 <= |rs| <= |passes| + 1
    && (forall k | 0 <= k < |rs| - 1 :: Follows(passes[k], from, rs[k], rs[k + 1]))
    && (|rs| == |passes| + 1 || rs[|rs| - 1].verdict == Stop)
  }

  ghost predicate Follows<S(!new)>(pass: Pass<S>, from: Side, r: Result<S>, next: Result<S>) {
    && r.verdict == Next
    && next == if from == Server then pass.serverPass(r.world, r.msg) else pass.clientPass(r.world, r.msg)
  }

  /** Such a run on this message in this world left that world and that message. */
  ghost predicate Leaves<S(!new)>(passes: seq<Pass<S>>, from: Side, world: World<S>, msg: seq<byte>,
                                  rs: seq<Result<S>>, world': World<S>, msg': seq<byte>) {
    && Steps(passes, from, rs) && rs[0] == Result(world, msg, Next)
    && world' == rs[|rs| - 1].world && msg' == rs[|rs| - 1].msg
  }

  ghost predicate Becomes<S(!new)>(passes: seq<Pass<S>>, from: Side, world: World<S>, msg: seq<byte>,
                                   world': World<S>, msg': seq<byte>) {
    exists rs :: Leaves(passes, from, world, msg, rs, world', msg')
  }

  /** The pipeline is that, for every chain of passes. */
  lemma {:induction false} PipedLeaves<S(!new)>(passes: seq<Pass<S>>, from: Side, world: World<S>, msg: seq<byte>)
    returns (rs: seq<Result<S>>)
    ensures var r := Piped(passes, from, world, msg); Leaves(passes, from, world, msg, rs, r.0, r.1)
  {
    rs := [Result(world, msg, Next)];
    if passes != [] {
      var r := passes[0].On(from, world, msg);
      if r.verdict == Stop {
        rs := rs + [r];
      } else {
        var rest := PipedLeaves(passes[1..], from, r.world, r.msg);
        rs := rs + rest;
        forall k | 0 < k < |rs| - 1
          ensures Follows(passes[k], from, rs[k], rs[k + 1])
        {
          assert Follows(passes[1..][k - 1], from, rest[k - 1], rest[k]);
        }
      }
    }
  }

  lemma {:induction false} PipedSize<S(!new)>(passes: seq<Pass<S>>, from: Side, world: World<S>, msg: seq<byte>)
    ensures SizeKeeping(passes) ==> |Piped(passes, from, world, msg).1| == |msg|
    ensures Observing(passes) ==> Piped(passes, from, world, msg).1 == msg
  {
    if passes != [] {
      var r := passes[0].On(from, world, msg);
      PipedSize(passes[1..], from, r.world, r.msg);
    }
  }

  /** A message as it came in. */
  datatype Entry = Entry(from: Side, msg: seq<byte>)

  /** The bytes that came in from one side. */
  function Incoming(log: seq<Entry>, from: Side): seq<byte> {
    if log == [] then []
    else Incoming(log[..|log| - 1], from) + if log[|log| - 1].from == from then log[|log| - 1].msg else []
  }

  /** What a run over `log` leads to: the world, and the bytes due to each peer. */
  datatype Played<S> = Played(world: World<S>, toServer: seq<byte>, toClient: seq<byte>) {
    function To(peer: Side): seq<byte> { if peer == Server then toServer else toClient }
  }

  function Then<S>(p: Played<S>, passes: seq<Pass<S>>, e: Entry): Played<S> {
    var r := Piped(passes, e.from, p.world, e.msg);
    if e.from == Client then Played(r.0, p.toServer + r.1, p.toClient)
    else Played(r.0, p.toServer, p.toClient + r.1)
  }

  function Play<S>(passes: seq<Pass<S>>, start: World<S>, log: seq<Entry>): Played<S> {
    if log == [] then Played(start, [], [])
    else Then(Play(passes, start, log[..|log| - 1]), passes, log[|log| - 1])
  }

  lemma {:induction false} PlaySnoc<S>(passes: seq<Pass<S>>, start: World<S>, log: seq<Entry>, e: Entry)
    ensures Play(passes, start, log + [e]) == Then(Play(passes, start, log), passes, e)
    ensures forall from :: Incoming(log + [e], from) == Incoming(log, from) + if e.from == from then e.msg else []
  {
  }

  /** What became of the messages of `log`: `outs` are they as the passes left them, `worlds` the worlds
      before each of them and after the last. */
  ghost predicate Transcript<S(!new)>(passes: seq<Pass<S>>, start: World<S>, log: seq<Entry>,
                                      worlds: seq<World<S>>, outs: seq<Entry>) {
    && |outs| == |log| && |worlds| == |log| + 1 && worlds[0] == start
    && forall k | 0 <= k < |log| ::
         && outs[k].from == log[k].from
         && Becomes(passes, log[k].from, worlds[k], log[k].msg, worlds[k + 1], outs[k].msg)
  }

  lemma {:induction false} TranscriptSnoc<S(!new)>(passes: seq<Pass<S>>, start: World<S>, log: seq<Entry>,
                                                   worlds: seq<World<S>>, outs: seq<Entry>,
                                                   e: Entry, world: World<S>, msg: seq<byte>)
    requires Transcript(passes, start, log, worlds, outs)
    requires Becomes(passes, e.from, worlds[|log|], e.msg, world, msg)
    ensures Transcript(passes, start, log + [e], worlds + [world], outs + [Entry(e.from, msg)])
  {
    hide Becomes;
    var all, ws, os := log + [e], worlds + [world], outs + [Entry(e.from, msg)];
    forall k | 0 <= k < |all|
      ensures os[k].from == all[k].from && Becomes(passes, all[k].from, ws[k], all[k].msg, ws[k + 1], os[k].msg)
    {
      if k < |log| {
        assert all[k] == log[k] && ws[k] == worlds[k] && ws[k + 1] == worlds[k + 1] && os[k] == outs[k];
      }
    }
  }

  lemma TranscriptSize<S(!new)>(passes: seq<Pass<S>>, start: World<S>, log: seq<Entry>,
                                worlds: seq<World<S>>, outs: seq<Entry>)
    requires Transcript(passes, start, log, worlds, outs)
    ensures |outs| == |log| && |worlds| == |log| + 1
  {
  }

  /** A run leaves each peer with the messages of the other as the passes left them, in order. */
  lemma {:induction false} PlayTranscript<S(!new)>(passes: seq<Pass<S>>, start: World<S>, log: seq<Entry>)
    returns (worlds: seq<World<S>>, outs: seq<Entry>)
    ensures Transcript(passes, start, log, worlds, outs) && |worlds| == |log| + 1
    ensures Play(passes, start, log) == Played(worlds[|log|], Incoming(outs, Client), Incoming(outs, Server))
  {
    hide Leaves, Piped, Transcript, Incoming;
    if log == [] {
      worlds, outs := [start], [];
      NoTranscript(passes, start);
    } else {
      var before, e := log[..|log| - 1], log[|log| - 1];
      worlds, outs := PlayTranscript(passes, start, before);
      TranscriptSize(passes, start, before, worlds, outs);
      var r := Piped(passes, e.from, worlds[|before|], e.msg);
      var rs := PipedLeaves(passes, e.from, worlds[|before|], e.msg);
      assert Becomes(passes, e.from, worlds[|before|], e.msg, r.0, r.1);
      TranscriptSnoc(passes, start, before, worlds, outs, e, r.0, r.1);
      PlaySnoc(passes, start, outs, Entry(e.from, r.1));
      assert before + [e] == log;
      worlds, outs := worlds + [r.0], outs + [Entry(e.from, r.1)];
    }
  }

  lemma {:induction false} NoTranscript<S(!new)>(passes: seq<Pass<S>>, start: World<S>)
    ensures Transcript(passes, start, [], [start], []) && Incoming([], Client) == Incoming([], Server) == []
  {
  }

  function Peer(s: Side): Side { if s == Server then Client else Server }

  /** With passes that only look, each peer is due exactly the bytes that came from the other,
      however they were cut into messages. */
  lemma {:induction false} ObservingIsTransparent<S(!new)>(passes: seq<Pass<S>>, start: World<S>, log: seq<Entry>,
                                                           to: Side)
    requires Observing(passes)
    ensures Play(passes, start, log).To(to) == Incoming(log, Peer(to))
  {
    if log != [] {
      var before, e := log[..|log| - 1], log[|log| - 1];
      ObservingIsTransparent(passes, start, before, to);
      PipedSize(passes, e.from, Play(passes, start, before).world, e.msg);
    }
  }

  /** Whole messages one after the other: each header says how long its message is. */
  predicate Framed(chunk: seq<byte>) {
    chunk == [] ||
    (|chunk| >= 8 && 8 <= SizeOf(chunk) <= |chunk| && Framed(chunk[SizeOf(chunk)..]))
  }

  function Frames(chunk: seq<byte>, from: Side): seq<Entry>
    requires Framed(chunk)
  {
    if chunk == [] then []
    else [Entry(from, chunk[..SizeOf(chunk)])] + Frames(chunk[SizeOf(chunk)..], from)
  }

  lemma {:induction false} IncomingConcat(a: seq<Entry>, b: seq<Entry>, from: Side)
    ensures Incoming(a + b, from) == Incoming(a, from) + Incoming(b, from)
  {
    if b == [] {
      assert a + b == a;
    } else {
      var c := b[..|b| - 1];
      IncomingConcat(a, c, from);
      assert (a + b)[..|a + b| - 1] == a + c;
    }
  }

  lemma {:induction false} IncomingNone(from: Side)
    ensures Incoming([], from) == []
  {
  }

  lemma {:induction false} IncomingOne(e: Entry, from: Side)
    ensures Incoming([e], from) == if e.from == from then e.msg else []
  {
  }

  /** Cutting a chunk into messages keeps its bytes. */
  lemma {:induction false} FramesKeepBytes(chunk: seq<byte>, from: Side, side: Side)
    requires Framed(chunk)
    ensures Incoming(Frames(chunk, from), side) == if side == from then chunk else []
  {
    hide Framed, Frames, Incoming, SizeOf;
    if chunk == [] {
      FramesNone(from);
      IncomingNone(side);
    } else {
      FramedFirst(chunk, from);
      var n := SizeOf(chunk);
      FramesKeepBytes(chunk[n..], from, side);
      var e := Entry(from, chunk[..n]);
      IncomingConcat([e], Frames(chunk[n..], from), side);
      IncomingOne(e, side);
      assert chunk == chunk[..n] + chunk[n..];
    }
  }

  /** Each piece is one message: the upper half of its second word says how long it is. */
  lemma {:induction false} FramesAreMessages(chunk: seq<byte>, from: Side, k: nat)
    requires Framed(chunk) && k < |Frames(chunk, from)|
    ensures var e := Frames(chunk, from)[k];
            e.from == from && |e.msg| >= 8 && |e.msg| == e.msg[6] as int + 256 * e.msg[7] as int
  {
    hide Framed, Frames;
    if chunk == [] {
      FramesNone(from);
    } else {
      FramedFirst(chunk, from);
      var n := SizeOf(chunk);
      if k == 0 {
        var b4: int, b5: int, b6: int, b7: int := chunk[4], chunk[5], chunk[6], chunk[7];
        assert chunk[4..8] == [chunk[4], chunk[5], chunk[6], chunk[7]];
        assert n == (b4 + 256 * b5 + 65536 * (b6 + 256 * b7)) / 65536;
      } else {
        FramesAreMessages(chunk[n..], from, k - 1);
      }
    }
  }

  lemma {:induction false} FramedFirst(chunk: seq<byte>, from: Side)
    requires Framed(chunk) && chunk != []
    ensures var n := if |chunk| >= 8 then SizeOf(chunk) else 0;
            && 8 <= n <= |chunk| && Framed(chunk[n..])
            && Frames(chunk, from) == [Entry(from, chunk[..n])] + Frames(chunk[n..], from)
  {
  }

  lemma {:induction false} FramesNone(from: Side)
    ensures Framed([]) && Frames([], from) == []
  {
  }
}
