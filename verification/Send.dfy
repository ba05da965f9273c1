/** Sending closures: `wl_closure_send`, and what holds over any run of it. */
module Sending {
  import opened Bytes
  import opened RingBuffer
  import opened Ledgers
  import opened Connection
  import opened Signatures
  import opened Wire
  import opened Closures

  /** The sizes `wl_closure_send` can handle: they must survive the `int` they are returned in. */
  ghost predicate Sendable(c: Closure) {
    WellKept(c) && |c.args| <= MAX_ARGS && MessageSize(c) < 0x8000_0000
  }

  function MessageSize(c: Closure): nat { 8 + BodySize(c) }

  /** What a caller knows before sending `c`: it fits the ring, or has no descriptors, or bytes wait
      and with them at most one `sendmsg` worth of descriptors, its own included. */
  ghost predicate Safe(c: Closure, before: Ledger) {
    || MessageSize(c) <= CAP
    || FdsIn(c.args) == []
    || (before.pending != [] && |before.queue| + |FdsIn(c.args)| <= MAX_FDS_OUT)
  }

  /** `wl_closure_send`: the descriptors, then the message. */
  method SendClosure(c: Closure, conn: WlConnection) returns (ok: bool, ghost msg: seq<byte>)
    requires Sendable(c) && conn.ValidOut() && |conn.out.queue| + |FdsIn(c.args)| <= CAP / 4
    modifies conn`wantFlush, conn`out, conn.sock, conn.output, conn.output.data, conn.fdsOut, conn.fdsOut.data
    ensures conn.ValidOut() && |conn.out.queue| <= |old(conn.out).queue| + |FdsIn(c.args)|
    ensures ok ==> && IsMessage(c.sender, c.opcode, CViews(c.args), msg)
                   && conn.out.Extends(old(conn.out), FdsIn(c.args), msg)
    ensures ok ==> MessageSize(c) <= CAP
    ensures !ok ==> MessageSize(c) > CAP || conn.out.pending != []
    ensures !ok ==> conn.out.written == old(conn.out).written
    ensures conn.sock.Refused() == old(conn.sock.Refused()) + if !ok && conn.out.pending != [] then 1 else 0
    ensures ok ==> conn.wantFlush
    ensures old(conn.Scheduled()) ==> conn.Scheduled()
    ensures old(conn.out).pending == [] ==>
              var posted := old(conn.out).AfterPosts(FdsIn(c.args));
              ok == (MessageSize(c) <= CAP) && conn.out == if ok then posted.AfterWrite(msg) else posted
    ensures old(conn.out).Ready() ==> (conn.out.Ready() <==> Safe(c, old(conn.out)) || conn.out.pending != [])
  {
    hide Ledger.Balanced, Ledger.AfterPosts, Ledger.Loaded, Ledger.Extends, Ledger.Ready;
    hide IsMessage, WellKept, Window, FdBytes, Socket.Refused;
    ghost var start, fds := conn.out, FdsIn(c.args);
    msg := [];
    ok := CopyFdsToConnection(c, conn);
    if !ok {
      return;
    }
    ghost var loaded := conn.out;
    loaded.LoadedBounds(start, fds);
    loaded.LoadedOnEmpty(start, fds);
    var words := BufferSize(c);
    var buffer := new byte[4 * words];
    var size := Serialize(c, buffer, words);
    if size < 0 {
      return false, [];
    }
    var bytes := buffer[..size];
    msg := bytes;
    ok := conn.Write(bytes, true);
    ghost var mid: Ledger :| mid.Follows(loaded) && conn.out == (if ok then mid.AfterWrite(msg) else mid) &&
      (|loaded.pending| + |msg| <= CAP ==> mid == loaded);
    mid.FollowsNothing(loaded);
    if ok {
      mid.WriteExtends(start, loaded, fds, msg);
    }
    if start.Ready() {
      if size <= CAP || fds == [] {
        mid.WriteReady(start, loaded, fds, msg, ok);
      } else {
        mid.OversizedReady(start, loaded, fds);
      }
    }
  }

  /** A step of a sending program. */
  datatype Act = SendOne(c: Closure) | FlushOut

  function PostedBy(acts: seq<Act>): seq<Fd> {
    if acts == [] then []
    else (if acts[0].SendOne? then FdsIn(acts[0].c.args) else []) + PostedBy(acts[1..])
  }

  lemma PostedByNone()
    ensures PostedBy([]) == []
  {
  }

  lemma PostedBySnoc(acts: seq<Act>, i: nat)
    requires i < |acts|
    ensures PostedBy(acts[i..]) == (if acts[i].SendOne? then FdsIn(acts[i].c.args) else []) + PostedBy(acts[i + 1..])
  {
  }

  lemma SendableArgs(c: Closure)
    requires Sendable(c)
    ensures |FdsIn(c.args)| <= |c.args| <= MAX_ARGS
  {
  }

  lemma ReadyOut(conn: WlConnection)
    requires conn.ValidOut() && conn.out.Ready()
    ensures FdsOf(conn.out.posted) == SentFds(conn.sock.sends) + conn.out.queue && |conn.out.queue| <= MAX_FDS_OUT
    ensures Timely(conn.sock.sends, conn.out.posted)
    ensures conn.out.closed == SentFds(conn.sock.sends)
  {
  }

  /** No message of the run leaves descriptors behind: it fits the ring or has none. */
  ghost predicate Small(acts: seq<Act>) {
    forall a | a in acts && a.SendOne? :: MessageSize(a.c) <= CAP || FdsIn(a.c.args) == []
  }

  /** Every message of the run fits the ring. */
  ghost predicate Fit(acts: seq<Act>) {
    forall a | a in acts && a.SendOne? :: MessageSize(a.c) <= CAP
  }

  lemma FitSnoc(acts: seq<Act>, i: nat)
    requires i < |acts|
    ensures Fit(acts[..i + 1]) <==> Fit(acts[..i]) && (acts[i].SendOne? ==> MessageSize(acts[i].c) <= CAP)
  {
    assert acts[..i + 1] == acts[..i] + [acts[i]];
    assert acts[i] in acts[..i + 1];
    assert forall a | a in acts[..i] :: a in acts[..i + 1];
  }

  /** The last step of a run, if any, is a flush. */
  predicate EndsFlushed(acts: seq<Act>) { acts != [] && acts[|acts| - 1].FlushOut? }

  /** Any run of sends and flushes, however the socket behaves and whichever steps fail. If the run is
      small, and so also if every step succeeded: no descriptor is ever lost, none waits longer than
      the bytes accepted after it, and at most 28 wait. When every step succeeded, the descriptors
      handed over are exactly those of the messages, in order. Every step succeeds exactly if all
      messages fit the ring and the socket refuses nothing; and if then the last step is a flush,
      everything accepted has left, and nothing waits. Descriptors that other runs leave behind must
      fit the ring, which does not look at how many it holds. */
  method RunActs(acts: seq<Act>, conn: WlConnection) returns (allOk: bool)
    requires conn.ValidOut() && conn.out.Ready()
    requires forall a | a in acts && a.SendOne? :: Sendable(a.c)
    requires Small(acts) || |conn.out.queue| + |PostedBy(acts)| <= CAP / 4
    modifies conn`wantFlush, conn`out, conn.sock, conn.output, conn.output.data, conn.fdsOut, conn.fdsOut.data
    ensures conn.ValidOut()
    ensures allOk || Small(acts) ==>
              && conn.out.Ready() && |conn.out.queue| <= MAX_FDS_OUT
              && FdsOf(conn.out.posted) == SentFds(conn.sock.sends) + conn.out.queue
              && Timely(conn.sock.sends, conn.out.posted)
              && conn.out.closed == SentFds(conn.sock.sends)
    ensures allOk ==> FdsOf(conn.out.posted) == old(FdsOf(conn.out.posted)) + PostedBy(acts)
    ensures allOk <==> Fit(acts) && conn.sock.Refused() == old(conn.sock.Refused())
    ensures old(conn.Scheduled()) ==> conn.Scheduled()
    ensures old(conn.Scheduled()) && allOk && EndsFlushed(acts) ==>
              && conn.out.pending == [] && SentBytes(conn.sock.sends) == conn.out.written
              && SentFds(conn.sock.sends) == FdsOf(conn.out.posted)
  {
    hide Ledger.Balanced, Ledger.Ready, Ledger.Follows, Sendable, PostedBy, Timely, FdsOf, SentFds, FdsIn;
    hide IsMessage, CViews, Small, Fit, Socket.Refused, WlConnection.Scheduled, SentBytes;
    allOk := true;
    ghost var told := conn.Scheduled();
    FitNone();
    ghost var all := old(FdsOf(conn.out.posted)) + PostedBy(acts);
    assert acts[0..] == acts && acts[..0] == [];
    for i := 0 to |acts|
      invariant conn.ValidOut() && (told ==> conn.Scheduled())
      invariant old(conn.sock.Refused()) <= conn.sock.Refused()
      invariant allOk <==> Fit(acts[..i]) && conn.sock.Refused() == old(conn.sock.Refused())
      invariant told && allOk && EndsFlushed(acts[..i]) ==> conn.out.pending == []
      invariant allOk || Small(acts) ==> conn.out.Ready()
      invariant Small(acts) || |conn.out.queue| + |PostedBy(acts[i..])| <= CAP / 4
      invariant allOk ==> FdsOf(conn.out.posted) + PostedBy(acts[i..]) == all
    {
      PostedBySnoc(acts, i);
      FitSnoc(acts, i);
      ghost var before := conn.out;
      if allOk || Small(acts) {
        ReadyOut(conn);
      }
      if acts[i].SendOne? {
        SendableArgs(acts[i].c);
        SmallAt(acts, i);
        var ok, msg := SendClosure(acts[i].c, conn);
        if ok {
          conn.out.ExtendsFds(before, FdsIn(acts[i].c.args), msg);
          assert FdsOf(before.posted) + (FdsIn(acts[i].c.args) + PostedBy(acts[i + 1..])) ==
                 FdsOf(before.posted) + FdsIn(acts[i].c.args) + PostedBy(acts[i + 1..]);
        } else {
          allOk := false;
        }
      } else {
        ScheduledIs(conn);
        var r := conn.Flush();
        ScheduledIs(conn);
        if before.Ready() {
          conn.out.FollowsReady(before);
        }
        conn.out.FollowsBounds(before);
        assert [] + PostedBy(acts[i + 1..]) == PostedBy(acts[i + 1..]);
        if r < 0 {
          allOk := false;
        }
      }
    }
    PostedByNone();
    assert acts[..|acts|] == acts;
    if allOk || Small(acts) {
      ReadyOut(conn);
      AllSent(conn);
      assert acts[|acts|..] == [] && FdsOf(conn.out.posted) + [] == FdsOf(conn.out.posted);
    }
  }

  lemma FitNone()
    ensures Fit([])
  {
  }

  lemma ScheduledIs(conn: WlConnection)
    ensures conn.Scheduled() <==> (conn.out.pending != [] ==> conn.wantFlush)
  {
  }

  /** With nothing pending, all that was accepted has left. */
  lemma AllSent(conn: WlConnection)
    requires conn.ValidOut() && conn.out.Ready()
    ensures conn.out.pending == [] ==>
              && SentBytes(conn.sock.sends) == conn.out.written && conn.out.queue == []
              && SentFds(conn.sock.sends) == FdsOf(conn.out.posted)
  {
  }

  lemma SmallAt(acts: seq<Act>, i: nat)
    requires i < |acts| && acts[i].SendOne?
    ensures Small(acts) ==> MessageSize(acts[i].c) <= CAP || FdsIn(acts[i].c.args) == []
  {
  }

  /** Losing descriptors is within reach: on a new connection, two messages that do not fit the ring
      leave more than 28 descriptors behind, and once a third message gets some byte out, only the
      first 28 have left and none waits. */
  method LossRun(first: Closure, second: Closure, third: Closure, conn: WlConnection)
    requires conn.ValidOut() && conn.out == NothingYet()
    requires Sendable(first) && Sendable(second) && Sendable(third)
    requires MessageSize(first) > CAP && MessageSize(second) > CAP
    requires MessageSize(third) <= CAP && FdsIn(third.args) == []
    requires |FdsIn(first.args)| + |FdsIn(second.args)| > MAX_FDS_OUT
    modifies conn`wantFlush, conn`out, conn.sock, conn.output, conn.output.data, conn.fdsOut, conn.fdsOut.data
    ensures conn.ValidOut() && FdsOf(conn.out.posted) == FdsIn(first.args) + FdsIn(second.args)
    ensures conn.sock.sends != [] ==>
              && SentFds(conn.sock.sends) == FdsOf(conn.out.posted)[..MAX_FDS_OUT] && conn.out.queue == []
              && |SentFds(conn.sock.sends)| + |conn.out.queue| < |conn.out.posted|
  {
    hide Ledger.Balanced, Sendable, FdsOf, FdsIn, IsMessage, CViews, Safe, Window, FdBytes;
    SendableArgs(first);
    SendableArgs(second);
    ghost var fds := FdsIn(first.args) + FdsIn(second.args);
    var ok, msg := SendClosure(first, conn);
    ok, msg := SendClosure(second, conn);
    ghost var waiting := conn.out;
    ok, msg := SendClosure(third, conn);
    ghost var loaded := conn.out;
    waiting.PostsOfNone();
    assert loaded.queue == fds && loaded.sends == [];
    assert FdsOf(loaded.posted) == fds;
    var r := conn.Flush();
  }

  /** `n` descriptors and an array as large as the ring. */
  function HeavySig(n: nat): string { if n == 0 then "a" else ['h'] + HeavySig(n - 1) }

  function HeavyArgs(n: nat): seq<Value> {
    if n == 0 then [Arr(Some(seq(CAP, _ => 0)))] else [Handle(3)] + HeavyArgs(n - 1)
  }

  lemma {:induction false} HeavyKept(n: nat)
    ensures |Specs(HeavySig(n))| == |HeavyArgs(n)| == n + 1
    ensures forall k | 0 <= k <= n :: Kept(Specs(HeavySig(n))[k], HeavyArgs(n)[k])
  {
    if n == 0 {
      assert Specs("a") == [ArgSpec('a', false)] + Specs("a"[1..]) && "a"[1..] == "";
    } else {
      HeavyKept(n - 1);
      assert HeavySig(n)[1..] == HeavySig(n - 1);
      assert Specs(HeavySig(n)) == [ArgSpec('h', false)] + Specs(HeavySig(n - 1));
    }
  }

  lemma {:induction false} HeavySize(n: nat)
    ensures |FdsIn(HeavyArgs(n))| == n && WireSizes(CViews(HeavyArgs(n))) == 4 + CAP
  {
    if n == 0 {
      assert HeavyArgs(0)[1..] == [] && CViews(HeavyArgs(0))[1..] == [];
    } else {
      HeavySize(n - 1);
      assert HeavyArgs(n)[1..] == HeavyArgs(n - 1) && CViews(HeavyArgs(n))[1..] == CViews(HeavyArgs(n - 1));
    }
  }

  /** Such messages exist: with fifteen descriptors each, two of the thirty are gone. */
  method LossHappens(conn: WlConnection)
    requires conn.ValidOut() && conn.out == NothingYet()
    modifies conn`wantFlush, conn`out, conn.sock, conn.output, conn.output.data, conn.fdsOut, conn.fdsOut.data
    ensures conn.ValidOut() && |conn.out.posted| == 30
    ensures conn.sock.sends != [] ==> |SentFds(conn.sock.sends)| == 28 && conn.out.queue == []
  {
    hide Specs, FdsIn, HeavySig, HeavyArgs, CViews, Kept, Ledger.Balanced;
    HeavyKept(15);
    HeavySize(15);
    NoFds();
    EmptyIs();
    var heavy := Closure(1, 0, HeavySig(15), HeavyArgs(15));
    LossRun(heavy, heavy, Closure(1, 0, "", []), conn);
  }

  lemma EmptyIs()
    ensures Specs("") == [] && CViews([]) == []
  {
  }
}
