/** From one connection to another: a run of closures sent by `wl_closure_send`, carried by the
    kernel in arbitrary pieces, read and demarshalled one header size at a time. */
module Channels {
  import opened Bytes
  import opened RingBuffer
  import opened Ledgers
  import opened Connection
  import opened Signatures
  import opened WlMaps
  import opened Wire
  import opened Closures
  import opened Sending
  import opened RoundTrip

  /* ---- lists put one after the other ---- */

  function Flat<T>(ss: seq<seq<T>>): seq<T> {
    if ss == [] then [] else Flat(ss[..|ss| - 1]) + ss[|ss| - 1]
  }

  lemma {:induction false} FlatSnoc<T>(ss: seq<seq<T>>, k: nat)
    requires k < |ss|
    ensures Flat(ss[..k + 1]) == Flat(ss[..k]) + ss[k]
  {
    assert ss[..k + 1][..k] == ss[..k];
  }

  lemma {:induction false} FlatPrefix<T>(ss: seq<seq<T>>, k: nat, n: nat)
    requires k <= n <= |ss|
    ensures Flat(ss[..k]) <= Flat(ss[..n])
  {
    hide Flat;
    if k < n {
      FlatPrefix(ss, k, n - 1);
      FlatSnoc(ss, n - 1);
    }
  }

  /* ---- what a sender hands over ---- */

  function FdLists(cs: seq<Closure>): (r: seq<seq<Fd>>)
    ensures |r| == |cs|
  {
    seq(|cs|, k requires 0 <= k < |cs| => FdsIn(cs[k].args))
  }

  /** The descriptors of the first `k` messages, each marked with the bytes before its message. */
  function Marks(fs: seq<seq<Fd>>, ms: seq<seq<byte>>, k: nat): seq<Posted>
    requires k <= |fs| == |ms|
  {
    if k == 0 then []
    else Marks(fs, ms, k - 1) +
         seq(|fs[k - 1]|, i requires 0 <= i < |fs[k - 1]| => Posted(fs[k - 1][i], |Flat(ms[..k - 1])|))
  }

  lemma MarksNext(fs: seq<seq<Fd>>, ms: seq<seq<byte>>, k: nat)
    requires k < |fs| == |ms|
    ensures var more := Marks(fs, ms, k + 1);
            && Marks(fs, ms, k) <= more && FdsOf(more) == FdsOf(Marks(fs, ms, k)) + fs[k]
            && forall f | |Marks(fs, ms, k)| <= f < |more| :: more[f].mark == |Flat(ms[..k])|
  {
    hide Flat, FdsOf;
    var tail := seq(|fs[k]|, i requires 0 <= i < |fs[k]| => Posted(fs[k][i], |Flat(ms[..k])|));
    assert Marks(fs, ms, k + 1) == Marks(fs, ms, k) + tail;
    FdsOfConcat(Marks(fs, ms, k), tail);
    FdsOfAll(tail, fs[k]);
  }

  lemma FdsOfConcat(a: seq<Posted>, b: seq<Posted>)
    ensures FdsOf(a + b) == FdsOf(a) + FdsOf(b)
  {
  }

  lemma FdsOfAll(p: seq<Posted>, fds: seq<Fd>)
    requires |p| == |fds| && forall i | 0 <= i < |p| :: p[i].fd == fds[i]
    ensures FdsOf(p) == fds
  {
  }

  lemma {:induction false} MarksAre(fs: seq<seq<Fd>>, ms: seq<seq<byte>>, k: nat)
    requires k <= |fs| == |ms| && forall j | 0 <= j < k :: ms[j] != []
    ensures FdsOf(Marks(fs, ms, k)) == Flat(fs[..k])
    ensures forall f | 0 <= f < |Marks(fs, ms, k)| :: Marks(fs, ms, k)[f].mark < |Flat(ms[..k])|
  {
    hide Flat, FdsOf, Marks;
    if k == 0 {
      MarksNone(fs, ms);
    } else {
      MarksAre(fs, ms, k - 1);
      MarksNext(fs, ms, k - 1);
      FlatSnoc(fs, k - 1);
      FlatSnoc(ms, k - 1);
    }
  }

  lemma {:induction false} MarksNone(fs: seq<seq<Fd>>, ms: seq<seq<byte>>)
    requires |fs| == |ms|
    ensures Marks(fs, ms, 0) == [] && FdsOf([]) == [] && Flat(fs[..0]) == []
  {
  }

  lemma {:induction false} MarksPrefix(fs: seq<seq<Fd>>, ms: seq<seq<byte>>, k: nat, n: nat)
    requires k <= n <= |fs| == |ms|
    ensures Marks(fs, ms, k) <= Marks(fs, ms, n)
  {
    if k < n {
      MarksPrefix(fs, ms, k, n - 1);
    }
  }

  /** The output direction has accepted exactly these messages with these descriptors. */
  ghost predicate HandedOver(l: Ledger, fs: seq<seq<Fd>>, ms: seq<seq<byte>>) {
    |fs| == |ms| && l.written == Flat(ms) && l.posted == Marks(fs, ms, |fs|)
  }

  /* ---- the kernel ---- */

  /** What one `recvmsg` brings. */
  datatype Piece = Piece(bytes: seq<byte>, fds: seq<Fd>)

  function BytesOf(pieces: seq<Piece>): (r: seq<seq<byte>>)
    ensures |r| == |pieces|
  {
    seq(|pieces|, i requires 0 <= i < |pieces| => pieces[i].bytes)
  }

  function FdsOfPieces(pieces: seq<Piece>): (r: seq<seq<Fd>>)
    ensures |r| == |pieces|
  {
    seq(|pieces|, i requires 0 <= i < |pieces| => pieces[i].fds)
  }

  /** A stream socket: bytes and descriptors in order, cut anywhere; the descriptors of a `sendmsg`
      are there once its first byte is. */
  ghost predicate Carries(sends: seq<Send>, pb: seq<seq<byte>>, pf: seq<seq<Fd>>) {
    && |pb| == |pf| && Flat(pb) <= SentBytes(sends) && Flat(pf) <= SentFds(sends)
    && forall i, j | 0 <= i <= |pb| && 0 <= j < |sends| && |SentBytes(sends[..j])| < |Flat(pb[..i])| ::
         |SentFds(sends[..j + 1])| <= |Flat(pf[..i])|
  }

  /** Once a message is there, so are its descriptors. */
  ghost predicate Prompt(fs: seq<seq<Fd>>, ms: seq<seq<byte>>, pb: seq<seq<byte>>, pf: seq<seq<Fd>>) {
    && |fs| == |ms| && |pb| == |pf|
    && forall i, k | 0 <= i <= |pb| && 0 <= k <= |ms| && |Flat(ms[..k])| <= |Flat(pb[..i])| ::
         |Flat(fs[..k])| <= |Flat(pf[..i])|
  }

  /** A descriptor that left did so in a `sendmsg` that started no later than its mark. */
  lemma {:induction false} TimelySend(sends: seq<Send>, posted: seq<Posted>, f: nat) returns (j: nat)
    requires Timely(sends, posted) && f < |SentFds(sends)| && f < |posted|
    ensures j < |sends| && |SentBytes(sends[..j])| <= posted[f].mark && f < |SentFds(sends[..j + 1])|
  {
    var before := sends[..|sends| - 1];
    if f < |SentFds(before)| {
      j := TimelySend(before, posted, f);
      assert before[..j] == sends[..j] && before[..j + 1] == sends[..j + 1];
    } else {
      j := |sends| - 1;
      assert sends[..j + 1] == sends;
    }
  }

  /** Descriptors that are neither lost nor late arrive with their messages. */
  lemma {:induction false} PromptlyCarried(l: Ledger, fs: seq<seq<Fd>>, ms: seq<seq<byte>>,
                                           pb: seq<seq<byte>>, pf: seq<seq<Fd>>)
    requires l.Balanced() && l.lost == [] && HandedOver(l, fs, ms) && forall k | 0 <= k < |ms| :: ms[k] != []
    requires Carries(l.sends, pb, pf)
    ensures Prompt(fs, ms, pb, pf) && Flat(pb) <= Flat(ms) && Flat(pf) <= Flat(fs)
  {
    hide Flat, SentBytes, SentFds, Timely, Marks;
    assert fs[..|fs|] == fs && pb[..|pb|] == pb;
    MarksAre(fs, ms, |fs|);
    forall i, k | 0 <= i <= |pb| && 0 <= k <= |ms| && |Flat(ms[..k])| <= |Flat(pb[..i])|
      ensures |Flat(fs[..k])| <= |Flat(pf[..i])|
    {
      var due := |Flat(fs[..k])|;
      MarksAre(fs, ms, k);
      MarksPrefix(fs, ms, k, |fs|);
      FlatPrefix(pb, i, |pb|);
      if due > 0 {
        var f := due - 1;
        assert Marks(fs, ms, k)[f] == l.posted[f];
        var j := TimelySend(l.sends, l.posted, f);
      }
    }
  }

  /* ---- the sender ---- */

  function ClosuresOf(acts: seq<Act>): seq<Closure> {
    if acts == [] then []
    else ClosuresOf(acts[..|acts| - 1]) + if acts[|acts| - 1].SendOne? then [acts[|acts| - 1].c] else []
  }

  /** `ms` are serializations of `cs` that fit a ring. */
  ghost predicate Serialized(cs: seq<Closure>, ms: seq<seq<byte>>) {
    |ms| == |cs| &&
    forall k | 0 <= k < |cs| :: IsMessage(cs[k].sender, cs[k].opcode, CViews(cs[k].args), ms[k]) && |ms[k]| <= CAP
  }

  lemma {:induction false} HandedOverSnoc(before: Ledger, after: Ledger, cs: seq<Closure>, ms: seq<seq<byte>>,
                                          c: Closure, msg: seq<byte>)
    requires HandedOver(before, FdLists(cs), ms) && after.Extends(before, FdsIn(c.args), msg)
    ensures HandedOver(after, FdLists(cs + [c]), ms + [msg])
  {
    hide Flat;
    var fs, gs, ns := FdLists(cs), FdLists(cs + [c]), ms + [msg];
    assert gs == fs + [FdsIn(c.args)] && ns[..|ms|] == ms && ns[..|ms| + 1] == ns;
    FlatSnoc(ns, |ms|);
    MarksSame(fs, ms, gs, ns, |fs|);
  }

  lemma {:induction false} MarksSame(fs: seq<seq<Fd>>, ms: seq<seq<byte>>, gs: seq<seq<Fd>>, ns: seq<seq<byte>>, k: nat)
    requires |fs| == |ms| && |gs| == |ns| && fs <= gs && ms <= ns && k <= |fs|
    ensures Marks(gs, ns, k) == Marks(fs, ms, k)
  {
    if k > 0 {
      MarksSame(fs, ms, gs, ns, k - 1);
      assert ns[..k - 1] == ms[..k - 1];
    }
  }

  /** Any run of sends and flushes from a new connection, up to the first send that fails, which is
      then because its message exceeds the ring or the socket refused something. If the socket refused
      nothing and the last step is a flush, the messages and their descriptors have left, and nothing waits. */
  method SendRun(acts: seq<Act>, conn: WlConnection) returns (ok: bool, ghost ms: seq<seq<byte>>)
    requires conn.ValidOut() && conn.out == NothingYet()
    requires forall a | a in acts && a.SendOne? :: Sendable(a.c)
    modifies conn`wantFlush, conn`out, conn.sock, conn.output, conn.output.data, conn.fdsOut, conn.fdsOut.data
    ensures conn.ValidOut()
    ensures ok ==> && conn.out.Ready() && Serialized(ClosuresOf(acts), ms)
                   && HandedOver(conn.out, FdLists(ClosuresOf(acts)), ms)
    ensures !ok ==> !Fit(acts) || conn.sock.Refused() > old(conn.sock.Refused())
    ensures ok && EndsFlushed(acts) && conn.sock.Refused() == old(conn.sock.Refused()) ==>
              && conn.out.pending == [] && SentBytes(conn.sock.sends) == Flat(ms)
              && SentFds(conn.sock.sends) == Flat(FdLists(ClosuresOf(acts)))
  {
    hide Ledger.Balanced, Ledger.Extends, Ledger.Follows, Sendable, IsMessage, CViews, FdsIn, HandedOver, Flat;
    hide Socket.Refused, SentBytes, SentFds;
    ms := [];
    NoneHandedOver();
    ghost var cs: seq<Closure> := [];
    for i := 0 to |acts|
      invariant conn.sock.Refused() >= old(conn.sock.Refused()) && conn.Scheduled()
      invariant EndsFlushed(acts[..i]) && conn.sock.Refused() == old(conn.sock.Refused()) ==> conn.out.pending == []
      invariant conn.ValidOut() && conn.out.Ready() && cs == ClosuresOf(acts[..i])
      invariant Serialized(cs, ms) && HandedOver(conn.out, FdLists(cs), ms)
    {
      assert acts[..i + 1][..i] == acts[..i];
      ghost var before := conn.out;
      ReadyOut(conn);
      if acts[i].SendOne? {
        SendableArgs(acts[i].c);
        var sent, msg := SendClosure(acts[i].c, conn);
        if !sent {
          return false, ms;
        }
        SentFits(acts[i].c, msg);
        HandedOverSnoc(before, conn.out, cs, ms, acts[i].c, msg);
        cs, ms := cs + [acts[i].c], ms + [msg];
      } else {
        var r := conn.Flush();
        conn.out.FollowsReady(before);
        StillHandedOver(before, conn.out, FdLists(cs), ms);
      }
    }
    assert acts[..|acts|] == acts;
    AllSent(conn);
    AllLeft(conn.out, cs, ms);
    return true, ms;
  }

  /** What was handed over, one message after the other. */
  lemma {:induction false} AllLeft(l: Ledger, cs: seq<Closure>, ms: seq<seq<byte>>)
    requires HandedOver(l, FdLists(cs), ms) && Serialized(cs, ms)
    ensures l.written == Flat(ms) && FdsOf(l.posted) == Flat(FdLists(cs))
  {
    hide Flat, Marks, FdsOf, FdsIn, IsMessage;
    forall k | 0 <= k < |ms|
      ensures ms[k] != []
    {
      HeaderThere(cs, ms, k);
    }
    MarksAre(FdLists(cs), ms, |cs|);
    assert FdLists(cs)[..|cs|] == FdLists(cs);
  }

  lemma NoneHandedOver()
    ensures HandedOver(NothingYet(), FdLists([]), []) && NothingYet().Ready()
  {
  }

  lemma SentFits(c: Closure, msg: seq<byte>)
    requires IsMessage(c.sender, c.opcode, CViews(c.args), msg)
    ensures |msg| == MessageSize(c)
  {
    ImagesSize(CViews(c.args), msg[8..]);
  }

  lemma StillHandedOver(before: Ledger, after: Ledger, fs: seq<seq<Fd>>, ms: seq<seq<byte>>)
    requires HandedOver(before, fs, ms) && after.Follows(before)
    ensures HandedOver(after, fs, ms)
  {
  }

  /* ---- the receiver ---- */

  /** Of the messages `ms` with descriptors `fs`, `k` have been taken from the first `i` pieces;
      what came beyond them waits. */
  ghost predicate Received(ms: seq<seq<byte>>, fs: seq<seq<Fd>>, pb: seq<seq<byte>>, pf: seq<seq<Fd>>,
                           i: nat, k: nat, waiting: seq<byte>, fds: seq<Fd>) {
    && i <= |pb| == |pf| && k <= |ms| == |fs|
    && Flat(ms[..k]) + waiting == Flat(pb[..i]) && Flat(fs[..k]) + fds == Flat(pf[..i])
  }

  lemma ReceivedMore(ms: seq<seq<byte>>, fs: seq<seq<Fd>>, pb: seq<seq<byte>>, pf: seq<seq<Fd>>,
                     i: nat, k: nat, waiting: seq<byte>, fds: seq<Fd>)
    requires Received(ms, fs, pb, pf, i, k, waiting, fds) && i < |pb|
    ensures Received(ms, fs, pb, pf, i + 1, k, waiting + pb[i], fds + pf[i])
  {
    hide Flat;
    FlatSnoc(pb, i);
    FlatSnoc(pf, i);
    assert Flat(ms[..k]) + (waiting + pb[i]) == Flat(ms[..k]) + waiting + pb[i];
    assert Flat(fs[..k]) + (fds + pf[i]) == Flat(fs[..k]) + fds + pf[i];
  }

  /** What waits begins with the next message, as far as it goes; nothing waits after the last. */
  lemma {:induction false} NextWaits(ms: seq<seq<byte>>, fs: seq<seq<Fd>>, pb: seq<seq<byte>>, pf: seq<seq<Fd>>,
                  i: nat, k: nat, waiting: seq<byte>, fds: seq<Fd>)
    requires Received(ms, fs, pb, pf, i, k, waiting, fds) && Flat(pb) <= Flat(ms)
    ensures k == |ms| ==> waiting == []
    ensures k < |ms| ==> var n := if |waiting| < |ms[k]| then |waiting| else |ms[k]|; waiting[..n] == ms[k][..n]
  {
    hide Flat;
    FlatPrefix(pb, i, |pb|);
    assert pb[..|pb|] == pb && ms[..|ms|] == ms;
    if k < |ms| {
      FlatSnoc(ms, k);
      FlatPrefix(ms, k + 1, |ms|);
      var all, start, n := Flat(ms), |Flat(ms[..k])|, if |waiting| < |ms[k]| then |waiting| else |ms[k]|;
      assert all[start..start + n] == ms[k][..n];
      assert all[start..start + n] == (Flat(ms[..k]) + waiting)[start..start + n] == waiting[..n];
    }
  }

  /** A message that is there is taken whole, and its descriptors are the first that wait. */
  lemma {:induction false} MessageTaken(ms: seq<seq<byte>>, fs: seq<seq<Fd>>, pb: seq<seq<byte>>, pf: seq<seq<Fd>>,
                     i: nat, k: nat, waiting: seq<byte>, fds: seq<Fd>)
    requires Received(ms, fs, pb, pf, i, k, waiting, fds) && Prompt(fs, ms, pb, pf)
    requires Flat(pb) <= Flat(ms) && Flat(pf) <= Flat(fs) && k < |ms| && |ms[k]| <= |waiting|
    ensures waiting[..|ms[k]|] == ms[k] && fs[k] <= fds
    ensures Received(ms, fs, pb, pf, i, k + 1, waiting[|ms[k]|..], fds[|fs[k]|..])
  {
    hide Flat;
    NextWaits(ms, fs, pb, pf, i, k, waiting, fds);
    FlatSnoc(ms, k);
    FlatSnoc(fs, k);
    assert |Flat(ms[..k + 1])| <= |Flat(pb[..i])|;
    assert |fs[k]| <= |fds|;
    NextFds(fs, pf, i, k, fds);
    Regroup(Flat(ms[..k]), ms[k], waiting);
    Regroup(Flat(fs[..k]), fs[k], fds);
  }

  lemma Regroup<T>(a: seq<T>, x: seq<T>, w: seq<T>)
    requires |x| <= |w| && w[..|x|] == x
    ensures (a + x) + w[|x|..] == a + w
  {
    assert w == x + w[|x|..];
  }

  lemma {:induction false} NextFds(fs: seq<seq<Fd>>, pf: seq<seq<Fd>>, i: nat, k: nat, fds: seq<Fd>)
    requires i <= |pf| && k < |fs| && Flat(fs[..k]) + fds == Flat(pf[..i]) && Flat(pf) <= Flat(fs) && |fs[k]| <= |fds|
    ensures fs[k] <= fds
  {
    hide Flat;
    FlatPrefix(pf, i, |pf|);
    assert pf[..|pf|] == pf && fs[..|fs|] == fs;
    FlatSnoc(fs, k);
    FlatPrefix(fs, k + 1, |fs|);
    var all, start, n := Flat(fs), |Flat(fs[..k])|, |fs[k]|;
    assert all[start..start + n] == fs[k];
    assert all[start..start + n] == (Flat(fs[..k]) + fds)[start..start + n] == fds[..n];
  }

  function Arrived(c: Closure): Closure {
    Closure(c.sender, c.opcode % 65536, c.sig, AllArriving(c.args))
  }

  /** The new ids of the messages can be reserved, one message after the other. */
  function ReserveRun(cs: seq<Closure>, v: View): Option<View>
    decreases cs
  {
    if cs == [] then Some(v)
    else match ReserveAll(NewIdsIn(cs[0].args), v)
         case None => None
         case Some(w) => ReserveRun(cs[1..], w)
  }

  /** Messages a receiver with these ids can take. */
  ghost predicate Acceptable(cs: seq<Closure>, ids: View) {
    && ReserveRun(cs, ids).Some?
    && forall c | c in cs :: |Specs(c.sig)| == |c.args| <= MAX_ARGS && Deliverable(Specs(c.sig), c.args)
  }

  /** The next message, which is there with its descriptors. */
  method TakeOne(conn: WlConnection, objects: WlMap, size: nat, sig: string, ghost c: Closure) returns (got: Closure)
    requires conn.ValidIn() && 8 <= size <= conn.input.Size() && c.sig == sig
    requires IsMessage(c.sender, c.opcode, CViews(c.args), conn.input.Contents()[..size])
    requires |Specs(sig)| == |c.args| <= MAX_ARGS && Deliverable(Specs(sig), c.args)
    requires FdsIn(c.args) <= conn.fdInQueue && ReserveAll(NewIdsIn(c.args), objects.Words()).Some?
    modifies conn`fdInQueue, conn.fdsIn`tail, conn.input`tail, objects`client, objects`server
    ensures conn.ValidIn() && got == Arrived(c)
    ensures conn.input.Contents() == old(conn.input.Contents())[size..]
    ensures conn.fdInQueue == old(conn.fdInQueue)[|FdsIn(c.args)|..]
    ensures Some(objects.Words()) == ReserveAll(NewIdsIn(c.args), old(objects.Words()))
  {
    hide Window, FdBytes, IsMessage, Deliverable, ReserveAll, FdsIn, NewIdsIn, ParseArgs, Specs, CViews, AllArriving;
    ghost var msg, n := conn.input.Contents()[..size], |FdsIn(c.args)|;
    ghost var env := Env(conn.fdInQueue, objects.Words());
    ghost var env' := Env(conn.fdInQueue[n..], ReserveAll(NewIdsIn(c.args), objects.Words()).value);
    assert conn.fdInQueue == FdsIn(c.args) + conn.fdInQueue[n..];
    ClosureRoundTrip(c, msg, env, env');
    var taken := Demarshal(conn, size, objects, sig);
    got := taken.value;
  }

  /** `recvmsg` fills no more than the free cells: what is left over of a message and the next piece
      fit the ring. */
  ghost predicate Fitting(ms: seq<seq<byte>>, pb: seq<seq<byte>>) {
    forall i, k | 0 <= i < |pb| && 0 <= k <= |ms| && LeftAt(ms, k, |Flat(pb[..i])|) ::
      1 <= |pb[i]| && |Flat(pb[..i])| - |Flat(ms[..k])| + |pb[i]| <= CAP
  }

  /** `k` messages are whole within the first `b` bytes, and no more. */
  ghost predicate LeftAt(ms: seq<seq<byte>>, k: nat, b: nat)
    requires k <= |ms|
  {
    |Flat(ms[..k])| <= b && (k < |ms| ==> b < |Flat(ms[..k + 1])|)
  }

  lemma HeaderThere(cs: seq<Closure>, ms: seq<seq<byte>>, k: nat)
    requires Serialized(cs, ms) && k < |ms|
    ensures 8 <= |ms[k]| <= CAP && SizeOf(ms[k]) == |ms[k]|
    ensures IsMessage(cs[k].sender, cs[k].opcode, CViews(cs[k].args), ms[k])
  {
    hide Images, CViews, Header, SizeOf, SenderOf, OpcodeOf;
    HeaderFields(cs[k].sender, cs[k].opcode, |ms[k]|, ms[k]);
  }

  /** Eight bytes that wait are the header of the next message. */
  lemma HeaderWaits(cs: seq<Closure>, ms: seq<seq<byte>>, k: nat, waiting: seq<byte>)
    requires Serialized(cs, ms) && k <= |ms| && |waiting| >= 8 && (k == |ms| ==> waiting == [])
    requires k < |ms| ==> var n := if |waiting| < |ms[k]| then |waiting| else |ms[k]|; waiting[..n] == ms[k][..n]
    ensures k < |ms| && 8 <= |ms[k]| <= CAP && SizeOf(waiting) == |ms[k]|
    ensures IsMessage(cs[k].sender, cs[k].opcode, CViews(cs[k].args), ms[k])
  {
    hide Serialized, IsMessage, CViews, Word;
    HeaderThere(cs, ms, k);
    var n := if |waiting| < |ms[k]| then |waiting| else |ms[k]|;
    assert waiting[4..8] == waiting[..n][4..8] == ms[k][..n][4..8] == ms[k][4..8];
  }

  lemma LeftHere(ms: seq<seq<byte>>, fs: seq<seq<Fd>>, pb: seq<seq<byte>>, pf: seq<seq<Fd>>,
                 i: nat, k: nat, waiting: seq<byte>, fds: seq<Fd>)
    requires Received(ms, fs, pb, pf, i, k, waiting, fds) && (k < |ms| ==> |waiting| < |ms[k]|)
    ensures LeftAt(ms, k, |Flat(pb[..i])|)
  {
    hide Flat;
    if k < |ms| {
      FlatSnoc(ms, k);
    }
    assert |Flat(ms[..k])| + |waiting| == |Flat(pb[..i])|;
  }

  lemma {:induction false} NextAcceptable(cs: seq<Closure>, ids: View)
    requires cs != [] && Acceptable(cs, ids)
    ensures |Specs(cs[0].sig)| == |cs[0].args| <= MAX_ARGS && Deliverable(Specs(cs[0].sig), cs[0].args)
    ensures var left := ReserveAll(NewIdsIn(cs[0].args), ids); left.Some? && Acceptable(cs[1..], left.value)
  {
    hide Specs, Deliverable, ReserveAll, NewIdsIn;
  }

  /** After a read: every message that is there whole, by the size its header states. */
  method TakeWhole(conn: WlConnection, objects: WlMap, sigs: seq<string>, taken: nat,
                   ghost cs: seq<Closure>, ghost ms: seq<seq<byte>>, ghost pb: seq<seq<byte>>, ghost pf: seq<seq<Fd>>,
                   ghost i: nat)
    returns (got: seq<Closure>)
    requires conn.ValidIn() && taken <= |cs| && |sigs| == |cs| == |ms|
    requires forall k | 0 <= k < |cs| :: sigs[k] == cs[k].sig
    requires Serialized(cs, ms) && Prompt(FdLists(cs), ms, pb, pf)
    requires Flat(pb) <= Flat(ms) && Flat(pf) <= Flat(FdLists(cs))
    requires Received(ms, FdLists(cs), pb, pf, i, taken, conn.input.Contents(), conn.fdInQueue)
    requires Acceptable(cs[taken..], objects.Words())
    modifies conn`fdInQueue, conn.fdsIn`tail, conn.input`tail, objects`client, objects`server
    ensures conn.ValidIn() && taken + |got| <= |cs|
    ensures forall j | 0 <= j < |got| :: got[j] == Arrived(cs[taken + j])
    ensures Received(ms, FdLists(cs), pb, pf, i, taken + |got|, conn.input.Contents(), conn.fdInQueue)
    ensures LeftAt(ms, taken + |got|, |Flat(pb[..i])|)
    ensures Acceptable(cs[taken + |got|..], objects.Words())
    ensures conn.input.Size() <= old(conn.input.Size()) && |conn.fdInQueue| <= |old(conn.fdInQueue)|
  {
    hide Window, FdBytes, IsMessage, Deliverable, ReserveRun, Received, Prompt, Flat, FdsIn, Serialized, Acceptable;
    hide Word, Arrived, LeftAt, AllArriving, CViews, NewIdsIn, ReserveAll, Specs;
    got := [];
    ghost var fs := FdLists(cs);
    while conn.input.Size() >= 8
      invariant conn.ValidIn() && taken + |got| <= |cs|
      invariant forall j | 0 <= j < |got| :: got[j] == Arrived(cs[taken + j])
      invariant Received(ms, fs, pb, pf, i, taken + |got|, conn.input.Contents(), conn.fdInQueue)
      invariant Acceptable(cs[taken + |got|..], objects.Words())
      invariant conn.input.Size() <= old(conn.input.Size()) && |conn.fdInQueue| <= |old(conn.fdInQueue)|
      decreases conn.input.Size()
    {
      ghost var k, waiting := taken + |got|, conn.input.Contents();
      NextWaits(ms, fs, pb, pf, i, k, waiting, conn.fdInQueue);
      HeaderWaits(cs, ms, k, waiting);
      var header := conn.input.Copy(8);
      var size := Word(header[4..8]) / 65536;
      assert header[4..8] == waiting[4..8];
      if size > conn.input.Size() {
        LeftHere(ms, fs, pb, pf, i, k, waiting, conn.fdInQueue);
        return;
      }
      MessageTaken(ms, fs, pb, pf, i, k, waiting, conn.fdInQueue);
      NextAcceptable(cs[k..], objects.Words());
      var c := TakeOne(conn, objects, size, sigs[taken + |got|], cs[k]);
      got := got + [c];
    }
    ghost var k, waiting := taken + |got|, conn.input.Contents();
    if k < |ms| {
      HeaderThere(cs, ms, k);
    }
    LeftHere(ms, fs, pb, pf, i, k, waiting, conn.fdInQueue);
  }

  lemma NoneReceived(cs: seq<Closure>, ms: seq<seq<byte>>, pb: seq<seq<byte>>, pf: seq<seq<Fd>>)
    requires Serialized(cs, ms) && |pb| == |pf|
    ensures Received(ms, FdLists(cs), pb, pf, 0, 0, [], []) && LeftAt(ms, 0, |Flat(pb[..0])|)
  {
    hide IsMessage;
    if ms != [] {
      HeaderThere(cs, ms, 0);
      FlatSnoc(ms, 0);
    }
  }

  lemma RoomFor(ms: seq<seq<byte>>, fs: seq<seq<Fd>>, pb: seq<seq<byte>>, pf: seq<seq<Fd>>,
                i: nat, k: nat, waiting: seq<byte>, fds: seq<Fd>)
    requires Received(ms, fs, pb, pf, i, k, waiting, fds) && i < |pb|
    requires LeftAt(ms, k, |Flat(pb[..i])|) && Fitting(ms, pb)
    ensures 1 <= |pb[i]| <= CAP - |waiting|
  {
    hide Flat, LeftAt;
    assert |Flat(ms[..k])| + |waiting| == |Flat(pb[..i])|;
  }

  /** Descriptors for which there is no room are not kept. */
  lemma {:induction false} OneOverflow(room: nat, fds: seq<Fd>)
    requires 4 * |fds| > room
    ensures Keep(room, [Rights(fds)]).overflow && Keep(room, [Rights(fds)]).fds == []
  {
  }

  /** The reading loop, over any pieces: the messages come out in order with their descriptors, each as
      soon as it is whole, until all pieces are read or waiting descriptors leave no room for the next. */
  method ReceiveAll(conn: WlConnection, objects: WlMap, sigs: seq<string>, pieces: seq<Piece>,
                    ghost cs: seq<Closure>, ghost ms: seq<seq<byte>>)
    returns (got: seq<Closure>, n: nat)
    requires conn.ValidIn() && conn.input.Contents() == [] && conn.fdInQueue == []
    requires |sigs| == |cs| == |ms| && forall k | 0 <= k < |cs| :: sigs[k] == cs[k].sig
    requires Serialized(cs, ms) && Acceptable(cs, objects.Words())
    requires Prompt(FdLists(cs), ms, BytesOf(pieces), FdsOfPieces(pieces)) && Fitting(ms, BytesOf(pieces))
    requires Flat(BytesOf(pieces)) <= Flat(ms) && Flat(FdsOfPieces(pieces)) <= Flat(FdLists(cs))
    modifies conn`fdInQueue, conn.input, conn.input.data, conn.fdsIn, conn.fdsIn.data, objects`client, objects`server
    ensures n <= |pieces| && |got| <= |cs| && forall j | 0 <= j < |got| :: got[j] == Arrived(cs[j])
    ensures conn.ValidIn() && LeftAt(ms, |got|, |Flat(BytesOf(pieces)[..n])|)
    ensures Received(ms, FdLists(cs), BytesOf(pieces), FdsOfPieces(pieces), n, |got|,
                     conn.input.Contents(), conn.fdInQueue)
    ensures n < |pieces| ==> 4 * (|conn.fdInQueue| + |pieces[n].fds|) > CAP
  {
    hide Window, FdBytes, Deliverable, ReserveRun, Received, Prompt, Flat, FdsIn, Serialized, Acceptable;
    hide Arrived, LeftAt, Specs, Fitting, Keep;
    got, n := [], 0;
    ghost var fs, pb, pf := FdLists(cs), BytesOf(pieces), FdsOfPieces(pieces);
    assert cs[0..] == cs;
    NoneReceived(cs, ms, pb, pf);
    while n < |pieces|
      invariant conn.ValidIn() && n <= |pieces| && |got| <= |cs|
      invariant forall j | 0 <= j < |got| :: got[j] == Arrived(cs[j])
      invariant Received(ms, fs, pb, pf, n, |got|, conn.input.Contents(), conn.fdInQueue)
      invariant LeftAt(ms, |got|, |Flat(pb[..n])|)
      invariant Acceptable(cs[|got|..], objects.Words())
    {
      var p := pieces[n];
      RoomFor(ms, fs, pb, pf, n, |got|, conn.input.Contents(), conn.fdInQueue);
      ReceivedMore(ms, fs, pb, pf, n, |got|, conn.input.Contents(), conn.fdInQueue);
      ghost var room, fds := CAP - conn.fdsIn.Size(), conn.fdInQueue;
      if 4 * |p.fds| > room {
        OneOverflow(room, p.fds);
      } else {
        OneRights(room, p.fds);
      }
      var r := conn.Read(Data(p.bytes, [Rights(p.fds)]));
      if r < 0 {
        assert conn.fdInQueue == fds + [] == fds;
        return;
      }
      var more := TakeWhole(conn, objects, sigs, |got|, cs, ms, pb, pf, n + 1);
      got := got + more;
      n := n + 1;
    }
  }

  /** End to end: a connection that has sent the messages of `cs` as far as its socket took them, and
      another that reads what the kernel carries over. The closures come out in order, with the
      descriptors they were sent with; when everything has been carried over and read, all of them. */
  method Convey(sender: WlConnection, conn: WlConnection, objects: WlMap, sigs: seq<string>, pieces: seq<Piece>,
                ghost cs: seq<Closure>, ghost ms: seq<seq<byte>>)
    returns (got: seq<Closure>, n: nat)
    requires sender.ValidOut() && sender.out.Ready() && Serialized(cs, ms) && HandedOver(sender.out, FdLists(cs), ms)
    requires Carries(sender.sock.sends, BytesOf(pieces), FdsOfPieces(pieces)) && Fitting(ms, BytesOf(pieces))
    requires conn.ValidIn() && conn.input.Contents() == [] && conn.fdInQueue == []
    requires |sigs| == |cs| && forall k | 0 <= k < |cs| :: sigs[k] == cs[k].sig
    requires Acceptable(cs, objects.Words())
    modifies conn`fdInQueue, conn.input, conn.input.data, conn.fdsIn, conn.fdsIn.data, objects`client, objects`server
    ensures n <= |pieces| && |got| <= |cs| && forall j | 0 <= j < |got| :: got[j] == Arrived(cs[j])
    ensures LeftAt(ms, |got|, |Flat(BytesOf(pieces)[..n])|)
    ensures n < |pieces| ==> 4 * (|conn.fdInQueue| + |pieces[n].fds|) > CAP
    ensures n == |pieces| && Flat(BytesOf(pieces)) == Flat(ms) ==>
              |got| == |cs| && conn.ValidIn() && conn.input.Contents() == [] && conn.fdInQueue == []
  {
    hide IsMessage, Deliverable, ReserveRun, Prompt, Flat, FdsIn, Acceptable, Carries, HandedOver, Ledger.Balanced;
    hide Arrived, LeftAt, Specs, Fitting, Received, Window, FdBytes;
    ghost var pb, pf := BytesOf(pieces), FdsOfPieces(pieces);
    forall k | 0 <= k < |ms|
      ensures ms[k] != []
    {
      HeaderThere(cs, ms, k);
    }
    PromptlyCarried(sender.out, FdLists(cs), ms, pb, pf);
    got, n := ReceiveAll(conn, objects, sigs, pieces, cs, ms);
    if n == |pieces| && Flat(pb) == Flat(ms) {
      AllReceived(ms, FdLists(cs), pb, pf, |got|, conn.input.Contents(), conn.fdInQueue);
    }
  }

  lemma {:induction false} AllReceived(ms: seq<seq<byte>>, fs: seq<seq<Fd>>, pb: seq<seq<byte>>, pf: seq<seq<Fd>>,
                    k: nat, waiting: seq<byte>, fds: seq<Fd>)
    requires Received(ms, fs, pb, pf, |pb|, k, waiting, fds) && LeftAt(ms, k, |Flat(pb[..|pb|])|)
    requires Flat(pb) == Flat(ms) && Flat(pf) <= Flat(fs)
    ensures k == |ms| && waiting == [] && fds == []
  {
    hide Flat;
    assert pb[..|pb|] == pb && pf[..|pf|] == pf && ms[..|ms|] == ms && fs[..|fs|] == fs;
    if k < |ms| {
      FlatPrefix(ms, k + 1, |ms|);
    }
    assert |Flat(ms[..k])| + |waiting| == |Flat(pb)|;
    assert |Flat(fs[..k])| + |fds| == |Flat(pf)|;
  }
}
