/** What has gone through one direction of a connection: bytes and descriptors
    accepted for output, still queued, sent, closed or lost. */
module Ledgers {
  import opened Bytes

  const MAX_FDS_OUT := 28

  /** One successful `sendmsg`: the bytes taken and the descriptors riding on the first of them. */
  datatype Send = Send(bytes: seq<byte>, fds: seq<Fd>)

  /** A descriptor handed to the connection when `mark` bytes had been accepted for output. */
  datatype Posted = Posted(fd: Fd, mark: nat)

  function SentBytes(log: seq<Send>): seq<byte> {
    if log == [] then [] else SentBytes(log[..|log| - 1]) + log[|log| - 1].bytes
  }

  function SentFds(log: seq<Send>): seq<Fd> {
    if log == [] then [] else SentFds(log[..|log| - 1]) + log[|log| - 1].fds
  }

  lemma {:induction false} SentSnoc(log: seq<Send>, s: Send)
    ensures SentBytes(log + [s]) == SentBytes(log) + s.bytes
    ensures SentFds(log + [s]) == SentFds(log) + s.fds
  {
  }

  /** What one `sendmsg` can carry. */
  function FirstFds(q: seq<Fd>): seq<Fd> {
    if |q| > MAX_FDS_OUT then q[..MAX_FDS_OUT] else q
  }

  function FdsOf(posted: seq<Posted>): (fds: seq<Fd>)
    ensures |fds| == |posted|
  {
    seq(|posted|, i requires 0 <= i < |posted| => posted[i].fd)
  }

  /** Every descriptor left in a `sendmsg` that started no later than its mark:
      no byte accepted after it was sent in an earlier call. */
  ghost predicate Timely(log: seq<Send>, posted: seq<Posted>) {
    log == [] ||
    var before := log[..|log| - 1];
    && Timely(before, posted)
    && forall k | |SentFds(before)| <= k < |SentFds(log)| && k < |posted| ::
         |SentBytes(before)| <= posted[k].mark
  }

  lemma {:induction false} TimelyMorePosts(log: seq<Send>, posted: seq<Posted>, p: Posted)
    requires Timely(log, posted) && |SentFds(log)| <= |posted|
    ensures Timely(log, posted + [p])
  {
    if log != [] {
      TimelyMorePosts(log[..|log| - 1], posted, p);
    }
  }

  datatype Ledger = Ledger(
    /** every successful `sendmsg` */
    sends: seq<Send>,
    /** bytes in the `out` ring */
    pending: seq<byte>,
    /** descriptors in the `fds_out` ring */
    queue: seq<Fd>,
    /** all bytes and all descriptors ever accepted for output */
    written: seq<byte>,
    posted: seq<Posted>,
    /** descriptors closed here after a `sendmsg`, and dropped without being sent or closed */
    closed: seq<Fd>,
    lost: seq<Fd>)
  {
    /** Bytes: what left followed by what waits is what was accepted. Descriptors: each
        sent one was closed here once; unless some were lost, what left followed by what
        waits is what was handed over, and nothing left late. */
    ghost predicate Balanced() {
      && SentBytes(sends) + pending == written
      && closed == SentFds(sends)
      && (lost == [] ==>
            && FdsOf(posted) == SentFds(sends) + queue
            && Timely(sends, posted)
            && forall k | |SentFds(sends)| <= k < |posted| :: |SentBytes(sends)| <= posted[k].mark)
    }

    /** A `sendmsg` that took `len` bytes: it carries at most 28 descriptors, and
        `close_fds` then empties the descriptor ring. */
    function AfterSend(len: nat): Ledger
      requires len <= |pending|
    {
      Ledger(sends + [Send(pending[..len], FirstFds(queue))], pending[len..], [], written, posted,
             closed + FirstFds(queue), lost + queue[|FirstFds(queue)|..])
    }

    function AfterWrite(src: seq<byte>): Ledger {
      this.(pending := pending + src, written := written + src)
    }

    function AfterPost(fd: Fd): Ledger {
      this.(queue := queue + [fd], posted := posted + [Posted(fd, |written|)])
    }

    function AfterPosts(fds: seq<Fd>): (l: Ledger)
      ensures l.queue == queue + fds && l.pending == pending && l.sends == sends
      ensures l.written == written && l.lost == lost
      ensures FdsOf(l.posted) == FdsOf(posted) + fds
      decreases fds
    {
      if fds == [] then this else AfterPost(fds[0]).AfterPosts(fds[1..])
    }

    lemma PostsOfNone()
      ensures AfterPosts([]) == this
    {
    }

    lemma {:induction false} PostsKeepBalance(fds: seq<Fd>)
      requires Balanced()
      ensures AfterPosts(fds).Balanced()
      decreases fds
    {
      if fds != [] {
        PostKeepsBalance(fds[0]);
        AfterPost(fds[0]).PostsKeepBalance(fds[1..]);
      }
    }

    /** At most one full `sendmsg` worth of descriptors waits, and whenever one waits a byte
        waits with it, so the next flush takes them along. */
    ghost predicate Ready() {
      lost == [] && |queue| <= MAX_FDS_OUT && (pending == [] ==> queue == [])
    }

    /** The same while the `k` descriptors of one message are being put. */
    ghost predicate Loading(k: nat) {
      lost == [] && |queue| <= MAX_FDS_OUT && (pending == [] ==> |queue| <= k)
    }

    /** After a `sendmsg`, every descriptor ever handed over has left or still waits, exactly if
        no more than 28 of them waited. */
    lemma SendLoses(len: nat)
      requires Balanced() && lost == [] && len <= |pending|
      ensures FdsOf(posted) == SentFds(AfterSend(len).sends) + AfterSend(len).queue <==> |queue| <= MAX_FDS_OUT
    {
      SentSnoc(sends, Send(pending[..len], FirstFds(queue)));
      assert |FdsOf(posted)| == |SentFds(sends)| + |queue|;
    }

    lemma {:induction false} PostsSnoc(fds: seq<Fd>, fd: Fd)
      ensures AfterPosts(fds + [fd]) == AfterPosts(fds).AfterPost(fd)
      decreases fds
    {
      if fds == [] {
        assert fds + [fd] == [fd];
        AfterPost(fd).PostsOfNone();
      } else {
        AfterPost(fds[0]).PostsSnoc(fds[1..], fd);
        assert (fds + [fd])[1..] == fds[1..] + [fd];
      }
    }

    /** `fds` were handed over after `before`, and all before any byte of `bytes`. */
    ghost predicate Extends(before: Ledger, fds: seq<Fd>, bytes: seq<byte>) {
      && written == before.written + bytes
      && posted == before.posted + seq(|fds|, i requires 0 <= i < |fds| => Posted(fds[i], |before.written|))
    }

    /** Where the puts of one message, `fds` of them so far, have led from `start`. */
    ghost predicate Loaded(start: Ledger, fds: seq<Fd>) {
      && Extends(start, fds, [])
      && |queue| <= |start.queue| + |fds|
      && (start.Ready() && |fds| <= MAX_FDS_OUT ==> Loading(|fds|))
      && (start.pending == [] || |start.queue| + |fds| <= MAX_FDS_OUT ==> this == start.AfterPosts(fds))
      && (start.Ready() && |fds| <= MAX_FDS_OUT && |start.queue| + |fds| > MAX_FDS_OUT ==> pending == [] && queue != [])
    }

    lemma LoadedNone()
      ensures Loaded(this, [])
    {
    }

    lemma LoadedBounds(start: Ledger, fds: seq<Fd>)
      requires Loaded(start, fds)
      ensures |queue| <= |start.queue| + |fds| && written == start.written
      ensures start.pending == [] ==> pending == []
      ensures start.Ready() && |fds| <= MAX_FDS_OUT ==> |queue| <= MAX_FDS_OUT && lost == []
    {
    }

    lemma {:induction false} LoadedOnEmpty(start: Ledger, fds: seq<Fd>)
      requires Loaded(start, fds)
      ensures start.pending == [] || |start.queue| + |fds| <= MAX_FDS_OUT ==> this == start.AfterPosts(fds)
    {
    }

    /** A message with descriptors that does not fit the ring: its descriptors are left behind
        (in `this`) exactly if the bytes that waited before are all gone without them. */
    lemma OversizedReady(start: Ledger, loaded: Ledger, fds: seq<Fd>)
      requires loaded.Loaded(start, fds) && start.Ready() && 0 < |fds| <= MAX_FDS_OUT && Follows(loaded)
      ensures Ready() <==> start.pending != [] && (|start.queue| + |fds| <= MAX_FDS_OUT || pending != [])
    {
    }

    /** With nothing pending there is nothing to send. */
    lemma FollowsNothing(before: Ledger)
      requires Follows(before)
      ensures before.pending == [] ==> this == before
      ensures written == before.written
    {
    }

    /** One more `sendmsg`. */
    lemma FollowsSend(before: Ledger, len: nat)
      requires Follows(before) && 0 < len <= |pending|
      ensures AfterSend(len).Follows(before)
    {
      SentSnoc(sends, Send(pending[..len], FirstFds(queue)));
    }

    lemma FollowsBounds(before: Ledger)
      requires Follows(before)
      ensures |queue| <= |before.queue| && written == before.written && (before.pending == [] ==> pending == [])
      ensures pending != [] && before.lost == [] && |before.queue| <= MAX_FDS_OUT ==> Ready()
    {
    }

    lemma FollowsReady(before: Ledger)
      requires Follows(before) && before.Ready()
      ensures Ready() && posted == before.posted
    {
    }

    lemma ExtendsFds(before: Ledger, fds: seq<Fd>, bytes: seq<byte>)
      requires Extends(before, fds, bytes)
      ensures FdsOf(posted) == FdsOf(before.posted) + fds
    {
    }

    /** One more put: it flushes first (to `this`) when it finds 28 waiting. */
    lemma LoadedOne(start: Ledger, before: Ledger, fds: seq<Fd>, fd: Fd)
      requires before.Loaded(start, fds) && Follows(before)
      requires if |before.queue| == MAX_FDS_OUT then pending == [] else this == before
      ensures AfterPost(fd).Loaded(start, fds + [fd])
    {
      start.PostsSnoc(fds, fd);
      assert start.written + [] == start.written;
    }

    /** The write that ends a message, after sending what it had to (to `this`). */
    lemma WriteReady(start: Ledger, loaded: Ledger, fds: seq<Fd>, src: seq<byte>, ok: bool)
      requires loaded.Loaded(start, fds) && start.Ready() && |fds| <= MAX_FDS_OUT && Follows(loaded) && src != []
      requires ok || fds == [] || pending != []
      ensures (if ok then AfterWrite(src) else this).Ready()
    {
    }

    lemma WriteExtends(start: Ledger, loaded: Ledger, fds: seq<Fd>, src: seq<byte>)
      requires loaded.Loaded(start, fds) && Follows(loaded)
      ensures AfterWrite(src).Extends(start, fds, src)
    {
    }

    lemma SendKeepsBalance(len: nat)
      requires Balanced() && len <= |pending|
      ensures AfterSend(len).Balanced()
    {
      var s := Send(pending[..len], FirstFds(queue));
      SentSnoc(sends, s);
      assert (sends + [s])[..|sends|] == sends;
      assert pending[..len] + pending[len..] == pending;
      if AfterSend(len).lost == [] {
        assert |queue| == |FirstFds(queue)| + |queue[|FirstFds(queue)|..]|;
      }
    }

    lemma WriteKeepsBalance(src: seq<byte>)
      requires Balanced()
      ensures AfterWrite(src).Balanced()
    {
    }

    lemma PostKeepsBalance(fd: Fd)
      requires Balanced()
      ensures AfterPost(fd).Balanced()
    {
      if lost == [] {
        assert |posted| == |SentFds(sends) + queue|;
        TimelyMorePosts(sends, posted, Posted(fd, |written|));
        assert FdsOf(posted + [Posted(fd, |written|)]) == FdsOf(posted) + [fd];
      }
    }

    /** Reached from `before` by sending alone: nothing new accepted, nothing that left taken
        back; the descriptors wait until the first `sendmsg`, which empties their ring. */
    ghost predicate Follows(before: Ledger) {
      && before.sends <= sends
      && written == before.written && posted == before.posted
      && |pending| <= |before.pending|
      && (if sends == before.sends then this == before else queue == [] && |pending| < |before.pending|)
      && SentFds(sends) == SentFds(before.sends) + (if sends == before.sends then [] else FirstFds(before.queue))
      && (|before.queue| <= MAX_FDS_OUT ==> lost == before.lost)
    }
  }

  function NothingYet(): (l: Ledger)
    ensures l.Balanced()
  {
    Ledger([], [], [], [], [], [], [])
  }
}
