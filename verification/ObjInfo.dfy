/** What wldbg remembers about surfaces, buffers and xdg surfaces (`src/objinfo`). */
module ObjInfos {
  import opened Bytes

  /* ---- wl_surface: pending and committed state ---- */

  /** The fields of `struct wldbg_wl_surface_info` other than the committed copy. */
  datatype Surface = Surface(bufferId: u32, x: u32, y: u32, scale: u32, frame: u32)

  const ZERO := Surface(0, 0, 0, 0, 0)

  datatype SurfaceEvent = Frame(callback: u32) | Attach(bufferId: u32, ax: u32, ay: u32) | Commit

  function Updated(s: Surface, e: SurfaceEvent): Surface {
    match e
    case Frame(callback) => s.(frame := callback)
    case Attach(b, x, y) => s.(bufferId := b, x := x, y := y)
    case Commit => s
  }

  function Folded(updates: seq<SurfaceEvent>): Surface {
    if updates == [] then ZERO else Updated(Folded(updates[..|updates| - 1]), updates[|updates| - 1])
  }

  /** The updates since the last commit, and since the one before it up to it. */
  function Since(h: seq<SurfaceEvent>): seq<SurfaceEvent> {
    if h == [] || h[|h| - 1].Commit? then [] else Since(h[..|h| - 1]) + [h[|h| - 1]]
  }

  function LastCommit(h: seq<SurfaceEvent>): Option<seq<SurfaceEvent>> {
    if h == [] then None
    else if h[|h| - 1].Commit? then Some(Since(h[..|h| - 1]))
    else LastCommit(h[..|h| - 1])
  }

  /** A fold of updates keeps the last of each kind: the buffer and place of the last attach, the callback
      of the last frame request, and zero where there was none. */
  lemma {:induction false} FoldKeepsLast(updates: seq<SurfaceEvent>, j: nat)
    requires j < |updates|
    ensures updates[j].Attach? && (forall k | j < k < |updates| :: !updates[k].Attach?) ==>
              && Folded(updates).bufferId == updates[j].bufferId
              && Folded(updates).x == updates[j].ax && Folded(updates).y == updates[j].ay
    ensures updates[j].Frame? && (forall k | j < k < |updates| :: !updates[k].Frame?) ==>
              Folded(updates).frame == updates[j].callback
  {
    if j < |updates| - 1 {
      FoldKeepsLast(updates[..|updates| - 1], j);
    }
  }

  lemma {:induction false} FoldOfNone(updates: seq<SurfaceEvent>)
    ensures (forall k | 0 <= k < |updates| :: !updates[k].Attach?) ==>
              Folded(updates).bufferId == Folded(updates).x == Folded(updates).y == 0
    ensures (forall k | 0 <= k < |updates| :: !updates[k].Frame?) ==> Folded(updates).frame == 0
    ensures Folded(updates).scale == 0
  {
    if updates != [] {
      FoldOfNone(updates[..|updates| - 1]);
    }
  }

  /** `Since` and `LastCommit` cut a history at its last two commits. */
  lemma {:induction false} CutAtCommits(before: seq<SurfaceEvent>, mid: seq<SurfaceEvent>, after: seq<SurfaceEvent>)
    requires before == [] || before[|before| - 1].Commit?
    requires forall k | 0 <= k < |mid| :: !mid[k].Commit?
    requires forall k | 0 <= k < |after| :: !after[k].Commit?
    ensures Since(before + mid) == mid
    ensures Since(before + mid + [Commit] + after) == after
    ensures LastCommit(before + mid + [Commit] + after) == Some(mid)
    decreases |mid| + |after|
  {
    hide Since, LastCommit;
    var h := before + mid;
    if after != [] {
      var init, e := after[..|after| - 1], after[|after| - 1];
      CutAtCommits(before, mid, init);
      CutSnoc(h + [Commit] + init, e);
      assert h + [Commit] + after == (h + [Commit] + init) + [e] && init + [e] == after;
    } else {
      assert h + [Commit] + [] == h + [Commit];
      CutSnoc(h, Commit);
      if mid != [] {
        var init, e := mid[..|mid| - 1], mid[|mid| - 1];
        CutAtCommits(before, init, []);
        CutSnoc(before + init, e);
        assert h == (before + init) + [e] && init + [e] == mid;
      } else {
        assert h == before;
        CutNone(before);
      }
    }
  }

  lemma {:induction false} CutSnoc(h: seq<SurfaceEvent>, e: SurfaceEvent)
    ensures Since(h + [e]) == if e.Commit? then [] else Since(h) + [e]
    ensures LastCommit(h + [e]) == if e.Commit? then Some(Since(h)) else LastCommit(h)
  {
    assert (h + [e])[..|h|] == h;
  }

  lemma {:induction false} FoldSnoc(updates: seq<SurfaceEvent>, e: SurfaceEvent)
    ensures Folded([]) == ZERO && Folded(updates + [e]) == Updated(Folded(updates), e)
  {
    assert (updates + [e])[..|updates|] == updates;
  }

  lemma {:induction false} CutNone(h: seq<SurfaceEvent>)
    requires h == [] || h[|h| - 1].Commit?
    ensures Since(h) == []
  {
  }

  /** `struct wldbg_wl_surface_info`. */
  class SurfaceInfo {
    var commited: SurfaceInfo?
    var state: Surface
    /** The requests seen on the surface. */
    ghost var history: seq<SurfaceEvent>
    /** The id of the object this belongs to. */
    ghost const owner: u32

    /** `calloc`. */
    constructor (ghost owner: u32)
      ensures this.owner == owner
      ensures commited == null && state == ZERO && history == [] && Valid()
    {
      commited, state, history := null, ZERO, [];
      this.owner := owner;
    }

    /** Pending is the updates since the last commit folded onto zero; the committed copy, present
        once there was a commit, is those before it, and itself has no committed copy. */
    ghost predicate Valid()
      reads this, commited
    {
      && state == Folded(Since(history))
      && if commited == null then LastCommit(history) == None
         else && commited != this && commited.commited == null && commited.owner == owner
              && LastCommit(history).Some? && commited.state == Folded(LastCommit(history).value)
    }

    /** The client's requests of `handle_wl_surface_message` that concern the surface itself. */
    method Handle(e: SurfaceEvent)
      requires Valid()
      modifies this, commited
      ensures Valid() && history == old(history) + [e]
      ensures match e
              case Frame(callback) => state == old(state).(frame := callback)
              case Attach(b, ax, ay) => state == old(state).(bufferId := b, x := ax, y := ay)
              case Commit => state == Surface(0, 0, 0, 0, 0) && commited != null && commited.state == old(state)
      ensures !e.Commit? ==> commited == old(commited) && (commited != null ==> commited.state == old(commited.state))
      ensures fresh(commited) || commited == old(commited)
    {
      hide Folded, Since, LastCommit;
      CutSnoc(history, e);
      FoldSnoc(Since(history), e);
      match e {
        case Frame(callback) =>
          state := state.(frame := callback);
        case Attach(b, x, y) =>
          state := state.(bufferId := b);
          state := state.(x := x);
          state := state.(y := y);
        case Commit =>
          if commited == null {
            commited := new SurfaceInfo(owner);
          }
          commited.state, commited.commited := state, commited;
          commited.commited := null;
          state := ZERO;
      }
      history := history + [e];
    }

  }

  /* ---- wl_buffer: the released flag ---- */

  datatype BufferEvent = Attached | Released

  /** `struct wldbg_wl_buffer_info`. */
  class BufferInfo {
    var width: int
    var height: int
    var offset: int
    var stride: int
    var format: u32
    var released: bool
    ghost var history: seq<BufferEvent>
    ghost const owner: u32

    constructor (ghost owner: u32)
      ensures this.owner == owner
      ensures history == [] && Valid()
    {
      width, height, offset, stride, format, released, history := 0, 0, 0, 0, 0, false, [];
      this.owner := owner;
    }

    ghost predicate Valid()
      reads this
    {
      released <==> history != [] && history[|history| - 1] == Released
    }

    /** Filling in a `create_buffer` request. */
    method Fill(offset: int, width: int, height: int, stride: int, format: u32)
      modifies this`offset, this`width, this`height, this`stride, this`format
      ensures this.offset == offset && this.width == width && this.height == height
      ensures this.stride == stride && this.format == format
    {
      this.offset := offset;
      this.width := width;
      this.height := height;
      this.stride := stride;
      this.format := format;
    }

    method Mark(e: BufferEvent)
      requires Valid()
      modifies this`released, this`history
      ensures Valid() && history == old(history) + [e] && (released <==> e == Released)
    {
      released := e == Released;
      history := history + [e];
    }
  }

  /* ---- wl_seat: what the server says last ---- */

  datatype SeatEvent = Named(name: seq<byte>) | Capable(capabilities: u32)

  /** The last capabilities and the last name announced; no capabilities before that. */
  function LastCapabilities(h: seq<SeatEvent>): u32 {
    if h == [] then 0
    else if h[|h| - 1].Capable? then h[|h| - 1].capabilities
    else LastCapabilities(h[..|h| - 1])
  }

  function LastName(h: seq<SeatEvent>): Option<seq<byte>> {
    if h == [] then None
    else if h[|h| - 1].Named? then Some(h[|h| - 1].name)
    else LastName(h[..|h| - 1])
  }

  /** Those are the last ones: what event `j` said, if nothing of its kind came after it. */
  lemma {:induction false} SaidLast(h: seq<SeatEvent>, j: nat)
    requires j < |h|
    ensures h[j].Capable? && (forall k | j < k < |h| :: !h[k].Capable?) ==> LastCapabilities(h) == h[j].capabilities
    ensures h[j].Named? && (forall k | j < k < |h| :: !h[k].Named?) ==> LastName(h) == Some(h[j].name)
  {
    if j < |h| - 1 {
      SaidLast(h[..|h| - 1], j);
    }
  }

  /** `struct wldbg_wl_seat_info`; the name is not set before the first one is announced. */
  class SeatInfo {
    var capabilities: u32
    var name: seq<byte>
    ghost var history: seq<SeatEvent>
    ghost const owner: u32

    constructor (ghost owner: u32)
      ensures this.owner == owner
      ensures history == [] && Valid()
    {
      capabilities, history := 0, [];
      this.owner := owner;
    }

    ghost predicate Valid()
      reads this
    {
      && capabilities == LastCapabilities(history)
      && (LastName(history).Some? ==> name == LastName(history).value)
    }

    /** The server's events of `handle_wl_seat_message`. */
    method Handle(e: SeatEvent)
      requires Valid()
      modifies this
      ensures Valid() && history == old(history) + [e]
      ensures match e
              case Named(n) => name == n && capabilities == old(capabilities)
              case Capable(c) => capabilities == c && name == old(name)
    {
      match e {
        case Named(n) => name := n;
        case Capable(c) => capabilities := c;
      }
      assert (history + [e])[..|history|] == history;
      history := history + [e];
    }
  }

  /* ---- xdg_surface: the last ten configures ---- */

  datatype Configure = Configure(width: u32, height: u32, serial: u32, acked: bool)

  const NO_CONFIGURE := Configure(0, 0, 0, false)

  datatype XdgEvent = Configured(width: u32, height: u32, serial: u32) | Ack(serial: u32)

  /** What one event does to the slots when `n` configures came before: a configure takes slot
      `n % 10`, an acknowledgement marks the first slot with its serial. */
  function SlotStep(slots: seq<Configure>, n: nat, e: XdgEvent): (r: seq<Configure>)
    requires |slots| == 10
    ensures |r| == 10
  {
    match e
    case Configured(w, ht, serial) => slots[n % 10 := Configure(w, ht, serial, false)]
    case Ack(serial) =>
      var i := FirstSerial(slots, serial);
      if i < 10 then slots[i := slots[i].(acked := true)] else slots
  }

  /** The ten slots after a run of events. */
  function Slots(h: seq<XdgEvent>): (r: seq<Configure>)
    ensures |r| == 10
  {
    if h == [] then seq(10, _ => NO_CONFIGURE)
    else SlotStep(Slots(h[..|h| - 1]), |Configures(h[..|h| - 1])|, h[|h| - 1])
  }

  function FirstSerial(slots: seq<Configure>, serial: u32): (i: nat)
    ensures i <= |slots| && (i < |slots| ==> slots[i].serial == serial)
    ensures forall j | 0 <= j < i :: slots[j].serial != serial
  {
    if slots == [] || slots[0].serial == serial then 0 else 1 + FirstSerial(slots[1..], serial)
  }

  /** The configures of a run, in order. */
  function Configures(h: seq<XdgEvent>): seq<XdgEvent> {
    if h == [] then []
    else Configures(h[..|h| - 1]) + if h[|h| - 1].Configured? then [h[|h| - 1]] else []
  }

  /** Was `serial` acknowledged after it was last configured? */
  function AckedSince(h: seq<XdgEvent>, serial: u32): bool {
    if h == [] then false
    else if h[|h| - 1].serial != serial then AckedSince(h[..|h| - 1], serial)
    else h[|h| - 1].Ack?
  }

  ghost predicate DistinctSerials(c: seq<XdgEvent>) {
    && (forall k | 0 <= k < |c| :: c[k].Configured? && c[k].serial != 0)
    && (forall j, k | 0 <= j < k < |c| :: c[j].serial != c[k].serial)
  }

  /** The largest number below `n` congruent to `i` modulo ten, or a negative one. */
  function Newest(n: nat, i: nat): (k: int)
    requires i < 10
    ensures k < n && n - 10 <= k && (0 <= k ==> k % 10 == i)
  {
    n - 1 - (n - 1 - i) % 10
  }

  /** Slot `i` holds its newest configure, marked exactly if that was acknowledged since, or nothing yet. */
  ghost predicate Holds(h: seq<XdgEvent>, slot: Configure, i: nat)
    requires i < 10
  {
    var c := Configures(h);
    var k := Newest(|c|, i);
    if k < 0 then slot.(acked := false) == NO_CONFIGURE
    else c[k].Configured? && slot == Configure(c[k].width, c[k].height, c[k].serial, AckedSince(h, c[k].serial))
  }

  lemma NewestNext(n: nat, i: nat)
    requires i < 10
    ensures Newest(n + 1, i) == if i == n % 10 then n else Newest(n, i)
  {
    var q, m := (n - 1 - i) / 10, (n - 1 - i) % 10;
    assert n - i == 10 * q + (m + 1);
    if m == 9 {
      assert n == 10 * (q + 1) + i;
    }
  }

  /** After any run whose configures carry distinct non-zero serials, the ten slots hold the last
      ten configures, number `k` at `k % 10`, and an acknowledgement marked its own one only. */
  lemma {:induction false} SlotsHoldLastTen(h: seq<XdgEvent>, i: nat)
    requires DistinctSerials(Configures(h)) && i < 10
    ensures Holds(h, Slots(h)[i], i)
  {
    if h != [] {
      var before, e := h[..|h| - 1], h[|h| - 1];
      assert before + [e] == h && (before + [e])[..|before|] == before;
      assert Configures(before) <= Configures(h);
      SlotsHoldLastTen(before, i);
      if e.Configured? {
        ConfiguredHolds(before, e, i);
      } else {
        var j := FirstSerial(Slots(before), e.serial);
        if j < 10 {
          SlotsHoldLastTen(before, j);
        }
        AckHolds(before, e, i);
      }
    }
  }

  lemma {:induction false} ConfiguredHolds(before: seq<XdgEvent>, e: XdgEvent, i: nat)
    requires e.Configured? && DistinctSerials(Configures(before + [e])) && i < 10
    requires Holds(before, Slots(before)[i], i)
    ensures Holds(before + [e], Slots(before + [e])[i], i)
  {
    hide Slots, Newest, Configures, AckedSince;
    var h, c := before + [e], Configures(before);
    Snoc(before, e);
    SlotsAfter(before, e);
    NewestNext(|c|, i);
    var k := Newest(|c|, i);
    if i != |c| % 10 && k >= 0 {
      assert (c + [e])[k].serial != (c + [e])[|c|].serial;
    }
  }

  lemma {:induction false} Snoc(before: seq<XdgEvent>, e: XdgEvent)
    ensures Configures(before + [e]) == if e.Configured? then Configures(before) + [e] else Configures(before)
    ensures forall serial ::
              AckedSince(before + [e], serial) == if e.serial == serial then e.Ack? else AckedSince(before, serial)
  {
  }

  lemma {:induction false} AckHolds(before: seq<XdgEvent>, e: XdgEvent, i: nat)
    requires e.Ack? && DistinctSerials(Configures(before)) && i < 10
    requires Holds(before, Slots(before)[i], i)
    requires var j := FirstSerial(Slots(before), e.serial); j < 10 ==> Holds(before, Slots(before)[j], j)
    ensures Holds(before + [e], Slots(before + [e])[i], i)
  {
    hide Slots, Newest, Configures, AckedSince;
    var c := Configures(before);
    Snoc(before, e);
    SlotsAfter(before, e);
    OneSlot(c, Slots(before), before, i, FirstSerial(Slots(before), e.serial), e.serial);
  }

  lemma {:induction false} SlotsAfter(before: seq<XdgEvent>, e: XdgEvent)
    ensures Slots(before + [e]) == SlotStep(Slots(before), |Configures(before)|, e)
  {
  }

  /** The slot an acknowledgement finds is the only one with a configure of that serial. */
  lemma {:induction false} OneSlot(c: seq<XdgEvent>, slots: seq<Configure>, before: seq<XdgEvent>,
                                   i: nat, j: nat, serial: u32)
    requires c == Configures(before) && DistinctSerials(c) && |slots| == 10 && i < 10
    requires j == FirstSerial(slots, serial)
    requires Holds(before, slots[i], i) && (j < 10 ==> Holds(before, slots[j], j))
    ensures Newest(|c|, i) >= 0 && slots[i].serial == serial ==> i == j
  {
  }

  /** `struct wldbg_xdg_surface_info`, its ring of configures. */
  class XdgInfo {
    const configures: array<Configure>
    var configuresNum: nat
    ghost var history: seq<XdgEvent>
    ghost const owner: u32

    constructor (ghost owner: u32)
      ensures this.owner == owner
      ensures Valid() && history == [] && fresh(configures)
    {
      configures := new Configure[10](_ => NO_CONFIGURE);
      configuresNum, history := 0, [];
      this.owner := owner;
    }

    ghost predicate Valid()
      reads this, configures
    {
      configures.Length == 10 && configures[..] == Slots(history) && configuresNum == |Configures(history)|
    }

    /** The `configure` event. */
    method Configured(width: u32, height: u32, serial: u32)
      requires Valid()
      modifies this, configures
      ensures Valid() && history == old(history) + [XdgEvent.Configured(width, height, serial)]
      ensures configuresNum == old(configuresNum) + 1
      ensures configures[..] == old(configures[..])[old(configuresNum) % 10 := Configure(width, height, serial, false)]
    {
      var idx := configuresNum % 10;
      configures[idx] := Configure(width, height, serial, false);
      configuresNum := configuresNum + 1;
      ghost var e := XdgEvent.Configured(width, height, serial);
      assert (history + [e])[..|history|] == history;
      history := history + [e];
    }

    /** Either kind of event. */
    method Handle(e: XdgEvent)
      requires Valid()
      modifies this, configures
      ensures Valid() && history == old(history) + [e]
    {
      match e
      case Configured(width, height, serial) => Configured(width, height, serial);
      case Ack(serial) => AckConfigure(serial);
    }

    /** The `ack_configure` request. */
    method AckConfigure(serial: u32)
      requires Valid()
      modifies this`history, configures
      ensures Valid() && history == old(history) + [Ack(serial)]
      ensures forall j | 0 <= j < 10 ::
                var was := old(configures[j]);
                var first := forall i | 0 <= i < j :: old(configures[i]).serial != serial;
                configures[j] == if was.serial == serial && first then was.(acked := true) else was
    {
      ghost var slots := configures[..];
      assert (history + [Ack(serial)])[..|history|] == history;
      var idx := 0;
      while idx < 10
        invariant idx <= 10 && configures[..] == slots
        invariant forall j | 0 <= j < idx :: slots[j].serial != serial
        decreases 10 - idx
      {
        if configures[idx].serial == serial {
          configures[idx] := configures[idx].(acked := true);
          break;
        }
        idx := idx + 1;
      }
      FirstIs(slots, serial, idx);
      history := history + [Ack(serial)];
    }
  }

  lemma {:induction false} FirstIs(slots: seq<Configure>, serial: u32, i: nat)
    requires i <= |slots| && (i < |slots| ==> slots[i].serial == serial)
    requires forall j | 0 <= j < i :: slots[j].serial != serial
    ensures FirstSerial(slots, serial) == i
  {
  }
}
