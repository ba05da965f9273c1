/** Whole runs of the object infos: from an empty registry, through the messages that create,
    change and destroy infos, to the registry's own end. */
module RegistryRuns {
  import opened Bytes
  import opened IdsMaps
  import opened ObjInfos
  import opened Registry

  /** A message one of the handlers acts on. */
  datatype Event =
    | CreateBuffer(id: u32, offset: int, width: int, height: int, stride: int, format: u32)
    | CreateSurface(id: u32)
    | CreateXdg(id: u32)
    | BindSeat(id: u32)
    | Release(id: u32)
    | Request(id: u32, request: SurfaceEvent)
    | Xdg(id: u32, event: XdgEvent)
    | Seat(id: u32, said: SeatEvent)
    | Destroy(id: u32)

  predicate Creates(e: Event) { e.CreateBuffer? || e.CreateSurface? || e.CreateXdg? || e.BindSeat? }

  /** The life of a new object. */
  function Born(e: Event): Life
    requires Creates(e)
  {
    match e
    case CreateBuffer(_, offset, width, height, stride, format) =>
      BufferLife(offset, width, height, stride, format, [])
    case CreateSurface(_) => SurfaceLife([])
    case CreateXdg(_) => XdgLife([])
    case BindSeat(_) => SeatLife([])
  }

  /** What `e` does to the life `l` of object `j`; `known` says whether the object of `e` is. */
  function Next(e: Event, j: u32, l: Option<Life>, known: bool): Option<Life> {
    if e.id == j then
      if Creates(e) then Some(Born(e))
      else match e
           case Release(_) => Marked(l, Released)
           case Request(_, r) => Requested(l, r)
           case Xdg(_, x) => Told(l, x)
           case Seat(_, x) => Said(l, x)
           case _ => None
    else if e.Request? && e.request.Attach? && e.request.bufferId == j && known then Marked(l, Attached)
    else l
  }

  /** The life of an object after a run; `None` if it is not alive. */
  function LifeOf(run: seq<Event>, id: u32): Option<Life> {
    if run == [] then None
    else
      var before, e := run[..|run| - 1], run[|run| - 1];
      Next(e, id, LifeOf(before, id), LifeOf(before, e.id).Some?)
  }

  lemma {:induction false} LifeSnoc(run: seq<Event>, e: Event, id: u32)
    ensures LifeOf(run + [e], id) == Next(e, id, LifeOf(run, id), LifeOf(run, e.id).Some?)
  {
    assert (run + [e])[..|run|] == run;
  }

  /* ---- lives, told without following the run step by step ---- */

  /** The requests to a surface, the events of an xdg surface and of a seat, and the attaches and
      releases of a buffer, from event `from` of the run on. Attaching to an unknown surface goes unnoticed. */
  function RequestsTo(run: seq<Event>, from: nat, id: u32): seq<SurfaceEvent> {
    if |run| <= from then []
    else RequestsTo(run[..|run| - 1], from, id) +
         var e := run[|run| - 1]; if e.Request? && e.id == id then [e.request] else []
  }

  function EventsOf(run: seq<Event>, from: nat, id: u32): seq<XdgEvent> {
    if |run| <= from then []
    else EventsOf(run[..|run| - 1], from, id) +
         var e := run[|run| - 1]; if e.Xdg? && e.id == id then [e.event] else []
  }

  function SaidBy(run: seq<Event>, from: nat, id: u32): seq<SeatEvent> {
    if |run| <= from then []
    else SaidBy(run[..|run| - 1], from, id) +
         var e := run[|run| - 1]; if e.Seat? && e.id == id then [e.said] else []
  }

  function MarksOn(run: seq<Event>, from: nat, id: u32): seq<BufferEvent> {
    if |run| <= from then []
    else MarksOn(run[..|run| - 1], from, id) +
         var before, e := run[..|run| - 1], run[|run| - 1];
         if e.Release? && e.id == id then [Released]
         else if e.Request? && e.id != id && e.request.Attach? && e.request.bufferId == id && LifeOf(before, e.id).Some?
         then [Attached] else []
  }

  /** Neither created nor destroyed from event `from` on. */
  ghost predicate Undisturbed(run: seq<Event>, from: nat, id: u32) {
    forall k | from <= k < |run| && run[k].id == id :: !Creates(run[k]) && !run[k].Destroy?
  }

  /** An object's life is its own events since it was last created. */
  lemma {:induction false} LifeSinceCreation(run: seq<Event>, from: nat, id: u32)
    requires 0 < from <= |run| && Creates(run[from - 1]) && run[from - 1].id == id && Undisturbed(run, from, id)
    ensures var e := run[from - 1];
            LifeOf(run, id) ==
            Some(if e.CreateBuffer?
                 then BufferLife(e.offset, e.width, e.height, e.stride, e.format, MarksOn(run, from, id))
                 else if e.CreateSurface? then SurfaceLife(RequestsTo(run, from, id))
                 else if e.CreateXdg? then XdgLife(EventsOf(run, from, id))
                 else SeatLife(SaidBy(run, from, id)))
  {
    if from < |run| {
      var before := run[..|run| - 1];
      LifeSinceCreation(before, from, id);
      assert MarksOn(before, from, id) + [] == MarksOn(before, from, id);
      assert RequestsTo(before, from, id) + [] == RequestsTo(before, from, id);
      assert EventsOf(before, from, id) + [] == EventsOf(before, from, id);
      assert SaidBy(before, from, id) + [] == SaidBy(before, from, id);
    }
  }

  /** Event `l` attaches buffer `id` to a surface that is alive. */
  ghost predicate Attaches(run: seq<Event>, l: nat, id: u32)
    requires l < |run|
  {
    var e := run[l];
    e.Request? && e.id != id && e.request.Attach? && e.request.bufferId == id && LifeOf(run[..l], e.id).Some?
  }

  /** The last mark is a release exactly if some event released the buffer and none attached it since. */
  lemma {:induction false} LastMark(run: seq<Event>, from: nat, id: u32)
    ensures var marks := MarksOn(run, from, id);
            marks != [] && marks[|marks| - 1] == Released <==>
            exists k | from <= k < |run| :: run[k] == Release(id) && forall l | k < l < |run| :: !Attaches(run, l, id)
  {
    hide LifeOf;
    if from < |run| {
      var n := |run| - 1;
      var before := run[..n];
      LastMark(before, from, id);
      assert forall l | 0 <= l < n :: before[..l] == run[..l] && before[l] == run[l];
      assert forall l | 0 <= l < n :: Attaches(before, l, id) <==> Attaches(run, l, id);
      if exists k | from <= k < n :: before[k] == Release(id) && forall l | k < l < n :: !Attaches(before, l, id) {
        var k :| from <= k < n && before[k] == Release(id) && forall l | k < l < n :: !Attaches(before, l, id);
        assert run[k] == Release(id);
        assert !Attaches(run, n, id) ==> forall l | k < l < |run| :: !Attaches(run, l, id);
      }
    }
  }

  /** There is none before the first creation and after a destruction. */
  lemma {:induction false} NoLife(run: seq<Event>, from: nat, id: u32)
    requires from <= |run| && (from == 0 || run[from - 1] == Destroy(id))
    requires forall k | from <= k < |run| && run[k].id == id :: !Creates(run[k])
    ensures LifeOf(run, id) == None
  {
    if from < |run| {
      NoLife(run[..|run| - 1], from, id);
    }
  }

  /* ---- well-typed runs ---- */

  datatype Kind = BufferKind | SurfaceKind | XdgKind | SeatKind

  /** The kinds of the objects alive after a run, told from creations and destructions alone. */
  function Kinds(run: seq<Event>): map<u32, Kind> {
    if run == [] then map[]
    else
      var kinds, e := Kinds(run[..|run| - 1]), run[|run| - 1];
      match e
      case CreateBuffer(id, _, _, _, _, _) => kinds[id := BufferKind]
      case CreateSurface(id) => kinds[id := SurfaceKind]
      case CreateXdg(id) => kinds[id := XdgKind]
      case BindSeat(id) => kinds[id := SeatKind]
      case Destroy(id) => kinds - {id}
      case _ => kinds
  }

  predicate IsKind(kinds: map<u32, Kind>, id: u32, kind: Kind) { id in kinds ==> kinds[id] == kind }

  /** A message goes to an object of the kind it is for, if to any; no message destroys a seat. */
  predicate WellAimed(kinds: map<u32, Kind>, e: Event) {
    match e
    case Release(id) => IsKind(kinds, id, BufferKind)
    case Request(id, r) =>
      IsKind(kinds, id, SurfaceKind) && (id in kinds && r.Attach? ==> IsKind(kinds, r.bufferId, BufferKind))
    case Xdg(id, _) => IsKind(kinds, id, XdgKind)
    case Seat(id, _) => IsKind(kinds, id, SeatKind)
    case Destroy(id) => id in kinds ==> kinds[id] != SeatKind
    case _ => true
  }

  ghost predicate WellTyped(run: seq<Event>) {
    forall k | 0 <= k < |run| :: WellAimed(Kinds(run[..k]), run[k])
  }

  function KindOf(l: Life): Kind {
    if l.BufferLife? then BufferKind else if l.SurfaceLife? then SurfaceKind
    else if l.XdgLife? then XdgKind else SeatKind
  }

  /** The kinds are those of the lives. */
  lemma {:induction false} KindsOfLives(run: seq<Event>, id: u32)
    ensures id in Kinds(run) <==> LifeOf(run, id).Some?
    ensures id in Kinds(run) ==> Kinds(run)[id] == KindOf(LifeOf(run, id).value)
  {
    if run != [] {
      KindsOfLives(run[..|run| - 1], id);
    }
  }

  /** No object is created under the id of one that is alive. */
  ghost predicate NoCollision(run: seq<Event>) {
    forall k | 0 <= k < |run| && Creates(run[k]) :: run[k].id !in Kinds(run[..k])
  }

  function Collisions(run: seq<Event>): nat {
    if run == [] then 0
    else
      var before, e := run[..|run| - 1], run[|run| - 1];
      Collisions(before) + if Creates(e) && e.id in Kinds(before) then 1 else 0
  }

  lemma {:induction false} CollisionsNone(run: seq<Event>)
    ensures NoCollision(run) <==> Collisions(run) == 0
  {
    if run == [] {
    } else {
      var before, e := run[..|run| - 1], run[|run| - 1];
      assert run == before + [e];
      CollisionsNone(before);
      KindsOfLives(before, e.id);
      NoCollisionSnoc(before, e);
    }
  }

  /** The ids of the objects created, in order. */
  function CreatedIds(run: seq<Event>): seq<u32> {
    if run == [] then []
    else CreatedIds(run[..|run| - 1]) + if Creates(run[|run| - 1]) then [run[|run| - 1].id] else []
  }

  function IdsOf(infos: seq<ObjectInfo>): seq<u32> {
    seq(|infos|, i requires 0 <= i < |infos| => infos[i].id)
  }

  /** What one message adds to the counts. */
  lemma {:induction false} CountsSnoc(run: seq<Event>, e: Event)
    ensures CreatedIds(run + [e]) == CreatedIds(run) + if Creates(e) then [e.id] else []
    ensures var known := LifeOf(run, e.id).Some?;
            && Collisions(run + [e]) == Collisions(run) + (if Creates(e) && known then 1 else 0)
            && |Kinds(run + [e])| == |Kinds(run)| + (if Creates(e) && !known then 1 else 0)
                                                  - (if e.Destroy? && known then 1 else 0)
  {
    hide LifeOf;
    KindsOfLives(run, e.id);
    assert (run + [e])[..|run|] == run;
    var kinds := Kinds(run);
    if e.Destroy? {
      assert (kinds - {e.id}).Keys == kinds.Keys - {e.id};
    } else if Creates(e) {
      assert Kinds(run + [e]).Keys == kinds.Keys + {e.id};
    }
  }

  lemma {:induction false} DistinctCount(ids: seq<u32>, s: set<u32>)
    requires forall j, k | 0 <= j < k < |ids| :: ids[j] != ids[k]
    requires forall id :: id in ids <==> id in s
    ensures |ids| == |s|
  {
    if ids == [] {
      assert s == {};
    } else {
      var last := ids[|ids| - 1];
      assert last in s;
      DistinctCount(ids[..|ids| - 1], s - {last});
    }
  }

  /** A sweep frees as many infos as objects are alive. */
  lemma SweptCount(oi: ObjectsInfo, swept: seq<ObjectInfo>, kinds: map<u32, Kind>)
    requires oi.table.Valid() && forall j, k | 0 <= j < k < |swept| :: swept[j] != swept[k]
    requires forall o | o in swept :: oi.Slot(o.id) == o
    requires forall id: u32 | oi.Slot(id) != null :: oi.Slot(id) in swept && oi.Slot(id).id == id
    requires forall id: u32 :: id in kinds <==> oi.Slot(id) != null
    ensures |swept| == |kinds|
  {
    hide IdTable.Valid, ObjectsInfo.Slot;
    var ids := IdsOf(swept);
    forall j, k | 0 <= j < k < |ids|
      ensures ids[j] != ids[k]
    {
      assert swept[j] in swept && swept[k] in swept;
    }
    forall id: u32
      ensures id in ids <==> id in kinds.Keys
    {
      if id in ids {
        var k :| 0 <= k < |ids| && ids[k] == id;
        assert swept[k] in swept;
      }
      if id in kinds {
        var o := oi.Slot(id);
        var k :| 0 <= k < |swept| && swept[k] == o;
        assert ids[k] == id;
      }
    }
    DistinctCount(ids, kinds.Keys);
  }

  lemma {:induction false} NoCollisionSnoc(run: seq<Event>, e: Event)
    ensures NoCollision(run + [e]) <==> NoCollision(run) && (Creates(e) ==> LifeOf(run, e.id).None?)
  {
    hide Kinds, LifeOf;
    var all := run + [e];
    KindsOfLives(run, e.id);
    assert all[..|run|] == run && all[|run|] == e;
    forall k | 0 <= k < |run|
      ensures all[k] == run[k] && all[..k] == run[..k]
    {
    }
  }

  /** What is alive suits the message. */
  ghost predicate Suits(oi: ObjectsInfo, e: Event)
    requires oi.table.Valid()
    reads *
  {
    match e
    case Release(id) => oi.Slot(id) != null ==> oi.Slot(id).info.OfBuffer?
    case Request(id, r) =>
      oi.Slot(id) != null ==>
        && oi.Slot(id).info.OfSurface?
        && (r.Attach? && oi.Slot(r.bufferId) != null ==> oi.Slot(r.bufferId).info.OfBuffer?)
    case Xdg(id, _) => oi.Slot(id) != null ==> oi.Slot(id).info.OfXdg?
    case Seat(id, _) => oi.Slot(id) != null ==> oi.Slot(id).info.OfSeat?
    case _ => true
  }

  lemma SuitsAt(oi: ObjectsInfo, events: seq<Event>, n: nat)
    requires oi.table.Valid() && WellTyped(events) && n < |events|
    requires forall id: u32 :: oi.Tracks(id) == LifeOf(events[..n], id)
    ensures Suits(oi, events[n])
  {
    hide LifeOf, Kinds, IdTable.Valid, ObjectsInfo.Slot;
    var run, e := events[..n], events[n];
    assert WellAimed(Kinds(run), e);
    KindsOfLives(run, e.id);
    SlotKind(oi, e.id);
    if e.Request? && e.request.Attach? {
      KindsOfLives(run, e.request.bufferId);
      SlotKind(oi, e.request.bufferId);
    }
  }

  lemma SlotKind(oi: ObjectsInfo, id: u32)
    requires oi.table.Valid()
    ensures oi.Tracks(id).Some? <==> oi.Slot(id) != null
    ensures oi.Slot(id) != null ==>
              var info, kind := oi.Slot(id).info, KindOf(oi.Tracks(id).value);
              && (info.OfBuffer? <==> kind == BufferKind) && (info.OfSurface? <==> kind == SurfaceKind)
              && (info.OfXdg? <==> kind == XdgKind) && (info.OfSeat? <==> kind == SeatKind)
  {
    hide IdTable.Valid, ObjectsInfo.Slot;
  }

  /** The handler of one message. */
  method Handle(oi: ObjectsInfo, e: Event)
    requires oi.Valid() && Suits(oi, e)
    modifies oi`put, oi`freed, oi`owned, oi.table.Repr(), oi.owned
    ensures oi.Valid() && fresh(oi.table.Repr() - old(oi.table.Repr())) && fresh(oi.owned - old(oi.owned))
    ensures forall j: u32 :: oi.Tracks(j) == Next(e, j, old(oi.Tracks(j)), old(oi.Tracks(e.id)).Some?)
    ensures oi.Accounted() <==> old(oi.Accounted()) && (Creates(e) ==> old(oi.Tracks(e.id)) == None)
    ensures Creates(e) ==>
              oi.Slot(e.id) != null && oi.Slot(e.id).id == e.id && oi.put == old(oi.put) + [oi.Slot(e.id)]
    ensures !Creates(e) ==> oi.put == old(oi.put)
    ensures oi.freed == old(oi.freed) + if e.Destroy? && old(oi.Slot(e.id)) != null then [old(oi.Slot(e.id))] else []
  {
    hide ObjectsInfo.Infos, ObjectsInfo.Accounted, ObjectsInfo.Slot, Sound, Footprint, Lived;
    hide IdTable.Valid, IdTable.Look;
    oi.BehindOwned(e.id);
    if e.Request? && e.request.Attach? {
      oi.BehindOwned(e.request.bufferId);
    }
    match e
    case CreateBuffer(id, offset, width, height, stride, format) =>
      oi.CreateBuffer(id, offset, width, height, stride, format);
    case CreateSurface(id) => oi.CreateSurface(id);
    case CreateXdg(id) => oi.CreateXdg(id);
    case BindSeat(id) => oi.CreateSeat(id);
    case Release(id) =>
      oi.MarkBuffer(id, Released);
      oi.StillAccounted();
    case Request(id, r) =>
      oi.SurfaceRequest(id, r);
      oi.StillAccounted();
    case Xdg(id, x) =>
      oi.XdgRequest(id, x);
      oi.StillAccounted();
    case Seat(id, x) =>
      oi.SeatSays(id, x);
      oi.StillAccounted();
    case Destroy(id) => oi.DestroyObject(id);
  }

  /** What the infos say after a run: a buffer has the fields it was created with, and is released as the
      last mark says; a surface, an xdg surface and a seat show what their own events since their
      creation come to. */
  lemma {:induction false} SlotShows(oi: ObjectsInfo, run: seq<Event>, from: nat, id: u32)
    requires oi.Valid() && oi.Tracks(id) == LifeOf(run, id)
    requires 0 < from <= |run| && Creates(run[from - 1]) && run[from - 1].id == id && Undisturbed(run, from, id)
    ensures oi.Slot(id) != null
    ensures var e, info := run[from - 1], oi.Slot(id).info;
            if e.CreateBuffer?
            then && info.OfBuffer? && IsFilled(info.b, e.offset, e.width, e.height, e.stride, e.format)
                 && (info.b.released <==> var marks := MarksOn(run, from, id);
                                          marks != [] && marks[|marks| - 1] == Released)
            else if e.CreateSurface?
            then var h := RequestsTo(run, from, id);
                 && info.OfSurface? && info.s.state == Folded(Since(h))
                 && if LastCommit(h) == None then info.s.commited == null
                    else info.s.commited != null && info.s.commited.state == Folded(LastCommit(h).value)
            else if e.CreateXdg? then info.OfXdg? && info.x.configures[..] == Slots(EventsOf(run, from, id))
            else info.OfSeat? && info.t.capabilities == LastCapabilities(SaidBy(run, from, id))
  {
    hide LifeOf, MarksOn, RequestsTo, EventsOf, SaidBy, Folded, Since, LastCommit, Slots, LastCapabilities, Undisturbed;
    LifeSinceCreation(run, from, id);
    SlotKind(oi, id);
  }

  lemma NewRegistry(oi: ObjectsInfo)
    requires oi.table.Valid() && oi.put == [] && forall id: u32 :: oi.Slot(id) == null
    ensures forall id: u32 :: oi.Tracks(id) == LifeOf([], id)
    ensures oi.Accounted() && NoCollision([])
    ensures IdsOf(oi.put) == CreatedIds([]) && |Kinds([])| == Collisions([]) == 0
  {
  }

  /** Over any well-typed run from an empty registry: each slot tells the life of its object; the infos
      put are those of the objects created, in order; and every one of them is in exactly one of the
      slots and the freed ones, exactly if no object was created under the id of one that was alive. */
  method RunAll(events: seq<Event>) returns (oi: ObjectsInfo)
    requires WellTyped(events)
    ensures fresh(oi) && oi.Valid()
    ensures forall id: u32 :: oi.Tracks(id) == LifeOf(events, id)
    ensures IdsOf(oi.put) == CreatedIds(events)
    ensures oi.Accounted() <==> NoCollision(events)
    ensures |oi.put| == |oi.freed| + |Kinds(events)| + Collisions(events)
  {
    hide ObjectsInfo.Infos, ObjectsInfo.Accounted, ObjectsInfo.Slot, Sound, Footprint, Lived;
    hide IdTable.Valid, IdTable.Look, LifeOf, Next, Kinds, WellAimed, WellTyped, NoCollision, Suits;
    hide Collisions, CreatedIds;
    oi := new ObjectsInfo();
    NewRegistry(oi);
    for n := 0 to |events|
      invariant fresh(oi) && fresh(oi.table.Repr()) && fresh(oi.owned) && oi.Valid()
      invariant forall id: u32 :: oi.Tracks(id) == LifeOf(events[..n], id)
      invariant IdsOf(oi.put) == CreatedIds(events[..n])
      invariant oi.Accounted() <==> NoCollision(events[..n])
      invariant |oi.put| == |oi.freed| + |Kinds(events[..n])| + Collisions(events[..n])
    {
      ghost var run := events[..n];
      var e := events[n];
      assert events[..n + 1] == run + [e];
      SuitsAt(oi, events, n);
      NoCollisionSnoc(run, e);
      CountsSnoc(run, e);
      Handle(oi, e);
      forall id: u32
        ensures oi.Tracks(id) == LifeOf(run + [e], id)
      {
        LifeSnoc(run, e, id);
      }
    }
    assert events[..|events|] == events;
  }

  /** To the end: the infos put are those of the objects created; `destroy_objects_info` leaves as many
      of them unfreed as objects were created under the id of one that was alive, and so none exactly
      if there was none; and none is freed twice. */
  method Session(events: seq<Event>) returns (oi: ObjectsInfo)
    requires WellTyped(events)
    ensures IdsOf(oi.put) == CreatedIds(events)
    ensures |oi.put| - |oi.freed| == Collisions(events)
    ensures (forall o | o in oi.put :: o in oi.freed) <==> NoCollision(events)
    ensures forall j, k | 0 <= j < k < |oi.freed| :: oi.freed[j] != oi.freed[k]
  {
    hide ObjectsInfo.Infos, ObjectsInfo.Accounted, ObjectsInfo.Slot, IdTable.Valid, WellTyped, NoCollision;
    hide LifeOf, Kinds, Collisions, CreatedIds;
    oi := RunAll(events);
    forall id: u32
      ensures id in Kinds(events) <==> oi.Slot(id) != null
      ensures oi.Slot(id) != null ==> oi.Slot(id).id == id
    {
      KindsOfLives(events, id);
      SlotKind(oi, id);
    }
    ghost var before := |oi.freed|;
    oi.DestroyAll();
    SweptCount(oi, oi.freed[before..], Kinds(events));
  }
}
