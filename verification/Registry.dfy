/** The id-keyed registry of object infos (`src/objinfo/objinfo-private.c`, `src/objinfo/objinfo.c`)
    and the handlers that fill it. */
module Registry {
  import opened Bytes
  import opened IdsMaps
  import opened ObjInfos

  /** The info behind an object, by its interface. */
  datatype Info = OfBuffer(b: BufferInfo) | OfSurface(s: SurfaceInfo) | OfXdg(x: XdgInfo) | OfSeat(t: SeatInfo)

  /** `struct wldbg_object_info`; its id is set once, before it is put anywhere. */
  class ObjectInfo {
    const id: u32
    const info: Info

    constructor (id: u32, info: Info)
      ensures this.id == id && this.info == info
    {
      this.id, this.info := id, info;
    }
  }

  /** What an object has been through since it was created. */
  datatype Life =
    | BufferLife(offset: int, width: int, height: int, stride: int, format: u32, marks: seq<BufferEvent>)
    | SurfaceLife(requests: seq<SurfaceEvent>)
    | XdgLife(events: seq<XdgEvent>)
    | SeatLife(said: seq<SeatEvent>)

  function Marked(l: Option<Life>, e: BufferEvent): Option<Life> {
    if l.Some? && l.value.BufferLife? then Some(l.value.(marks := l.value.marks + [e])) else l
  }

  function Requested(l: Option<Life>, e: SurfaceEvent): Option<Life> {
    if l.Some? && l.value.SurfaceLife? then Some(SurfaceLife(l.value.requests + [e])) else l
  }

  function Told(l: Option<Life>, e: XdgEvent): Option<Life> {
    if l.Some? && l.value.XdgLife? then Some(XdgLife(l.value.events + [e])) else l
  }

  function Said(l: Option<Life>, e: SeatEvent): Option<Life> {
    if l.Some? && l.value.SeatLife? then Some(SeatLife(l.value.said + [e])) else l
  }

  /** The objects an info consists of. */
  ghost function Footprint(info: Info): set<object>
    reads if info.OfSurface? then {info.s} else {}
  {
    match info
    case OfBuffer(b) => {b}
    case OfSurface(s) => if s.commited == null then {s} else {s, s.commited}
    case OfXdg(x) => {x, x.configures}
    case OfSeat(t) => {t}
  }

  /** Infos and tables are different kinds of objects. */
  lemma FootprintApart(info: Info, t: IdTable<ObjectInfo?>, r: ObjectsInfo)
    ensures r !in Footprint(info) && forall o: object | o in t.Repr() :: o !in Footprint(info)
  {
  }

  /** The life an info has recorded. */
  ghost function Lived(info: Info): Life
    reads Footprint(info)
  {
    match info
    case OfBuffer(b) => BufferLife(b.offset, b.width, b.height, b.stride, b.format, b.history)
    case OfSurface(s) => SurfaceLife(s.history)
    case OfXdg(x) => XdgLife(x.history)
    case OfSeat(t) => SeatLife(t.history)
  }

  /** The info is in order and belongs to object `id`. */
  ghost predicate Sound(info: Info, id: u32)
    reads Footprint(info)
  {
    match info
    case OfBuffer(b) => b.Valid() && b.owner == id
    case OfSurface(s) => s.Valid() && s.owner == id
    case OfXdg(x) => x.Valid() && x.owner == id
    case OfSeat(t) => t.Valid() && t.owner == id
  }

  lemma FootprintAllocated(o: ObjectInfo)
    ensures allocated(Footprint(o.info))
  {
  }

  /** No two objects have the same ring of configures; other infos differ by their owners. */
  ghost predicate Unshared(a: Info, b: Info) {
    a.OfXdg? && b.OfXdg? ==> a.x.configures != b.x.configures
  }

  /** Infos of different objects have nothing in common. */
  lemma SoundApart(a: Info, i: u32, b: Info, j: u32)
    requires Sound(a, i) && Sound(b, j) && i != j && Unshared(a, b)
    ensures Footprint(a) !! Footprint(b)
  {
  }

  /** The info of `o`, belonging to object `id`, is what it was. */
  twostate predicate Unnoticed(o: ObjectInfo, id: u32)
    reads Footprint(o.info)
  {
    && Footprint(o.info) == old(Footprint(o.info)) && Lived(o.info) == old(Lived(o.info))
    && (Sound(o.info, id) <==> old(Sound(o.info, id)))
  }

  /** `create_wl_buffer_info` and the fields of the request. */
  method NewBuffer(id: u32, offset: int, width: int, height: int, stride: int, format: u32) returns (o: ObjectInfo)
    ensures New(o, id, BufferLife(offset, width, height, stride, format, []))
    ensures o.info.OfBuffer? && !o.info.b.released && IsFilled(o.info.b, offset, width, height, stride, format)
  {
    var b := new BufferInfo(id);
    b.Fill(offset, width, height, stride, format);
    o := new ObjectInfo(id, OfBuffer(b));
  }

  /** The buffer's fields are these. */
  ghost predicate IsFilled(b: BufferInfo, offset: int, width: int, height: int, stride: int, format: u32)
    reads b
  {
    b.offset == offset && b.width == width && b.height == height && b.stride == stride && b.format == format
  }

  /** `create_wl_surface_info`. */
  method NewSurface(id: u32) returns (o: ObjectInfo)
    ensures New(o, id, SurfaceLife([])) && o.info.OfSurface?
  {
    var s := new SurfaceInfo(id);
    o := new ObjectInfo(id, OfSurface(s));
  }

  /** `create_xdg_surface_info`. */
  method NewXdg(id: u32) returns (o: ObjectInfo)
    ensures New(o, id, XdgLife([])) && o.info.OfXdg?
  {
    var x := new XdgInfo(id);
    o := new ObjectInfo(id, OfXdg(x));
  }

  /** `create_wl_seat_info`. */
  method NewSeat(id: u32) returns (o: ObjectInfo)
    ensures New(o, id, SeatLife([])) && o.info.OfSeat?
  {
    var t := new SeatInfo(id);
    o := new ObjectInfo(id, OfSeat(t));
  }

  twostate predicate New(new o: ObjectInfo, id: u32, life: Life)
    reads Footprint(o.info)
  {
    fresh(o) && fresh(Footprint(o.info)) && o.id == id && Sound(o.info, id) && Lived(o.info) == life
  }

  class ObjectsInfo {
    const table: IdTable<ObjectInfo?>
    /** Every info put so far and every info freed so far, in order. */
    ghost var put: seq<ObjectInfo>
    ghost var freed: seq<ObjectInfo>
    /** All objects that infos in slots consist of are among these. */
    ghost var owned: set<object>

    constructor ()
      ensures Valid() && put == freed == [] && owned == {} && fresh(table.Repr())
      ensures forall id: u32 :: Slot(id) == null
    {
      table := new IdTable<ObjectInfo?>(null);
      put, freed, owned := [], [], {};
    }

    /** Every slot's info was put, carries the slot's id and is alive; nothing was freed twice. */
    ghost predicate Coherent()
      reads this, table.Repr()
    {
      && table.Valid() && this !in table.Repr() && table.none == null
      && (forall id: u32 :: Slot(id) != null ==> Slot(id).id == id && Slot(id) !in freed && Slot(id) in put)
      && (forall o | o in freed :: o in put)
      && (forall j, k | 0 <= j < k < |freed| :: freed[j] != freed[k])
    }

    /** What the infos in the slots hold is in order, and none is shared. */
    ghost predicate Infos()
      requires table.Valid()
      reads *
    {
      && (forall id: u32 :: Slot(id) != null ==> Sound(Slot(id).info, id) && Footprint(Slot(id).info) <= owned)
      && (forall i: u32, j: u32 | i != j && Slot(i) != null && Slot(j) != null :: Unshared(Slot(i).info, Slot(j).info))
    }

    ghost predicate Valid()
      reads *
    {
      Coherent() && Infos()
    }

    ghost function Slot(id: u32): ObjectInfo?
      requires table.Valid()
      reads table, table.Repr()
    {
      table.Look(id)
    }

    /** Every info ever put is either in its slot or freed, and not both. */
    ghost predicate Accounted()
      requires table.Valid()
      reads this, table.Repr()
    {
      forall o | o in put :: Slot(o.id) == o <==> o !in freed
    }

    /** What the info in a slot tells about its object. */
    ghost function Tracks(id: u32): Option<Life>
      requires table.Valid()
      reads *
    {
      if Slot(id) == null then None else Some(Lived(Slot(id).info))
    }

    /** The objects behind a slot. */
    ghost function Behind(id: u32): set<object>
      requires table.Valid()
      reads table, table.Repr(), if Slot(id) != null && Slot(id).info.OfSurface? then {Slot(id).info.s} else {}
    {
      if Slot(id) == null then {} else Footprint(Slot(id).info)
    }

    /** A put loses track of an info exactly if one was in the slot. */
    twostate lemma PutAccounts(o: ObjectInfo)
      requires old(Coherent()) && table.Valid() && o !in old(put) && put == old(put) + [o] && freed == old(freed)
      requires forall id: u32 :: Slot(id) == if id == o.id then o else old(Slot(id))
      ensures Accounted() <==> old(Accounted()) && old(Slot(o.id)) == null
    {
      hide IdTable.Valid, Slot;
      var was := old(Slot(o.id));
      if was != null {
        assert was in put && Slot(was.id) != was && was !in freed;
      } else if !old(Accounted()) {
        var w :| w in old(put) && !(old(Slot(w.id)) == w <==> w !in old(freed));
        assert w in put && w != o;
      }
    }

    /** A free keeps the account. */
    twostate lemma FreeAccounts(o: ObjectInfo)
      requires old(Coherent()) && table.Valid() && old(Slot(o.id)) == o && put == old(put) && freed == old(freed) + [o]
      requires forall id: u32 :: Slot(id) == if id == o.id then null else old(Slot(id))
      ensures Accounted() <==> old(Accounted())
    {
      hide IdTable.Valid, Slot;
      assert o in put;
    }

    /** `objects_info_put`, with its account: no info notices. */
    method SetSlot(id: u32, o: ObjectInfo?, ghost put': seq<ObjectInfo>, ghost freed': seq<ObjectInfo>,
                   ghost owned': set<object>)
      requires table.Valid() && this !in table.Repr()
      modifies this`put, this`freed, this`owned, table.Repr()
      ensures table.Valid() && this !in table.Repr() && fresh(table.Repr() - old(table.Repr()))
      ensures put == put' && freed == freed' && owned == owned'
      ensures forall j: u32 :: Slot(j) == if j == id then o else old(Slot(j))
      ensures forall j: u32 | old(Slot(j)) != null :: Unnoticed(old(Slot(j)), j)
      ensures o != null ==> Unnoticed(o, id)
    {
      hide Footprint, Lived, Sound, IdTable.Valid, IdTable.Look;
      forall j: u32 | Slot(j) != null
        ensures Footprint(Slot(j).info) !! table.Repr() + {this} && allocated(Footprint(Slot(j).info))
      {
        FootprintApart(Slot(j).info, table, this);
        FootprintAllocated(Slot(j));
      }
      if o != null {
        FootprintApart(o.info, table, this);
        FootprintAllocated(o);
      }
      table.Put(id, o);
      put, freed, owned := put', freed', owned';
      assert forall j: u32 :: Slot(j) == if j == id then o else old(Slot(j));
    }

    /** `objects_info_put` of a new info, under the id it carries. What was in the slot is forgotten. */
    method PutNew(o: ObjectInfo)
      requires Valid() && o !in put && Sound(o.info, o.id)
      requires forall id: u32 :: Slot(id) != null ==> Unshared(Slot(id).info, o.info) && Unshared(o.info, Slot(id).info)
      modifies this`put, this`freed, this`owned, table.Repr()
      ensures Valid() && put == old(put) + [o] && freed == old(freed) && fresh(table.Repr() - old(table.Repr()))
      ensures owned == old(owned) + old(Footprint(o.info))
      ensures forall id: u32 :: Slot(id) == if id == o.id then o else old(Slot(id))
      ensures forall id: u32 :: Tracks(id) == if id == o.id then Some(old(Lived(o.info))) else old(Tracks(id))
      ensures Accounted() <==> old(Accounted()) && old(Slot(o.id)) == null
    {
      hide Footprint, Lived, Sound, Unshared, Accounted, IdTable.Valid, IdTable.Look;
      SetSlot(o.id, o, put + [o], freed, owned + Footprint(o.info));
      PutAccounts(o);
    }

    /** `wldbg_object_info_free`: clears the slot of the id stored in the info. */
    method Free(o: ObjectInfo, ghost found: u32)
      requires Valid() && Slot(found) == o
      modifies this`put, this`freed, this`owned, table.Repr()
      ensures Valid() && put == old(put) && freed == old(freed) + [o] && fresh(table.Repr() - old(table.Repr()))
      ensures owned == old(owned)
      ensures forall id: u32 :: Slot(id) == if id == found then null else old(Slot(id))
      ensures forall id: u32 :: Slot(id) != o
      ensures forall id: u32 :: Tracks(id) == if id == found then None else old(Tracks(id))
      ensures Accounted() <==> old(Accounted())
    {
      hide Footprint, Lived, Sound, Unshared, Accounted, IdTable.Valid, IdTable.Look;
      SetSlot(o.id, null, put, freed + [o], owned);
      FreeAccounts(o);
    }

    lemma AllAllocated()
      requires Valid()
      ensures table.Valid() && forall j: u32 | Slot(j) != null :: allocated(Footprint(Slot(j).info))
      ensures forall j: u32 | Slot(j) != null && Slot(j).info.OfXdg? :: allocated(Slot(j).info.x.configures)
    {
      forall j: u32 | Slot(j) != null
        ensures allocated(Footprint(Slot(j).info))
      {
        FootprintAllocated(Slot(j));
      }
    }

    lemma BehindOwned(id: u32)
      requires Valid()
      ensures Behind(id) <= owned
    {
    }

    /** Without puts and frees the account stays. */
    twostate lemma StillAccounted()
      requires old(table.Valid()) && table.Valid() && put == old(put) && freed == old(freed)
      requires forall id: u32 :: Slot(id) == old(Slot(id))
      ensures Accounted() <==> old(Accounted())
    {
      hide IdTable.Valid, Slot;
    }

    /** The other slots do not notice a change to the info in slot `id`. */
    lemma OthersApart(id: u32)
      requires Valid() && Slot(id) != null
      ensures forall j: u32 | j != id && Slot(j) != null ::
                Footprint(Slot(j).info) !! Footprint(Slot(id).info) && allocated(Footprint(Slot(j).info))
      ensures forall j: u32 | Slot(j) != null && Slot(j).info.OfSurface? ::
                Slot(j).info.s in Footprint(Slot(j).info)
      ensures Footprint(Slot(id).info) !! table.Repr() + {this}
    {
      FootprintApart(Slot(id).info, table, this);
      forall j: u32 | j != id && Slot(j) != null
        ensures Footprint(Slot(j).info) !! Footprint(Slot(id).info) && allocated(Footprint(Slot(j).info))
      {
        SoundApart(Slot(j).info, j, Slot(id).info, id);
        FootprintAllocated(Slot(j));
      }
    }

    /** `handle_wl_buffer_message` on a release event, and `make_wl_buffer_unreleased` on an attach. */
    method MarkBuffer(id: u32, e: BufferEvent)
      requires Valid() && (Slot(id) != null ==> Slot(id).info.OfBuffer?)
      modifies Behind(id)
      ensures Valid() && put == old(put) && freed == old(freed) && forall j: u32 :: Slot(j) == old(Slot(j))
      ensures owned == old(owned) && table.Repr() == old(table.Repr())
      ensures forall j: u32 :: Tracks(j) == if j == id then Marked(old(Tracks(j)), e) else old(Tracks(j))
    {
      hide Sound, Footprint, Lived, Unshared, IdTable.Valid, IdTable.Look, BufferInfo.Valid;
      var o := table.Get(id);
      if o == null {
        return;
      }
      OthersApart(id);
      assert forall j: u32 :: Tracks(j) == old(Tracks(j));
      BufferSound(o.info.b, id);
      assert o.info == OfBuffer(o.info.b) && Behind(id) == {o.info.b};
      o.info.b.Mark(e);
      BufferSound(o.info.b, id);
      assert Slot(id) == old(Slot(id)) == o;
      forall j: u32 | j != id
        ensures Tracks(j) == old(Tracks(j))
      {
        var p := Slot(j);
        assert p == old(Slot(j));
      }
    }

    /** `handle_wl_surface_message` from the client: frame, attach and commit. */
    method SurfaceRequest(id: u32, e: SurfaceEvent)
      requires Valid() && (Slot(id) != null ==> Slot(id).info.OfSurface?)
      requires Slot(id) != null && e.Attach? && Slot(e.bufferId) != null ==> Slot(e.bufferId).info.OfBuffer?
      modifies this`owned, Behind(id), if e.Attach? then Behind(e.bufferId) else {}
      ensures Valid() && put == old(put) && freed == old(freed) && forall j: u32 :: Slot(j) == old(Slot(j))
      ensures old(owned) <= owned && fresh(owned - old(owned)) && table.Repr() == old(table.Repr())
      ensures forall j: u32 :: Tracks(j) ==
                if j == id then Requested(old(Tracks(j)), e)
                else if e.Attach? && j == e.bufferId && old(Slot(id)) != null then Marked(old(Tracks(j)), Attached)
                else old(Tracks(j))
    {
      hide Sound, Footprint, Lived, Unshared, IdTable.Valid, IdTable.Look, SurfaceInfo.Valid;
      var o := table.Get(id);
      if o == null {
        return;
      }
      var s := o.info.s;
      assert Slot(id) == old(Slot(id)) && o.info == OfSurface(s);
      ghost var buffer := if e.Attach? then Slot(e.bufferId) else null;
      if buffer != null {
        BufferSound(buffer.info.b, e.bufferId);
        assert buffer.info == OfBuffer(buffer.info.b) && e.bufferId != id;
      }
      assert forall j: u32 :: Tracks(j) == old(Tracks(j));
      Surfaced(s, id, e);
      if e.Attach? {
        MarkBuffer(e.bufferId, Attached);
      }
    }

    /** The surface's own part. */
    method Surfaced(s: SurfaceInfo, id: u32, e: SurfaceEvent)
      requires Valid() && Slot(id) != null && Slot(id).info == OfSurface(s)
      modifies this`owned, Footprint(OfSurface(s))
      ensures Valid() && put == old(put) && freed == old(freed) && forall j: u32 :: Slot(j) == old(Slot(j))
      ensures old(owned) <= owned && fresh(owned - old(owned)) && table.Repr() == old(table.Repr())
      ensures forall j: u32 :: Tracks(j) == if j == id then Requested(old(Tracks(j)), e) else old(Tracks(j))
    {
      hide Sound, Footprint, Lived, Unshared, IdTable.Valid, IdTable.Look, SurfaceInfo.Valid;
      OthersApart(id);
      SurfaceSound(s, id);
      s.Handle(e);
      SurfaceSound(s, id);
      assert forall j: u32 :: Slot(j) == old(Slot(j));
      assert forall j: u32 | j != id && Slot(j) != null ::
          Lived(Slot(j).info) == old(Lived(Slot(j).info)) && Sound(Slot(j).info, j) &&
          Footprint(Slot(j).info) == old(Footprint(Slot(j).info)) <= owned;
      Own(Footprint(OfSurface(s)));
    }

    /** More objects to own; no info notices. */
    ghost method Own(more: set<object>)
      requires table.Valid() && this !in table.Repr()
      modifies this`owned
      ensures owned == old(owned) + more && table.Repr() == old(table.Repr())
      ensures table.Valid() && forall j: u32 :: Slot(j) == old(Slot(j))
      ensures forall j: u32 | Slot(j) != null :: Unnoticed(Slot(j), j)
    {
      hide Footprint, Lived, Sound, IdTable.Valid, IdTable.Look;
      forall j: u32 | Slot(j) != null
        ensures this !in Footprint(Slot(j).info)
      {
        FootprintApart(Slot(j).info, table, this);
      }
      owned := owned + more;
    }

    /** `handle_wl_seat_message`: the name and the capabilities. */
    method SeatSays(id: u32, e: SeatEvent)
      requires Valid() && (Slot(id) != null ==> Slot(id).info.OfSeat?)
      modifies Behind(id)
      ensures Valid() && put == old(put) && freed == old(freed) && forall j: u32 :: Slot(j) == old(Slot(j))
      ensures owned == old(owned) && table.Repr() == old(table.Repr())
      ensures forall j: u32 :: Tracks(j) == if j == id then Said(old(Tracks(j)), e) else old(Tracks(j))
    {
      hide Sound, Footprint, Lived, Unshared, IdTable.Valid, IdTable.Look, SeatInfo.Valid;
      var o := table.Get(id);
      if o == null {
        return;
      }
      OthersApart(id);
      assert forall j: u32 :: Tracks(j) == old(Tracks(j));
      SeatSound(o.info.t, id);
      assert o.info == OfSeat(o.info.t) && Behind(id) == {o.info.t};
      o.info.t.Handle(e);
      SeatSound(o.info.t, id);
      assert Slot(id) == old(Slot(id)) == o;
      forall j: u32 | j != id
        ensures Tracks(j) == old(Tracks(j))
      {
        assert Slot(j) == old(Slot(j));
      }
    }

    /** `handle_xdg_surface_message`: configure events and acknowledgements. */
    method XdgRequest(id: u32, e: XdgEvent)
      requires Valid() && (Slot(id) != null ==> Slot(id).info.OfXdg?)
      modifies Behind(id)
      ensures Valid() && put == old(put) && freed == old(freed) && forall j: u32 :: Slot(j) == old(Slot(j))
      ensures owned == old(owned) && table.Repr() == old(table.Repr())
      ensures forall j: u32 :: Tracks(j) == if j == id then Told(old(Tracks(j)), e) else old(Tracks(j))
    {
      hide Sound, Footprint, Lived, Unshared, IdTable.Valid, IdTable.Look, XdgInfo.Valid;
      var o := table.Get(id);
      if o == null {
        return;
      }
      OthersApart(id);
      assert forall j: u32 :: Tracks(j) == old(Tracks(j));
      var x := o.info.x;
      XdgSound(x, id);
      assert o.info == OfXdg(x) && Behind(id) == {x, x.configures};
      x.Handle(e);
      XdgSound(x, id);
      assert Slot(id) == old(Slot(id)) == o;
      forall j: u32 | j != id
        ensures Tracks(j) == old(Tracks(j))
      {
        assert Slot(j) == old(Slot(j));
      }
    }

    /** `handle_shm_pool_message`: a new buffer. */
    method CreateBuffer(id: u32, offset: int, width: int, height: int, stride: int, format: u32)
      requires Valid()
      modifies this`put, this`freed, this`owned, table.Repr()
      ensures Created(id, BufferLife(offset, width, height, stride, format, []))
      ensures Slot(id).info.OfBuffer? && !Slot(id).info.b.released
      ensures IsFilled(Slot(id).info.b, offset, width, height, stride, format)
    {
      hide Sound, Footprint, Lived, IdTable.Valid, IdTable.Look, Coherent, Accounted, Tracks;
      AllAllocated();
      var o := NewBuffer(id, offset, width, height, stride, format);
      PutNew(o);
    }

    /** `handle_wl_compositor_message`: a new surface. */
    method CreateSurface(id: u32)
      requires Valid()
      modifies this`put, this`freed, this`owned, table.Repr()
      ensures Created(id, SurfaceLife([]))
    {
      hide Sound, Footprint, Lived, IdTable.Valid, IdTable.Look, Coherent, Accounted, Tracks;
      AllAllocated();
      var o := NewSurface(id);
      PutNew(o);
    }

    /** `handle_xdg_shell_message`: a new xdg surface. */
    method CreateXdg(id: u32)
      requires Valid()
      modifies this`put, this`freed, this`owned, table.Repr()
      ensures Created(id, XdgLife([]))
    {
      hide Sound, Footprint, Lived, IdTable.Valid, IdTable.Look, Coherent, Accounted, Tracks;
      AllAllocated();
      var o := NewXdg(id);
      XdgSound(o.info.x, id);
      PutNew(o);
    }

    /** `handle_bind` of a wl_seat: a new seat. */
    method CreateSeat(id: u32)
      requires Valid()
      modifies this`put, this`freed, this`owned, table.Repr()
      ensures Created(id, SeatLife([]))
    {
      hide Sound, Footprint, Lived, IdTable.Valid, IdTable.Look, Coherent, Accounted, Tracks;
      AllAllocated();
      var o := NewSeat(id);
      PutNew(o);
    }

    /** A new info, with that life ahead of it, was put under `id`; nothing else changed. */
    twostate predicate Created(id: u32, life: Life)
      requires old(table.Valid())
      reads *
    {
      && Valid() && fresh(table.Repr() - old(table.Repr())) && old(owned) <= owned && fresh(owned - old(owned))
      && Slot(id) != null && put == old(put) + [Slot(id)] && freed == old(freed)
      && (forall j: u32 | j != id :: Slot(j) == old(Slot(j)))
      && (forall j: u32 :: Tracks(j) == if j == id then Some(life) else old(Tracks(j)))
      && (Accounted() <==> old(Accounted()) && old(Slot(id)) == null)
    }

    /** A destroy request, on an object that may be unknown. */
    method DestroyObject(id: u32)
      requires Valid()
      modifies this`put, this`freed, this`owned, table.Repr()
      ensures Valid() && Slot(id) == null && forall j: u32 | j != id :: Slot(j) == old(Slot(j))
      ensures put == old(put) && freed == old(freed) + if old(Slot(id)) == null then [] else [old(Slot(id))]
      ensures owned == old(owned) && fresh(table.Repr() - old(table.Repr()))
      ensures old(Slot(id)) != null ==> forall j: u32 :: Slot(j) != old(Slot(id))
      ensures forall j: u32 :: Tracks(j) == if j == id then None else old(Tracks(j))
      ensures Accounted() <==> old(Accounted())
    {
      hide Lived, Footprint, Sound, IdTable.Valid, IdTable.Look;
      var o := table.Get(id);
      if o != null {
        Free(o, id);
      }
    }

    twostate lemma AllFreed()
      requires old(Coherent()) && table.Valid() && old(freed) <= freed && put == old(put)
      requires forall id: u32 :: Slot(id) == old(Slot(id))
      requires forall id: u32 | Slot(id) != null :: Slot(id) in freed[|old(freed)|..]
      requires forall o | o in freed[|old(freed)|..] :: Slot(o.id) == o
      ensures old(Accounted()) <==> forall o | o in put :: o in freed
    {
      hide IdTable.Valid, Slot;
      var swept := freed[|old(freed)|..];
      assert freed == old(freed) + swept;
      assert forall o: ObjectInfo | o in old(freed) :: old(Slot(o.id)) != o;
    }

    /** `destroy_objects_info`: every info still in a slot is freed, and nothing is freed twice. */
    method DestroyAll()
      requires Valid()
      modifies this`freed
      ensures old(freed) <= freed
      ensures forall id: u32 | Slot(id) != null :: Slot(id) in freed[|old(freed)|..]
      ensures forall o | o in freed[|old(freed)|..] :: Slot(o.id) == o
      ensures forall j, k | 0 <= j < k < |freed| :: freed[j] != freed[k]
      ensures old(Accounted()) <==> forall o | o in put :: o in freed
      ensures table.Valid() && forall id: u32 :: Slot(id) == old(Slot(id))
    {
      hide IdTable.Look, Accounted, Swept, Infos, Slot, IdsMap.Valid, IdsMap.Table, Put, At;
      ghost var now: seq<ObjectInfo> := freed;
      SweepStart();
      for i := 0 to table.client.count
        invariant freed == old(freed) && Swept(freed, now, i)
      {
        var o := table.client.Get(i);
        SlotOfClient(i);
        SweepNext(freed, now, i);
        if o != null {
          now := now + [o];
        }
      }
      SweepGap(freed, now, table.client.count, SERVER_ID_START);
      for i := 0 to table.server.count
        invariant freed == old(freed) && Swept(freed, now, SERVER_ID_START + i)
      {
        var o := table.server.Get(i);
        SlotOfServer(i);
        SweepNext(freed, now, SERVER_ID_START + i);
        if o != null {
          now := now + [o];
        }
      }
      SweepGap(freed, now, SERVER_ID_START + table.server.count, TWO32);
      SweepDone(freed, now);
      ghost var swept := now[|freed|..];
      freed := now;
      assert old(freed) <= freed && swept == freed[|old(freed)|..];
      assert forall o | o in swept :: Slot(o.id) == old(Slot(o.id)) == o;
      assert forall id: u32 :: Slot(id) == old(Slot(id));
      AllFreed();
    }

    /** Exactly the infos in slots below `id` have been freed, once each, between `before` and `now`. */
    ghost predicate Swept(before: seq<ObjectInfo>, now: seq<ObjectInfo>, id: nat)
      requires table.Valid()
      reads table, table.Repr()
    {
      && before <= now
      && (forall j: u32 | Slot(j) != null :: Slot(j).id == j && Slot(j) !in before)
      && (forall j: u32 | j < id && Slot(j) != null :: Slot(j) in now[|before|..])
      && (forall o | o in now[|before|..] :: o.id < id && Slot(o.id) == o)
      && (forall j, k | 0 <= j < k < |now| :: now[j] != now[k])
    }

    lemma SweepStart()
      requires Coherent()
      ensures Swept(freed, freed, 0)
    {
    }

    lemma SweepDone(before: seq<ObjectInfo>, now: seq<ObjectInfo>)
      requires table.Valid() && Swept(before, now, TWO32)
      ensures before <= now
      ensures forall id: u32 | Slot(id) != null :: Slot(id) in now[|before|..]
      ensures forall o | o in now[|before|..] :: Slot(o.id) == o
      ensures forall j, k | 0 <= j < k < |now| :: now[j] != now[k]
    {
    }

    lemma SlotOfClient(i: nat)
      requires table.Valid() && i < table.client.count
      ensures Slot(i) == At(table.client.Table(), i, table.none)
    {
    }

    lemma SlotOfServer(i: nat)
      requires table.Valid() && i < table.server.count
      ensures Slot(SERVER_ID_START + i) == At(table.server.Table(), i, table.none)
    {
    }

    lemma SweepNext(before: seq<ObjectInfo>, now: seq<ObjectInfo>, id: u32)
      requires table.Valid() && Swept(before, now, id)
      ensures Swept(before, if Slot(id) == null then now else now + [Slot(id)], id + 1)
    {
      hide IdTable.Valid, IdTable.Look;
      var o := Slot(id);
      if o != null {
        assert (now + [o])[|before|..] == now[|before|..] + [o];
        assert o !in now by {
          assert now == before + now[|before|..];
        }
      }
    }

    /** Ids past the end of a map hold nothing. */
    lemma SweepGap(before: seq<ObjectInfo>, now: seq<ObjectInfo>, id: nat, to: nat)
      requires table.Valid() && table.none == null && Swept(before, now, id)
      requires (id, to) == (table.client.count as nat, SERVER_ID_START)
               || (id, to) == (SERVER_ID_START + table.server.count, TWO32)
      ensures Swept(before, now, to)
    {
    }
  }

  lemma BufferSound(b: BufferInfo, id: u32)
    ensures Sound(OfBuffer(b), id) <==> b.Valid() && b.owner == id
    ensures Footprint(OfBuffer(b)) == {b}
    ensures Lived(OfBuffer(b)) == BufferLife(b.offset, b.width, b.height, b.stride, b.format, b.history)
  {
  }

  lemma SurfaceSound(s: SurfaceInfo, id: u32)
    ensures Sound(OfSurface(s), id) <==> s.Valid() && s.owner == id
    ensures Footprint(OfSurface(s)) == if s.commited == null then {s} else {s, s.commited}
    ensures Lived(OfSurface(s)) == SurfaceLife(s.history)
  {
  }

  lemma SeatSound(t: SeatInfo, id: u32)
    ensures Sound(OfSeat(t), id) <==> t.Valid() && t.owner == id
    ensures Footprint(OfSeat(t)) == {t}
    ensures Lived(OfSeat(t)) == SeatLife(t.history)
  {
  }

  lemma XdgSound(x: XdgInfo, id: u32)
    ensures Sound(OfXdg(x), id) <==> x.Valid() && x.owner == id
    ensures Footprint(OfXdg(x)) == {x, x.configures}
    ensures Lived(OfXdg(x)) == XdgLife(x.history)
  {
  }
}
