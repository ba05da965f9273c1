/** `struct wl_map`: object ids to pointers, with the free slots of our own side
    chained through tagged words. A word is `data | flag << 1` when live and
    `next << 1 | 1` when free; the last free slot of the chain holds a plain 0. */
module WlMaps {
  import opened Bytes

  /** Pointers stored in the map are 4-aligned, so their two low bits carry the tag. */
  type Ptr = p: nat | p % 4 == 0

  function IsFree(w: nat): bool { w % 2 == 1 }
  function DataOf(w: nat): Ptr { w - w % 4 }
  function FlagOf(w: nat): nat { w / 2 % 2 }
  function Tagged(data: Ptr, flags: nat): nat { data + flags % 2 * 2 }

  lemma TagRoundTrip(data: Ptr, flags: nat)
    ensures var w := Tagged(data, flags);
            DataOf(w) == data && FlagOf(w) == flags % 2 && !IsFree(w)
  {
  }

  /** The `free_list` word for a chain of free slots. */
  function Link(chain: seq<nat>): nat {
    if chain == [] then 0 else 2 * chain[0] + 1
  }

  /** The tagged words from `freeList` on spell out `chain`: in range, without
      repetition, and exactly the slots that are not live. */
  ghost predicate Chained(e: seq<nat>, freeList: nat, chain: seq<nat>) {
    && freeList == Link(chain)
    && (forall k | 0 <= k < |chain| :: chain[k] < |e| && e[chain[k]] == Link(chain[k + 1..]))
    && (forall j, k | 0 <= j < k < |chain| :: chain[j] != chain[k])
    && (forall i | 0 <= i < |e| && i !in chain :: !IsFree(e[i]))
  }

  ghost predicate IsChained(e: seq<nat>, freeList: nat) {
    exists chain :: Chained(e, freeList, chain)
  }

  /** Unlinking: the head slot is reused first. */
  lemma ChainPop(e: seq<nat>, freeList: nat, chain: seq<nat>, w: nat)
    requires Chained(e, freeList, chain) && chain != [] && !IsFree(w)
    ensures Chained(e[chain[0] := w], e[chain[0]], chain[1..])
  {
    hide IsFree, Link;
    var e', rest := e[chain[0] := w], chain[1..];
    forall k | 0 <= k < |rest|
      ensures rest[k] < |e'| && e'[rest[k]] == Link(rest[k + 1..])
    {
      assert rest[k] == chain[k + 1] && rest[k + 1..] == chain[k + 2..];
    }
    forall i | 0 <= i < |e'| && i !in rest
      ensures !IsFree(e'[i])
    {
      assert chain == [chain[0]] + rest;
      assert i != chain[0] ==> i !in chain;
    }
  }

  lemma LinkOf(c: seq<nat>)
    ensures Link(c) == if c == [] then 0 else 2 * c[0] + 1
  {
  }

  lemma ChainPush(e: seq<nat>, freeList: nat, chain: seq<nat>, i: nat)
    requires Chained(e, freeList, chain) && i < |e| && i !in chain
    ensures Chained(e[i := freeList], 2 * i + 1, [i] + chain)
  {
    hide IsFree, Link;
    var c, e' := [i] + chain, e[i := freeList];
    LinkOf(c);
    assert c[1..] == chain;
    forall k | 0 <= k < |c|
      ensures c[k] < |e| && e'[c[k]] == Link(c[k + 1..])
    {
      if k > 0 {
        assert c[k + 1..] == chain[k..] && c[k] == chain[k - 1] != i;
      }
    }
    forall n | 0 <= n < |e'| && n !in c
      ensures !IsFree(e'[n])
    {
      assert c[0] == i && n !in c[1..];
    }
  }

  /** `wl_map_remove` keeps the free list a chain exactly when the slot was live:
      freeing a slot twice closes a cycle. */
  lemma RemoveExact(e: seq<nat>, freeList: nat, chain: seq<nat>, i: nat)
    requires Chained(e, freeList, chain) && i < |e|
    ensures IsChained(e[i := freeList], 2 * i + 1) <==> i !in chain
  {
    if i !in chain {
      ChainPush(e, freeList, chain, i);
    } else if IsChained(e[i := freeList], 2 * i + 1) {
      var c :| Chained(e[i := freeList], 2 * i + 1, c);
      var k :| 0 <= k < |chain| && chain[k] == i;
      FollowCycle(e, freeList, chain, k, c, k);
    }
  }

  /** From the head of a chain and from each of its slots there is one way on. */
  lemma ChainWalk(e: seq<nat>, freeList: nat, chain: seq<nat>, k: nat)
    requires Chained(e, freeList, chain)
    ensures freeList == if chain == [] then 0 else 2 * chain[0] + 1
    ensures k < |chain| ==>
              chain[k] < |e| && e[chain[k]] == if k + 1 == |chain| then 0 else 2 * chain[k + 1] + 1
    ensures forall j | 0 <= j < k < |chain| :: chain[j] != chain[k]
    ensures forall j | k < j < |chain| :: chain[j] != chain[k]
  {
  }

  lemma {:induction false} FollowCycle(e: seq<nat>, freeList: nat, chain: seq<nat>, k: nat, c: seq<nat>, j: nat)
    requires Chained(e, freeList, chain) && k < |chain|
    requires Chained(e[chain[k] := freeList], 2 * chain[k] + 1, c)
    requires j <= k
    ensures j + 1 < |c| && c[0] == chain[k] && c[j + 1] == chain[j]
  {
    hide Chained;
    ChainWalk(e, freeList, chain, k);
    var e' := e[chain[k] := freeList];
    if j == 0 {
      ChainWalk(e', 2 * chain[k] + 1, c, 0);
    } else {
      FollowCycle(e, freeList, chain, k, c, j - 1);
      ChainWalk(e', 2 * chain[k] + 1, c, j);
      ChainWalk(e, freeList, chain, j - 1);
    }
  }

  /** The map as an abstract table: live slots, free slots newest first, slots ever allocated. */
  datatype Ids = Ids(live: map<nat, (Ptr, nat)>, chain: seq<nat>, count: nat)

  const NO_IDS := Ids(map[], [], 0)

  ghost function Abs(e: seq<nat>, chain: seq<nat>): (s: Ids)
    ensures s.chain == chain && s.count == |e|
  {
    Ids(map i | 0 <= i < |e| && i !in chain :: (DataOf(e[i]), FlagOf(e[i])), chain, |e|)
  }

  datatype Op = Insert(flags: nat, data: Ptr) | Remove(slot: nat)

  /** The slot the next insertion takes. */
  function NextSlot(s: Ids): nat {
    if s.chain == [] then s.count else s.chain[0]
  }

  function Step(s: Ids, op: Op): Ids {
    match op
    case Insert(flags, data) =>
      Ids(s.live[NextSlot(s) := (data, flags % 2)],
          if s.chain == [] then [] else s.chain[1..],
          if s.chain == [] then s.count + 1 else s.count)
    case Remove(i) => Ids(s.live - {i}, [i] + s.chain, s.count)
  }

  ghost predicate Legal(s: Ids, ops: seq<Op>)
    decreases ops
  {
    ops == [] || ((ops[0].Remove? ==> ops[0].slot in s.live) && Legal(Step(s, ops[0]), ops[1..]))
  }

  function Ran(s: Ids, ops: seq<Op>): Ids
    decreases ops
  {
    if ops == [] then s else Ran(Step(s, ops[0]), ops[1..])
  }

  /** The largest number of slots live at once along a run. */
  function Peak(s: Ids, ops: seq<Op>): nat
    decreases ops
  {
    var here := |s.live|;
    if ops == [] then here
    else
      var later := Peak(Step(s, ops[0]), ops[1..]);
      if later > here then later else here
  }

  /** Live and free slots partition the allocated ones. */
  ghost predicate Partitioned(s: Ids) {
    && (forall i: nat :: i in s.live <==> i < s.count && i !in s.chain)
    && (forall k | 0 <= k < |s.chain| :: s.chain[k] < s.count)
    && (forall j, k | 0 <= j < k < |s.chain| :: s.chain[j] != s.chain[k])
    && |s.live| + |s.chain| == s.count
  }

  lemma StepSound(s: Ids, op: Op)
    requires Partitioned(s) && (op.Remove? ==> op.slot in s.live)
    ensures Partitioned(Step(s, op))
    ensures op.Insert? ==> NextSlot(s) !in s.live
    ensures |Step(s, op).live| == if op.Insert? then |s.live| + 1 else |s.live| - 1
  {
    hide Partitioned;
    if op.Remove? {
      RemoveSound(s, op.slot);
    } else if s.chain == [] {
      GrowSound(s, op);
    } else {
      ReuseSound(s, op);
    }
  }

  lemma GrowSound(s: Ids, op: Op)
    requires Partitioned(s) && op.Insert? && s.chain == []
    ensures Partitioned(Step(s, op)) && s.count !in s.live && |Step(s, op).live| == |s.live| + 1
  {
  }

  lemma ReuseSound(s: Ids, op: Op)
    requires Partitioned(s) && op.Insert? && s.chain != []
    ensures Partitioned(Step(s, op)) && s.chain[0] !in s.live && |Step(s, op).live| == |s.live| + 1
  {
  }

  lemma RemoveSound(s: Ids, i: nat)
    requires Partitioned(s) && i in s.live
    ensures var t := Step(s, Remove(i)); Partitioned(t) && |t.live| == |s.live| - 1
  {
  }

  /** Over any run of insertions and removals of live ids: slots stay partitioned, and the
      table never has more slots than were live at once. */
  lemma {:induction false} RunPeak(s: Ids, ops: seq<Op>)
    requires Partitioned(s) && Legal(s, ops)
    ensures Partitioned(Ran(s, ops))
    ensures Ran(s, ops).count == if Peak(s, ops) > s.count then Peak(s, ops) else s.count
    decreases ops
  {
    if ops != [] {
      StepSound(s, ops[0]);
      var t := Step(s, ops[0]);
      RunPeak(t, ops[1..]);
      if ops[0].Insert? && s.chain == [] {
        assert t.count == |t.live|;
        PeakAtLeast(t, ops[1..]);
      }
    }
  }

  lemma {:induction false} PeakAtLeast(s: Ids, ops: seq<Op>)
    ensures Peak(s, ops) >= |s.live|
  {
  }

  /** What a fresh map's table looks like after any legal run. */
  lemma {:induction false} TableSizeIsPeak(ops: seq<Op>)
    requires Legal(NO_IDS, ops)
    ensures var s := Ran(NO_IDS, ops); Partitioned(s) && s.count == Peak(NO_IDS, ops)
  {
    RunPeak(NO_IDS, ops);
  }

  lemma FreeListEmpty(e: seq<nat>, freeList: nat, chain: seq<nat>)
    requires Chained(e, freeList, chain)
    ensures freeList == 0 <==> chain == []
  {
  }

  /** Storing a tagged word in the next slot is the abstract insertion: into the newest freed slot, */
  lemma InsertReused(e: seq<nat>, freeList: nat, chain: seq<nat>, flags: nat, data: Ptr)
    requires Chained(e, freeList, chain) && chain != []
    ensures var s, w, i := Abs(e, chain), Tagged(data, flags), freeList / 2;
            && NextSlot(s) == i < |e| && Chained(e[i := w], e[i], chain[1..])
            && Abs(e[i := w], chain[1..]) == Step(s, Insert(flags, data))
  {
    hide DataOf, FlagOf, IsFree, Tagged, Abs;
    TagRoundTrip(data, flags);
    ChainPop(e, freeList, chain, Tagged(data, flags));
    assert e[chain[0]] == Link(chain[1..]);
    AbsReused(e, chain, Tagged(data, flags));
  }

  lemma AbsReused(e: seq<nat>, chain: seq<nat>, w: nat)
    requires chain != [] && chain[0] < |e| && chain[0] !in chain[1..]
    ensures Abs(e[chain[0] := w], chain[1..]) ==
            Ids(Abs(e, chain).live[chain[0] := (DataOf(w), FlagOf(w))], chain[1..], |e|)
  {
  }

  /** or, when none is free, at the end. */
  lemma InsertAppended(e: seq<nat>, freeList: nat, flags: nat, data: Ptr)
    requires Chained(e, freeList, [])
    ensures var s, w := Abs(e, []), Tagged(data, flags);
            && NextSlot(s) == |e| && Chained(e + [w], 0, [])
            && Abs(e + [w], []) == Step(s, Insert(flags, data))
  {
    TagRoundTrip(data, flags);
  }

  lemma RemoveWords(e: seq<nat>, freeList: nat, chain: seq<nat>, i: nat)
    requires Chained(e, freeList, chain) && i < |e|
    ensures i in Abs(e, chain).live <==> i !in chain
    ensures i !in chain ==> Chained(e[i := freeList], 2 * i + 1, [i] + chain) &&
                            Abs(e[i := freeList], [i] + chain) == Step(Abs(e, chain), Op.Remove(i))
  {
    assert i in Abs(e, chain).live <==> i !in chain;
    if i !in chain {
      ChainPush(e, freeList, chain, i);
      AbsFreed(e, chain, i, freeList);
    }
  }

  lemma AbsFreed(e: seq<nat>, chain: seq<nat>, i: nat, w: nat)
    requires i < |e| && i !in chain
    ensures Abs(e[i := w], [i] + chain) == Ids(Abs(e, chain).live - {i}, [i] + chain, |e|)
  {
  }

  /** The words of both sides of a map, for the peer-side operation below. */
  datatype View = View(clientSide: bool, client: seq<nat>, server: seq<nat>)

  /** `wl_map_reserve_new`: a peer may name its next slot, or an allocated one still holding NULL. */
  function Reserve(v: View, id: u32): Option<View> {
    var peers, i := if id < SERVER_ID_START then v.client else v.server,
                    if id < SERVER_ID_START then id else id - SERVER_ID_START;
    if v.clientSide == (id < SERVER_ID_START) || |peers| < i then None
    else if i < |peers| then (if peers[i] == 0 then Some(v) else None)
    else if id < SERVER_ID_START then Some(v.(client := peers + [0]))
    else Some(v.(server := peers + [0]))
  }

  lemma InsertIs(s: Ids, flags: nat, data: Ptr)
    ensures var t, i := Step(s, Insert(flags, data)), NextSlot(s);
            && i == (if s.chain == [] then s.count else s.chain[0])
            && t.live == s.live[i := (data, flags % 2)] && t.chain == (if s.chain == [] then [] else s.chain[1..])
            && t.count == s.count + if s.chain == [] then 1 else 0
  {
  }

  lemma RemoveIs(s: Ids, i: nat)
    ensures var t := Step(s, Op.Remove(i)); t.live == s.live - {i} && t.chain == [i] + s.chain && t.count == s.count
  {
  }

  lemma AbsLive(e: seq<nat>, chain: seq<nat>)
    ensures forall i: nat :: i in Abs(e, chain).live <==> i < |e| && i !in chain
  {
  }

  class WlMap {
    const clientSide: bool
    var client: seq<nat>
    var server: seq<nat>
    var freeList: nat
    /** The free slots of our own side, in the order they will be reused. */
    ghost var chain: seq<nat>

    constructor (clientSide: bool)
      ensures this.clientSide == clientSide && Valid() && Table() == NO_IDS
      ensures client == server == []
    {
      this.clientSide := clientSide;
      client, server, freeList, chain := [], [], 0, [];
    }

    function Words(): View
      reads this
    {
      View(clientSide, client, server)
    }

    function Own(): seq<nat>
      reads this
    {
      if clientSide then client else server
    }

    function Base(): nat { if clientSide then 0 else SERVER_ID_START }

    /** Slots whose number survives the shift into a 32-bit free-list word and whose id stays on our side. */
    function MaxSlots(): nat { if clientSide then 0x8000_0000 else TWO32 - SERVER_ID_START }

    ghost predicate Valid()
      reads this
    {
      Chained(Own(), freeList, chain) && |Own()| <= MaxSlots()
    }

    ghost function Table(): Ids
      reads this
    {
      Abs(Own(), chain)
    }

    lemma TableIs()
      requires Valid()
      ensures Table().count == |Own()| <= MaxSlots() && (freeList == 0 <==> Table().chain == [])
    {
      FreeListEmpty(Own(), freeList, chain);
    }

    /** Is `id` on our side, and which of our slots is it? */
    predicate Mine(id: u32) { clientSide == (id < SERVER_ID_START) }

    function Slot(id: u32): nat
      requires Mine(id)
    {
      id - Base()
    }

    /** A slot that was not live now is, and holds that; it is the newest free one, or one behind the end. */
    twostate predicate Inserted(id: u32, flags: nat, data: Ptr)
      reads this
    {
      && Mine(id) && Slot(id) !in old(Table()).live
      && Slot(id) == (if old(chain) == [] then |old(Own())| else old(chain)[0]) < |Own()|
      && Table().live == old(Table()).live[Slot(id) := (data, flags % 2)]
      && chain == (if old(chain) == [] then [] else old(chain)[1..])
      && |Own()| == |old(Own())| + if old(chain) == [] then 1 else 0
    }

    /** That slot, and no other, is not live any more, and is the newest free one. */
    twostate predicate Removed(id: u32)
      requires Mine(id)
      reads this
    {
      Table().live == old(Table()).live - {Slot(id)} && chain == [Slot(id)] + old(chain) && |Own()| == |old(Own())|
    }

    /** `wl_map_insert_new`. */
    method InsertNew(flags: nat, data: Ptr) returns (id: u32)
      requires Valid() && (freeList == 0 ==> |Own()| < MaxSlots())
      modifies this
      ensures Valid()
      ensures Table() == Step(old(Table()), Insert(flags, data))
      ensures id == NextSlot(old(Table())) + Base()
      ensures Inserted(id, flags, data)
      ensures if clientSide then server == old(server) else client == old(client)
    {
      InsertIs(Table(), flags, data);
      AbsLive(Own(), chain);
      hide Chained, Abs, Step, NextSlot, Tagged;
      FreeListEmpty(Own(), freeList, chain);
      var i, w := freeList / 2, Tagged(data, flags);
      if freeList != 0 {
        InsertReused(Own(), freeList, chain, flags, data);
        freeList, chain := Own()[i], chain[1..];
      } else {
        InsertAppended(Own(), freeList, flags, data);
        i := |Own()|;
        if clientSide {
          client := client + [0];
        } else {
          server := server + [0];
        }
        assert Own()[i := w] == old(Own()) + [w];
      }
      if clientSide {
        client := client[i := w];
      } else {
        server := server[i := w];
      }
      id := i + Base();
    }

    /** `wl_map_remove`: ids of the peer's side are ignored; ours are not checked for being live. */
    method Remove(id: u32)
      requires Valid() && (Mine(id) ==> Slot(id) < |Own()|)
      modifies this
      ensures !Mine(id) ==> Words() == old(Words()) && freeList == old(freeList) && chain == old(chain)
      ensures Mine(id) && Slot(id) in old(Table()).live ==>
                Valid() && Table() == Step(old(Table()), Op.Remove(Slot(id))) && Removed(id)
      ensures Mine(id) && Slot(id) !in old(Table()).live ==> !IsChained(Own(), freeList)
      ensures if clientSide then server == old(server) else client == old(client)
    {
      hide Chained, Abs, Step, IsChained;
      RemoveIs(Table(), if Mine(id) then Slot(id) else 0);
      var i := if id < SERVER_ID_START then id else id - SERVER_ID_START;
      if clientSide != (id < SERVER_ID_START) {
        return;
      }
      RemoveExact(Own(), freeList, chain, i);
      RemoveWords(Own(), freeList, chain, i);
      if clientSide {
        client := client[i := freeList];
      } else {
        server := server[i := freeList];
      }
      freeList := 2 * i + 1;
      chain := [i] + chain;
    }

    /** `wl_map_reserve_new`. */
    method ReserveNew(id: u32) returns (ok: bool)
      modifies this`client, this`server
      ensures var i := if id < SERVER_ID_START then id else id - SERVER_ID_START;
              && (ok <==> !Mine(id) && i <= |old(Peers())| && (i < |old(Peers())| ==> old(Peers())[i] == 0))
              && Peers() == old(Peers()) + (if ok && i == |old(Peers())| then [0] else [])
      ensures ok == Reserve(old(Words()), id).Some?
      ensures Words() == if ok then Reserve(old(Words()), id).value else old(Words())
      ensures Own() == old(Own())
    {
      var i := id;
      if id < SERVER_ID_START {
        if clientSide {
          return false;
        }
      } else {
        if !clientSide {
          return false;
        }
        i := id - SERVER_ID_START;
      }
      var entries := if id < SERVER_ID_START then client else server;
      if |entries| < i {
        return false;
      }
      if |entries| == i {
        if id < SERVER_ID_START {
          client := client + [0];
        } else {
          server := server + [0];
        }
      } else if entries[i] != 0 {
        return false;
      }
      return true;
    }

    /** The words of the peer's side. */
    function Peers(): seq<nat>
      reads this
    {
      if clientSide then server else client
    }

    /** `wl_map_lookup` and `wl_map_lookup_flags`, on either side; the peer's side has no free list. */
    method Lookup(id: u32) returns (data: Ptr, flags: nat)
      requires Valid()
      ensures Mine(id) ==>
                (data, flags) == if Slot(id) in Table().live then Table().live[Slot(id)] else (0, 0)
      ensures !Mine(id) ==>
                var i := if id < SERVER_ID_START then id else id - SERVER_ID_START;
                (data, flags) == if i < |Peers()| && !IsFree(Peers()[i]) then (DataOf(Peers()[i]), FlagOf(Peers()[i]))
                                 else (0, 0)
    {
      hide Chained, Abs, DataOf, FlagOf, IsFree;
      var i := if id < SERVER_ID_START then id else id - SERVER_ID_START;
      var entries := if id < SERVER_ID_START then client else server;
      if Mine(id) {
        LookupWord(entries, freeList, chain, i);
      }
      if i < |entries| && !IsFree(entries[i]) {
        return DataOf(entries[i]), FlagOf(entries[i]);
      }
      return 0, 0;
    }
  }

  /** What was inserted is found again, under the id that was handed out, with its flag bit; other live
      ids are not disturbed; and once it is removed it is gone, and the next insertion takes its place. */
  method InsertFindRemove(m: WlMap, flags: nat, data: Ptr, other: u32)
    returns (id: u32, found: (Ptr, nat), gone: (Ptr, nat), again: u32)
    requires m.Valid() && (m.freeList == 0 ==> |m.Own()| < m.MaxSlots())
    modifies m
    ensures m.Valid() && m.Mine(id) && found == (data, flags % 2) && gone == (0, 0) && again == id
    ensures old(m.Mine(other) && m.Slot(other) in m.Table().live) ==>
              && other != id && m.Slot(other) in m.Table().live
              && m.Table().live[m.Slot(other)] == old(m.Table().live[m.Slot(other)])
  {
    hide WlMap.Valid, Abs, Step, NextSlot;
    m.TableIs();
    id := m.InsertNew(flags, data);
    var d, f := m.Lookup(id);
    found := (d, f);
    m.Remove(id);
    m.TableIs();
    d, f := m.Lookup(id);
    gone := (d, f);
    again := m.InsertNew(flags, data);
  }

  /** A map over any legal run of insertions and removals: its table is the abstract run's, and its
      array has exactly as many slots as were ever live at once. */
  method RunOps(clientSide: bool, ops: seq<Op>) returns (m: WlMap)
    requires Legal(NO_IDS, ops) && Peak(NO_IDS, ops) <= if clientSide then 0x8000_0000 else TWO32 - SERVER_ID_START
    ensures m.Valid() && m.Table() == Ran(NO_IDS, ops) && |m.Own()| == Peak(NO_IDS, ops)
  {
    hide WlMap.Valid, Partitioned, Step, Ran, Peak, Legal, NextSlot, WlMap.Inserted, WlMap.Removed, Abs;
    m := new WlMap(clientSide);
    NoIdsPartitioned();
    TableSizeIsPeak(ops);
    assert ops[0..] == ops;
    for k := 0 to |ops|
      invariant fresh(m) && m.clientSide == clientSide && m.Valid() && Partitioned(m.Table())
      invariant Legal(m.Table(), ops[k..]) && Ran(m.Table(), ops[k..]) == Ran(NO_IDS, ops)
      invariant Peak(m.Table(), ops[k..]) <= m.MaxSlots()
    {
      ghost var s := m.Table();
      assert ops[k..][0] == ops[k] && ops[k..][1..] == ops[k + 1..];
      RunStep(s, ops[k..]);
      m.TableIs();
      match ops[k] {
        case Insert(flags, data) =>
          var id := m.InsertNew(flags, data);
        case Remove(i) =>
          m.Remove(i + m.Base());
      }
    }
    RunNone(m.Table());
    m.TableIs();
    assert ops[|ops|..] == [];
  }

  lemma NoIdsPartitioned()
    ensures Partitioned(NO_IDS)
  {
  }

  lemma {:induction false} RunNone(s: Ids)
    ensures Ran(s, []) == s
  {
  }

  /** What the first step of a legal run may rely on, and what it leaves of the run. */
  lemma {:induction false} RunStep(s: Ids, ops: seq<Op>)
    requires Partitioned(s) && ops != [] && Legal(s, ops)
    ensures var t := Step(s, ops[0]);
            && Partitioned(t) && Legal(t, ops[1..]) && Ran(t, ops[1..]) == Ran(s, ops)
            && Peak(t, ops[1..]) <= Peak(s, ops) && |s.live| <= Peak(s, ops)
    ensures ops[0].Insert? && s.chain == [] ==> s.count < Peak(s, ops)
    ensures ops[0].Remove? ==> ops[0].slot in s.live && ops[0].slot < s.count
  {
    hide Step;
    StepSound(s, ops[0]);
    PeakAtLeast(Step(s, ops[0]), ops[1..]);
  }

  /** A freed slot reads as tagged free, or as a plain NULL at the bottom of the chain. */
  lemma LookupWord(e: seq<nat>, freeList: nat, chain: seq<nat>, i: nat)
    requires Chained(e, freeList, chain)
    ensures var live := Abs(e, chain).live;
            if i < |e| && !IsFree(e[i]) then (DataOf(e[i]), FlagOf(e[i])) == if i in live then live[i] else (0, 0)
            else i !in live
  {
    hide Chained, DataOf, FlagOf;
    assert DataOf(0) == 0 && FlagOf(0) == 0 by {
      TagRoundTrip(0, 0);
    }
    LiveSlots(e, chain, i);
    ChainCovers(e, freeList, chain, i);
    if i in chain {
      var k :| 0 <= k < |chain| && chain[k] == i;
      ChainWalk(e, freeList, chain, k);
    }
  }

  lemma ChainCovers(e: seq<nat>, freeList: nat, chain: seq<nat>, i: nat)
    requires Chained(e, freeList, chain)
    ensures i in chain ==> i < |e|
    ensures i < |e| && IsFree(e[i]) ==> i in chain
  {
  }

  lemma LiveSlots(e: seq<nat>, chain: seq<nat>, i: nat)
    ensures var live := Abs(e, chain).live;
            (i in live <==> i < |e| && i !in chain) && (i in live ==> live[i] == (DataOf(e[i]), FlagOf(e[i])))
  {
  }
}
