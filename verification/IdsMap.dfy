/** `struct wl_array` holding pointers, and the sparse id tables wldbg keeps in two of them. */
module IdsMaps {
  import opened Bytes

  /** `sizeof(void *)`. */
  const PTR := 8

  function Pow2(k: nat): (p: nat)
    ensures p >= 1
  {
    if k == 0 then 1 else 2 * Pow2(k - 1)
  }

  /** `struct wl_array` with pointers in it: `size` and `alloc` in bytes. */
  class WlArray<T(0)> {
    var size: nat
    var alloc: nat
    var data: array<T>
    /** `alloc` is `16 << doublings`, and all reallocations together moved `moved` bytes. */
    ghost var doublings: nat
    ghost var moved: nat

    constructor ()
      ensures Valid() && Tight() && size == alloc == 0 && fresh(data)
    {
      size, alloc, doublings, moved := 0, 0, 0, 0;
      data := new T[0];
    }

    /** Room for what is stored, a power of two of it; the bytes moved so far stay below the
        room there is. */
    ghost predicate Valid()
      reads this
    {
      && size <= alloc && alloc == PTR * data.Length
      && (alloc == 0 || alloc == 16 * Pow2(doublings))
      && (if alloc == 0 then moved == 0 else moved + 16 <= alloc)
    }

    /** Less than twice the room needed, which holds until a shorter array is copied in. */
    ghost predicate Tight()
      reads this
    {
      alloc <= 16 || alloc < 2 * size
    }

    /** The pointers stored in full. */
    ghost function Elements(): seq<T>
      requires Valid()
      reads this, data
    {
      data[..size / PTR]
    }

    /** The room `wl_array_add` asks for: doubled from what there is until it suffices. */
    method Doubled(need: nat) returns (newAlloc: nat, ghost d: nat)
      requires Valid()
      ensures newAlloc == 16 * Pow2(d) && newAlloc % PTR == 0 && alloc <= newAlloc && need <= newAlloc
      ensures alloc > 0 && alloc >= need ==> newAlloc == alloc && d == doublings
      ensures newAlloc == alloc || newAlloc == 16 || (newAlloc < 2 * need && newAlloc >= 2 * alloc)
      ensures newAlloc != alloc ==> newAlloc >= alloc + 16
    {
      hide Pow2;
      PowNone();
      newAlloc, d := alloc, doublings;
      if alloc == 0 {
        newAlloc, d := 16, 0;
      }
      while newAlloc < need
        invariant newAlloc == 16 * Pow2(d) && newAlloc >= alloc && newAlloc >= 16
        invariant newAlloc == alloc || newAlloc == 16 || (newAlloc < 2 * need && newAlloc >= 2 * alloc)
        invariant alloc > 0 && alloc >= need ==> newAlloc == alloc && d == doublings
        invariant newAlloc != alloc ==> newAlloc >= alloc + 16
        decreases need - newAlloc
      {
        PowNext(d);
        newAlloc, d := newAlloc * 2, d + 1;
      }
      WholePointers(2 * Pow2(d));
    }

    /** `wl_array_add`: the byte where the new part begins; what it holds is arbitrary. */
    method Add(n: nat) returns (p: nat)
      requires Valid()
      modifies this
      ensures Valid() && size == old(size) + n && p == old(size) && (old(Tight()) ==> Tight())
      ensures fresh(data) || data == old(data)
      ensures data.Length >= old(data.Length) && data[..old(data.Length)] == old(data[..])
      ensures old(Elements()) <= Elements()
      ensures old(alloc) > 0 && old(alloc) >= size ==> alloc == old(alloc) && data == old(data)
    {
      hide Pow2;
      ghost var d;
      var newAlloc;
      newAlloc, d := Doubled(size + n);
      assert newAlloc == PTR * (newAlloc / PTR);
      if alloc < newAlloc {
        var block := new T[newAlloc / PTR];
        forall i | 0 <= i < data.Length {
          block[i] := data[i];
        }
        moved := moved + alloc;
        data, alloc, doublings := block, newAlloc, d;
      }
      p := size;
      size := size + n;
    }

    /** `wl_array_copy`. */
    method Copy(source: WlArray<T>)
      requires Valid() && source.Valid() && (source == this || source.data != data)
      modifies this, data
      ensures Valid() && Elements() == old(source.Elements()) && (fresh(data) || data == old(data))
      ensures old(size) < source.size && old(Tight()) ==> Tight()
    {
      hide Pow2;
      if size < source.size {
        var p := Add(source.size - size);
      } else {
        size := source.size;
      }
      var n := source.size / PTR;
      forall i | 0 <= i < n {
        data[i] := source.data[i];
      }
      assert data[..n] == old(source.data[..source.size / PTR]);
    }
  }

  lemma PowNone()
    ensures Pow2(0) == 1
  {
  }

  lemma PowNext(k: nat)
    ensures Pow2(k + 1) == 2 * Pow2(k)
  {
  }

  lemma WholePointers(n: nat)
    ensures PTR * n % PTR == 0
  {
  }

  /** Stored elements lie inside the block. */
  lemma Room<T(0)>(a: WlArray<T>)
    requires a.Valid()
    ensures a.size / PTR <= a.data.Length
  {
  }

  /** A table with `data` put at index `id`; the gap before it reads `none`. */
  function Put<T>(t: seq<T>, id: nat, data: T, none: T): seq<T> {
    if id < |t| then t[id := data] else t + seq(id - |t|, _ => none) + [data]
  }

  /** What index `id` reads: `none` behind the end. */
  function At<T>(t: seq<T>, id: nat, none: T): T {
    if id < |t| then t[id] else none
  }

  /** `struct wldbg_ids_map`. */
  class IdsMap<T(0)> {
    const none: T
    const arr: WlArray<T>
    var count: u32

    constructor (none: T)
      ensures Valid() && Table() == [] && fresh(arr) && fresh(arr.data) && this.none == none
    {
      this.none := none;
      arr := new WlArray<T>();
      count := 0;
    }

    ghost predicate Valid()
      reads this, arr
    {
      arr.Valid() && arr.Tight() && arr.size == PTR * count
    }

    ghost function Table(): (t: seq<T>)
      requires Valid()
      reads this, arr, arr.data
      ensures |t| == count
    {
      arr.Elements()
    }

    /** The growing part of `wldbg_ids_map_insert`: new slots are cleared. */
    method Extend(id: u32)
      requires Valid() && count <= id < SERVER_ID_START
      modifies arr, arr.data
      ensures arr.Valid() && arr.Tight() && arr.size == PTR * (id + 1)
      ensures arr.Elements() == old(Table()) + seq(id + 1 - old(|Table()|), _ => none)
      ensures fresh(arr.data) || arr.data == old(arr.data)
    {
      hide WlArray.Valid, Pow2;
      ghost var t := Table();
      var size := Add32(Sub32(id, count), 1) * PTR;
      assert size == (id - count + 1) * PTR;
      var p := arr.Add(size);
      Room(arr);
      forall i | p / PTR <= i < p / PTR + size / PTR {
        arr.data[i] := none;
      }
    }

    /** `wldbg_ids_map_insert`. The callers split ids so that the 32-bit gap size cannot wrap. */
    method Insert(id: u32, data: T)
      requires Valid() && id < SERVER_ID_START
      modifies this, arr, arr.data
      ensures Valid() && Table() == Put(old(Table()), id, data, none)
      ensures fresh(arr.data) || arr.data == old(arr.data)
    {
      hide WlArray.Valid, Pow2;
      if id >= count {
        Extend(id);
      }
      Room(arr);
      arr.data[id] := data;
      count := arr.size / PTR;
    }

    /** `wldbg_ids_map_get`. */
    method Get(id: u32) returns (data: T)
      requires Valid()
      ensures data == At(Table(), id, none)
    {
      if id < count {
        return arr.data[id];
      }
      return none;
    }
  }

  lemma AtPut<T>(t: seq<T>, id: nat, data: T, none: T, j: nat)
    ensures At(Put(t, id, data, none), j, none) == if j == id then data else At(t, j, none)
    ensures |Put(t, id, data, none)| == if id < |t| then |t| else id + 1
  {
  }

  /** `struct resolved_objects_ids` and `struct wldbg_objects_info`: ids allocated by clients in
      one table, ids allocated by servers, counted from 0xff000000, in another. */
  class IdTable<T(0)> {
    const none: T
    const client: IdsMap<T>
    const server: IdsMap<T>

    constructor (none: T)
      ensures Valid() && fresh(Repr()) && this.none == none
      ensures forall id: u32 :: Look(id) == none
    {
      this.none := none;
      client := new IdsMap<T>(none);
      server := new IdsMap<T>(none);
    }

    ghost function Repr(): set<object>
      reads this, client.arr, server.arr
    {
      {this, client, client.arr, client.arr.data, server, server.arr, server.arr.data}
    }

    ghost predicate Valid()
      reads Repr()
    {
      && client.Valid() && server.Valid() && client.none == server.none == none
      && client != server && client.arr != server.arr && client.arr.data != server.arr.data
      && client.count <= SERVER_ID_START && server.count <= TWO32 - SERVER_ID_START
    }

    /** The table as a total map over all 32-bit ids. */
    ghost function Look(id: u32): T
      requires Valid()
      reads Repr()
    {
      if id >= SERVER_ID_START then At(server.Table(), id - SERVER_ID_START, none) else At(client.Table(), id, none)
    }

    /** `resolved_objects_put`, `objects_info_put`. */
    method Put(id: u32, data: T)
      requires Valid()
      modifies Repr()
      ensures Valid() && fresh(Repr() - old(Repr()))
      ensures forall j: u32 :: Look(j) == if j == id then data else old(Look(j))
    {
      ghost var c, s := client.Table(), server.Table();
      if id >= SERVER_ID_START {
        server.Insert(id - SERVER_ID_START, data);
        forall j: nat { AtPut(s, id - SERVER_ID_START, data, none, j); }
      } else {
        client.Insert(id, data);
        forall j: nat { AtPut(c, id, data, none, j); }
      }
    }

    /** `resolved_objects_get`, `objects_info_get`. */
    method Get(id: u32) returns (data: T)
      requires Valid()
      ensures data == Look(id)
    {
      if id >= SERVER_ID_START {
        data := server.Get(id - SERVER_ID_START);
      } else {
        data := client.Get(id);
      }
    }
  }
}
