/** `struct wl_closure`: marshalling, sizing, serializing and demarshalling a message. */
module Closures {
  import opened Bytes
  import opened RingBuffer
  import opened Ledgers
  import opened Connection
  import opened Signatures
  import opened WlMaps
  import opened Wire

  const MAX_ARGS := 20

  datatype Closure = Closure(sender: u32, opcode: u32, sig: string, args: seq<Value>)

  /** The C view of a string: what `strlen` and `memcpy` see of it. */
  function CStr(s: seq<byte>): (t: seq<byte>)
    ensures |t| <= |s| && 0 !in t
    ensures 0 !in s ==> t == s
  {
    if s == [] || s[0] == 0 then [] else [s[0]] + CStr(s[1..])
  }

  /** `t` is the string at `s`: up to the first NUL. */
  predicate Spells(s: seq<byte>, t: seq<byte>) {
    |t| <= |s| && s[..|t|] == t && 0 !in t && (|t| < |s| ==> s[|t|] == 0)
  }

  lemma {:induction false} CStrSpells(s: seq<byte>)
    ensures Spells(s, CStr(s))
  {
    if s != [] && s[0] != 0 {
      CStrSpells(s[1..]);
      var t := CStr(s[1..]);
      assert s[..|t| + 1] == [s[0]] + s[1..][..|t|];
    }
  }

  lemma {:induction false} SpellsIs(s: seq<byte>, t: seq<byte>)
    ensures Spells(s, t) <==> CStr(s) == t
  {
    var c := CStr(s);
    CStrSpells(s);
    if Spells(s, t) {
      assert forall i | 0 <= i < |t| && i < |c| :: t[i] == s[..|t|][i] && c[i] == s[..|c|][i];
    }
  }

  function CView(v: Value): (r: Value)
    ensures v.Handle? <==> r.Handle?
  {
    match v
    case Str(Some(s)) => Str(Some(CStr(s)))
    case _ => v
  }

  function CViews(vs: seq<Value>): (r: seq<Value>)
    ensures |r| == |vs|
    ensures forall k | 0 <= k < |vs| :: r[k] == CView(vs[k])
  {
    if vs == [] then [] else [CView(vs[0])] + CViews(vs[1..])
  }

  /** Does argument `v` have the C type that `spec` calls for? Objects are passed for `o` and for `n`. */
  predicate Typed(spec: ArgSpec, v: Value) {
    match spec.kind
    case 's' => v.Str?
    case 'o' => v.Obj?
    case 'n' => v.Obj?
    case 'a' => v.Arr?
    case 'h' => v.Handle?
    case _ => v.Num?
  }

  predicate AllTyped(specs: seq<ArgSpec>, vs: seq<Value>) {
    |vs| == |specs| && forall k | 0 <= k < |vs| :: Typed(specs[k], vs[k])
  }

  /** NULL where the signature does not allow it. */
  predicate BadNull(spec: ArgSpec, v: Value)
    requires Typed(spec, v)
  {
    !spec.nullable &&
    match v
    case Str(s) => s.None?
    case Obj(o) => o.None?
    case Arr(a) => a.None?
    case _ => false
  }

  /** What a closure keeps: the id of a new object, a duplicate of a descriptor, the rest as passed. */
  function Stored(spec: ArgSpec, v: Value, dup: Fd -> Fd): Value {
    if spec.kind == 'n' && v.Obj? then NewId(PlainWord(v))
    else if v.Handle? then Handle(dup(v.fd))
    else v
  }

  /** The argument kinds found in a closure. */
  predicate Kept(spec: ArgSpec, v: Value): (b: bool)
    ensures b ==> (v.Handle? <==> spec.kind == 'h')
  {
    match spec.kind
    case 's' => v.Str?
    case 'o' => v.Obj?
    case 'n' => v.NewId?
    case 'a' => v.Arr?
    case 'h' => v.Handle?
    case _ => v.Num?
  }

  predicate WellKept(c: Closure) {
    && |c.args| == |Specs(c.sig)|
    && forall k | 0 <= k < |c.args| :: Kept(Specs(c.sig)[k], c.args[k])
  }

  /** `kept` is what marshalling makes of an acceptable argument `v`. */
  ghost predicate Marshalled(spec: ArgSpec, v: Value, kept: Value, dup: Fd -> Fd) {
    Typed(spec, v) && !BadNull(spec, v) && kept == Stored(spec, v, dup)
  }

  lemma MarshalledIsKept(spec: ArgSpec, v: Value, kept: Value, dup: Fd -> Fd)
    requires Marshalled(spec, v, kept, dup)
    ensures Kept(spec, kept)
  {
  }

  /** `wl_closure_marshal`. */
  method Marshal(sender: u32, opcode: u32, args: seq<Value>, sig: string, dup: Fd -> Fd) returns (c: Option<Closure>)
    requires AllTyped(Specs(sig), args)
    ensures c.Some? <==> |args| <= MAX_ARGS && forall k | 0 <= k < |args| ::
                           Specs(sig)[k].nullable || args[k] !in {Str(None), Obj(None), Arr(None)}
    ensures c.Some? ==> WellKept(c.value) && c.value.(args := []) == Closure(sender, opcode, sig, []) &&
                        forall k | 0 <= k < |args| :: Marshalled(Specs(sig)[k], args[k], c.value.args[k], dup)
  {
    var count := ArgCount(sig);
    if count > MAX_ARGS {
      return None;
    }
    var kept: seq<Value> := [];
    var rest := sig;
    ghost var specs := Specs(sig);
    for i := 0 to count
      invariant |kept| == i
      invariant Specs(rest) == specs[i..]
      invariant forall k | 0 <= k < i :: Marshalled(specs[k], args[k], kept[k], dup)
    {
      hide Specs, Marshalled;
      var arg, rest' := GetNextArgument(rest);
      var spec := arg.value;
      assert spec == specs[i..][0] && Specs(rest') == specs[i..][1..] == specs[i + 1..];
      if BadNull(spec, args[i]) {
        return None;
      }
      var v := if spec.kind == 'n' then NewId(if args[i].id.Some? then args[i].id.value else 0)
               else if spec.kind == 'h' then Handle(dup(args[i].fd))
               else args[i];
      OneMarshalled(spec, args[i], v, dup);
      kept := kept + [v];
      rest := rest';
    }
    forall k | 0 <= k < count
      ensures Kept(specs[k], kept[k]) && !BadNull(specs[k], args[k])
    {
      MarshalledIsKept(specs[k], args[k], kept[k], dup);
    }
    return Some(Closure(sender, opcode, sig, kept));
  }

  lemma OneMarshalled(spec: ArgSpec, v: Value, kept: Value, dup: Fd -> Fd)
    requires Typed(spec, v) && !BadNull(spec, v)
    requires if spec.kind == 'n' then kept == NewId(PlainWord(v))
             else if spec.kind == 'h' then kept == Handle(dup(v.fd))
             else kept == v
    ensures Marshalled(spec, v, kept, dup)
  {
  }

  /** The words of a serialized closure after its header. */
  function BodySize(c: Closure): (n: nat)
    ensures n % 4 == 0
  {
    WireSizes(CViews(c.args))
  }

  /** `buffer_size_for_closure`, in words. */
  method BufferSize(c: Closure) returns (size: nat)
    requires WellKept(c)
    ensures 4 * size == 8 + BodySize(c)
    ensures exists at :: Spaced(CViews(c.args), at) && 4 * size == 8 + at[|c.args|]
  {
    hide Offset, Spaced;
    SpacedIs(CViews(c.args), Offsets(CViews(c.args)));
    var words, rest := 0, c.sig;
    var count := ArgCount(c.sig);
    ghost var todo := CViews(c.args);
    for i := 0 to count
      invariant Specs(rest) == Specs(c.sig)[i..]
      invariant todo == CViews(c.args)[i..]
      invariant BodySize(c) == 4 * words + WireSizes(todo)
    {
      var arg, rest' := GetNextArgument(rest);
      assert Specs(rest') == Specs(rest)[1..] == Specs(c.sig)[i + 1..];
      var v := c.args[i];
      match arg.value.kind {
        case 'h' =>
        case 's' =>
          words := words + if v.s.None? then 1 else 1 + Roundup(|CStr(v.s.value)| + 1);
        case 'a' =>
          words := words + if v.a.None? then 1 else 1 + Roundup(|v.a.value|);
        case _ =>
          words := words + 1;
      }
      rest := rest';
      todo := todo[1..];
    }
    return words + 2;
  }

  /** Overwriting part of an array leaves the rest of it. */
  ghost predicate Overwrites(before: seq<byte>, after: seq<byte>, from: nat, to: nat) {
    |after| == |before| && from <= to <= |after| && after[..from] == before[..from] && after[to..] == before[to..]
  }

  lemma TwoWrites(s: seq<byte>, a: seq<byte>, b: seq<byte>, p: nat, t: seq<byte>)
    requires p + |a| + |b| <= |s|
    requires t == (s[..p] + a + s[p + |a|..])[..p + |a|] + b + (s[..p] + a + s[p + |a|..])[p + |a| + |b|..]
    ensures t == s[..p] + (a + b) + s[p + |a| + |b|..]
    ensures forall q | p + |a| + |b| <= q <= |s| :: t[p..q][..|a| + |b|] == a + b && Overwrites(s, t, p, q)
  {
    var u, n := s[..p] + a + s[p + |a|..], p + |a| + |b|;
    assert u[..p + |a|] == s[..p] + a && u[n..] == s[n..];
    assert t == s[..p] + (a + b) + s[n..];
    forall q | n <= q <= |s|
      ensures t[p..q][..|a| + |b|] == a + b && Overwrites(s, t, p, q)
    {
      OneWrite(s, a + b, p, q);
    }
  }

  lemma OneWrite(s: seq<byte>, x: seq<byte>, p: nat, q: nat)
    requires p + |x| <= q <= |s|
    ensures var t := s[..p] + x + s[p + |x|..];
            t[p..q][..|x|] == x && Overwrites(s, t, p, q)
  {
    var t := s[..p] + x + s[p + |x|..];
    assert forall k | 0 <= k < |t| :: t[k] == if p <= k < p + |x| then x[k - p] else s[k];
  }

  lemma WroteArg(s: seq<byte>, t: seq<byte>, p: nat, q: nat, end: nat)
    requires Overwrites(s, t, p, end) && 8 <= p <= q <= end
    ensures t[8..q] == s[8..p] + t[p..q] && t[end..] == s[end..]
  {
  }

  /** Writing the header in front of the arguments. */
  lemma HeaderWrite(s: seq<byte>, h: seq<byte>, p: nat, end: nat)
    requires |h| <= p <= end <= |s|
    ensures var t := s[..0] + h + s[|h|..];
            t[..p] == h + s[|h|..p] && t[end..] == s[end..]
  {
  }

  lemma PlainImage(v: Value, x: seq<byte>)
    requires !v.Handle? && !v.Str? && !v.Arr? && x == Le32(PlainWord(v))
    ensures Image(CView(v), x)
  {
  }

  lemma CountedImage(v: Value, x: seq<byte>)
    requires (v.Str? || v.Arr?) && |x| == WireSize(v)
    requires |Counted(v)| < TWO32 && x[..4 + |Counted(v)|] == Le32(|Counted(v)|) + Counted(v)
    ensures Image(v, x)
  {
  }

  /** The length word and the bytes it counts. */
  method WriteCounted(data: seq<byte>, buffer: array<byte>, p: nat, end: nat) returns (next: Option<nat>)
    requires p + 4 <= end <= buffer.Length && |data| < TWO32
    modifies buffer
    ensures Overwrites(old(buffer[..]), buffer[..], p, end)
    ensures next == if p + 4 + Round4(|data|) <= end then Some(p + 4 + Round4(|data|)) else None
    ensures next.Some? ==> buffer[p..next.value][..4 + |data|] == Le32(|data|) + data
  {
    hide Le32;
    Memcpy(buffer, p, Le32(|data|));
    if p + 4 + 4 * Roundup(|data|) > end {
      return None;
    }
    Memcpy(buffer, p + 4, data);
    TwoWrites(old(buffer[..]), Le32(|data|), data, p, buffer[..]);
    return Some(p + 4 + 4 * Roundup(|data|));
  }

  /** One turn of the loop of `serialize_closure`, for an argument that is not a descriptor:
      writes at `p`, never at or past `end`; `None` is the jump to `overflow`. */
  method WriteArg(v: Value, buffer: array<byte>, p: nat, end: nat) returns (next: Option<nat>)
    requires !v.Handle? && p <= end <= buffer.Length
    requires WireSize(CView(v)) < 0x8000_0000
    modifies buffer
    ensures Overwrites(old(buffer[..]), buffer[..], p, end)
    ensures next == if p + WireSize(CView(v)) <= end then Some(p + WireSize(CView(v))) else None
    ensures next.Some? ==> Image(CView(v), buffer[p..next.value])
  {
    hide Image, Le32, CStr;
    if p + 4 > end {
      return None;
    }
    if v.Str? || v.Arr? {
      next := WriteCounted(Counted(CView(v)), buffer, p, end);
      if next.Some? {
        CountedImage(CView(v), buffer[p..next.value]);
      }
    } else {
      Memcpy(buffer, p, Le32(PlainWord(v)));
      PlainImage(v, buffer[p..p + 4]);
      next := Some(p + 4);
    }
  }

  lemma WireSizesAt(vs: seq<Value>, i: nat)
    requires i < |vs|
    ensures WireSizes(vs[i..]) == WireSize(vs[i]) + WireSizes(vs[i + 1..])
    ensures vs[i].Handle? ==> WireSize(vs[i]) == 0 && Image(vs[i], [])
  {
  }

  lemma NoImages()
    ensures Images([], []) && WireSizes([]) == 0
  {
  }

  /** The loop of `serialize_closure`: where the arguments end, or `None` for the jump to `overflow`. */
  method WriteArgs(c: Closure, buffer: array<byte>, end: nat) returns (next: Option<nat>)
    requires WellKept(c) && 8 <= end <= buffer.Length && 8 + BodySize(c) < 0x8000_0000
    modifies buffer
    ensures next == if 8 + BodySize(c) <= end then Some(8 + BodySize(c)) else None
    ensures next.Some? ==> Images(CViews(c.args), buffer[8..next.value])
    ensures buffer[end..] == old(buffer[end..])
  {
    hide Image, Images, WireSize, WireSizes, Specs, CViews, CView, CStr, Kept, Overwrites, Round4;
    var p, rest := 8, c.sig;
    var n := ArgCount(c.sig);
    ghost var views := CViews(c.args);
    assert views[0..] == views && views[..0] == [] && buffer[8..p] == [];
    NoImages();
    for i := 0 to n
      invariant Specs(rest) == Specs(c.sig)[i..]
      invariant 8 <= p <= end && p + WireSizes(views[i..]) == 8 + BodySize(c)
      invariant Images(views[..i], buffer[8..p])
      invariant buffer[end..] == old(buffer[end..])
    {
      var arg, rest' := GetNextArgument(rest);
      assert Specs(rest') == Specs(rest)[1..] == Specs(c.sig)[i + 1..];
      rest := rest';
      WireSizesAt(views, i);
      assert views[..i + 1] == views[..i] + [views[i]];
      if arg.value.kind == 'h' {
        ImagesSnoc(views[..i], buffer[8..p], views[i], []);
        assert buffer[8..p] + [] == buffer[8..p];
      } else {
        ghost var before := buffer[..];
        next := WriteArg(c.args[i], buffer, p, end);
        WroteArg(before, buffer[..], p, if next.Some? then next.value else p, end);
        if next.None? {
          return;
        }
        ImagesSnoc(views[..i], before[8..p], views[i], buffer[p..next.value]);
        p := next.value;
      }
    }
    assert views[..n] == views && views[n..] == [];
    return Some(p);
  }

  /** `serialize_closure` into `count` words of `buffer`; -1 when they do not suffice. */
  method Serialize(c: Closure, buffer: array<byte>, count: nat) returns (size: int)
    requires WellKept(c) && 4 * count <= buffer.Length
    requires 8 + BodySize(c) < 0x8000_0000
    modifies buffer
    ensures size == if 4 * count >= 8 + BodySize(c) then 8 + BodySize(c) else -1
    ensures exists at :: Spaced(CViews(c.args), at) &&
              size == if 4 * count >= 8 + at[|c.args|] then 8 + at[|c.args|] else -1
    ensures size >= 0 ==> IsMessage(c.sender, c.opcode, CViews(c.args), buffer[..size])
    ensures size >= 0 ==> Written(c.sender, c.opcode, CViews(c.args), buffer[..size])
    ensures buffer[4 * count..] == old(buffer[4 * count..])
  {
    hide Images, WireSizes, Specs, CViews, CView, CStr, Kept, Header, Written, Offset, Spaced, Round4;
    SpacedIs(CViews(c.args), Offsets(CViews(c.args)));
    if count < 2 {
      return -1;
    }
    var end := 4 * count;
    var next := WriteArgs(c, buffer, end);
    if next.None? {
      return -1;
    }
    var p := next.value;
    ghost var before := buffer[..];
    var header := Header(c.sender, c.opcode, p);
    HeaderWrite(before, header, p, end);
    Memcpy(buffer, 0, header);
    MessageWritten(c.sender, c.opcode, CViews(c.args), buffer[..p]);
    return p;
  }

  /** What demarshalling can consume beside the message bytes. */
  ghost function EnvOf(conn: WlConnection, objects: WlMap): Env
    reads conn, objects
  {
    Env(conn.fdInQueue, objects.Words())
  }

  /** The `h` case of `wl_connection_demarshal`. */
  method TakeFd(conn: WlConnection) returns (fd: Option<Fd>)
    requires conn.ValidIn()
    modifies conn`fdInQueue, conn.fdsIn`tail
    ensures conn.ValidIn()
    ensures var q := old(conn.fdInQueue);
            if q == [] then fd == None && conn.fdInQueue == []
            else fd == Some(q[0]) && conn.fdInQueue == q[1..]
  {
    hide Window;
    if conn.fdsIn.tail == conn.fdsIn.head {
      return None;
    }
    FdBytesTake(conn.fdInQueue, 1);
    WordOfLe32(conn.fdInQueue[0]);
    assert FdBytes(conn.fdInQueue)[..4] == Le32(conn.fdInQueue[0]);
    var bytes := conn.fdsIn.Copy(4);
    conn.fdsIn.Consume(4);
    conn.fdInQueue := conn.fdInQueue[1..];
    return Some(Word(bytes));
  }

  /** One turn of the loop of `wl_connection_demarshal` on the copied message: the argument and
      the new position, or `None` for the jump to `err`. */
  method ReadArg(conn: WlConnection, objects: WlMap, arg: ArgSpec, buf: seq<byte>, p: nat, end: nat)
    returns (v: Option<Value>, next: nat)
    requires conn.ValidIn() && IsType(arg.kind) && p <= end <= |buf|
    modifies conn`fdInQueue, conn.fdsIn`tail, objects`client, objects`server
    ensures conn.ValidIn()
    ensures p <= next <= end
    ensures Take(arg, buf[p..end], old(EnvOf(conn, objects))) ==
            if v.Some? then Taken(v.value, next - p, EnvOf(conn, objects)) else Bad
    ensures v.None? ==> EnvOf(conn, objects) == old(EnvOf(conn, objects))
  {
    hide Window, Reserve, FdBytes, Word;
    if arg.kind == 'h' {
      var fd := TakeFd(conn);
      if fd.None? {
        return None, p;
      }
      return Some(Handle(fd.value)), p;
    }
    if p + 4 > end {
      return None, p;
    }
    var w: nat := Word(buf[p..p + 4]);
    next := p + 4;
    SliceOfSlice(buf, p, end, 0, 4);
    match arg.kind {
      case 's' =>
        if w == 0 {
          return Some(Str(None)), next;
        }
        if next + 4 * Roundup(w) > end {
          return None, p;
        }
        var s := buf[next..next + w];
        SliceOfSlice(buf, p, end, 4, 4 + w);
        if s[w - 1] != 0 {
          return None, p;
        }
        return Some(Str(Some(s[..w - 1]))), next + 4 * Roundup(w);
      case 'o' =>
        if w == 0 && !arg.nullable {
          return None, p;
        }
        return Some(Obj(if w == 0 then None else Some(w))), next;
      case 'n' =>
        if w == 0 && !arg.nullable {
          return None, p;
        }
        var ok := objects.ReserveNew(w);
        if !ok {
          return None, p;
        }
        return Some(NewId(w)), next;
      case 'a' =>
        if next + 4 * Roundup(w) > end {
          return None, p;
        }
        SliceOfSlice(buf, p, end, 4, 4 + w);
        return Some(Arr(Some(buf[next..next + w]))), next + 4 * Roundup(w);
      case _ =>
        return Some(Num(w)), next;
    }
  }

  lemma {:induction false} ParseStep(specs: seq<ArgSpec>, b: seq<byte>, env: Env, done: seq<Value>)
    requires specs != []
    ensures ParseArgs(specs, b, env) ==
            var s := Take(specs[0], b, env);
            if s.Bad? then Rejected(env) else Prefixed([s.v], ParseArgs(specs[1..], b[s.used..], s.env))
    ensures forall v: Value, r: Parse :: Prefixed(done, Prefixed([v], r)) == Prefixed(done + [v], r)
  {
  }

  lemma {:induction false} ParseNone(b: seq<byte>, env: Env, done: seq<Value>)
    ensures Prefixed(done, ParseArgs([], b, env)) == Accepted(done, b, env)
    ensures Prefixed([], ParseArgs([], b, env)) == ParseArgs([], b, env)
  {
  }

  function Prefixed(done: seq<Value>, r: Parse): Parse {
    match r
    case Accepted(args, rest, env) => Accepted(done + args, rest, env)
    case Rejected(env) => r
  }

  /** The body of a message of `size` bytes that the demarshaller looks at: whole words only. */
  function BodyOf(msg: seq<byte>): seq<byte>
    requires |msg| >= 8
  {
    msg[8..|msg| / 4 * 4]
  }

  /** A closure that `msg` says, byte by byte, each argument of the kind its signature declares, and no
      object or new id 0 that may not be. */
  ghost predicate ReadFrom(c: Closure, msg: seq<byte>) {
    && |msg| >= 8 && Reads(msg, 0, c.sender) && msg[4] as int + 256 * msg[5] as int == c.opcode
    && (exists at :: Laid(c.args, msg[8..], at))
    && |c.args| == |Specs(c.sig)|
    && forall k | 0 <= k < |c.args| ::
         && Kept(Specs(c.sig)[k], c.args[k]) && c.args[k] !in {Obj(Some(0)), Arr(None)}
         && (c.args[k] in {Obj(None), NewId(0)} ==> Specs(c.sig)[k].nullable)
  }

  lemma FitsKept(spec: ArgSpec, v: Value)
    requires IsType(spec.kind) && Fits(spec, v)
    ensures Kept(spec, v) && v !in {Obj(Some(0)), Arr(None)} && (v in {Obj(None), NewId(0)} ==> spec.nullable)
  {
  }

  lemma {:induction false} SpecsDeclared(sig: string, nullable: bool)
    ensures Declared(Specs(sig, nullable))
  {
    if sig != "" {
      SpecsDeclared(sig[1..], false);
      SpecsDeclared(sig[1..], nullable || sig[0] == '?');
    }
  }

  lemma OpcodeRead(msg: seq<byte>)
    requires |msg| >= 8
    ensures Reads(msg, 0, SenderOf(msg)) && msg[4] as int + 256 * msg[5] as int == OpcodeOf(msg)
  {
    hide Le32;
    var w := Word(msg[4..8]);
    ReadsWord(msg, 0, SenderOf(msg));
    ReadsWord(msg, 4, w);
    Le32OfWord(msg[..4]);
    Le32OfWord(msg[4..8]);
    assert msg[0..4] == msg[..4];
    HalvesRead(msg, 4, w % 65536, w / 65536);
  }

  lemma {:induction false} ParsedReads(sig: string, msg: seq<byte>, env: Env)
    requires |msg| >= 8 && ParseArgs(Specs(sig), BodyOf(msg), env).Accepted?
    ensures ReadFrom(Closure(SenderOf(msg), OpcodeOf(msg), sig, ParseArgs(Specs(sig), BodyOf(msg), env).args), msg)
  {
    hide ParseArgs, Specs, SenderOf, OpcodeOf, Reads, Says, Fits, AbsorbAll, AllFit;
    var parse := ParseArgs(Specs(sig), BodyOf(msg), env);
    SpecsDeclared(sig, false);
    OpcodeRead(msg);
    ParsedImages(Specs(sig), BodyOf(msg), env);
    AllFitAt(Specs(sig), parse.args);
    forall k | 0 <= k < |parse.args|
      ensures var v, spec := parse.args[k], Specs(sig)[k];
              Kept(spec, v) && v !in {Obj(Some(0)), Arr(None)} && (v in {Obj(None), NewId(0)} ==> spec.nullable)
    {
      FitsKept(Specs(sig)[k], parse.args[k]);
    }
    var n := WireSizes(parse.args);
    assert BodyOf(msg)[..n] == msg[8..][..n];
    ImagesLaid(parse.args, msg[8..], n);
  }

  /** `wl_connection_demarshal`: on every path the message leaves the input ring. */
  method Demarshal(conn: WlConnection, size: nat, objects: WlMap, sig: string) returns (c: Option<Closure>)
    requires conn.ValidIn() && 8 <= size <= conn.input.Size()
    modifies conn`fdInQueue, conn.fdsIn`tail, conn.input`tail, objects`client, objects`server
    ensures conn.ValidIn() && conn.input.Contents() == old(conn.input.Contents())[size..]
    ensures var msg, specs := old(conn.input.Contents())[..size], Specs(sig);
            var parse := if |specs| > MAX_ARGS then Rejected(old(EnvOf(conn, objects)))
                         else ParseArgs(specs, BodyOf(msg), old(EnvOf(conn, objects)));
            && EnvOf(conn, objects) == parse.env
            && c == if parse.Rejected? then None else Some(Closure(SenderOf(msg), OpcodeOf(msg), sig, parse.args))
    ensures c.Some? ==> ReadFrom(c.value, old(conn.input.Contents())[..size])
  {
    hide ReadFrom, Window, FdBytes, Word, Take, Specs, ParseArgs;
    var count := ArgCount(sig);
    if count > MAX_ARGS {
      conn.input.Consume(size);
      return None;
    }
    var buf := conn.input.Copy(size);
    var end, p, rest := size / 4 * 4, 8, sig;
    var args: seq<Value> := [];
    ghost var specs, env0 := Specs(sig), EnvOf(conn, objects);
    ghost var whole := ParseArgs(specs, BodyOf(buf), env0);
    for i := 0 to count
      invariant conn.ValidIn() && conn.input.Contents() == old(conn.input.Contents())
      invariant Specs(rest) == specs[i..] && |args| == i && 8 <= p <= end
      invariant whole == Prefixed(args, ParseArgs(specs[i..], buf[p..end], EnvOf(conn, objects)))
    {
      var arg, rest' := GetNextArgument(rest);
      assert specs[i..][1..] == specs[i + 1..] == Specs(rest')  && arg == Some(specs[i..][0]);
      rest := rest';
      ParseStep(specs[i..], buf[p..end], EnvOf(conn, objects), args);
      var v, next := ReadArg(conn, objects, arg.value, buf, p, end);
      if v.None? {
        conn.input.Consume(size);
        return None;
      }
      assert buf[p..end][next - p..] == buf[next..end];
      args := args + [v.value];
      p := next;
    }
    conn.input.Consume(size);
    ParseNone(buf[p..end], EnvOf(conn, objects), args);
    ParsedReads(sig, buf, env0);
    return Some(Closure(Word(buf[..4]), Word(buf[4..8]) % 65536, sig, args));
  }

  lemma {:induction false} FdsInSnoc(vs: seq<Value>, v: Value)
    ensures FdsIn(vs + [v]) == if v.Handle? then FdsIn(vs) + [v.fd] else FdsIn(vs)
  {
    if vs != [] {
      FdsInSnoc(vs[1..], v);
      assert (vs + [v])[1..] == vs[1..] + [v];
    }
  }

  lemma {:induction false} FdsInPrefix(vs: seq<Value>, i: nat)
    requires i <= |vs|
    ensures |FdsIn(vs[..i])| <= |FdsIn(vs)|
  {
    if i > 0 {
      FdsInPrefix(vs[1..], i - 1);
      assert vs[..i][1..] == vs[1..][..i - 1];
    }
  }

  lemma NoFds()
    ensures FdsIn([]) == []
  {
  }

  /** One put of `copy_fds_to_connection`, which began at `start` and has put `fds` so far. */
  method PutOne(conn: WlConnection, fd: Fd, ghost start: Ledger, ghost fds: seq<Fd>) returns (ok: bool)
    requires conn.ValidOut() && conn.out.Loaded(start, fds) && |start.queue| + |fds| < CAP / 4
    modifies conn`wantFlush, conn`out, conn.sock, conn.output`tail, conn.fdsOut, conn.fdsOut.data
    ensures conn.ValidOut()
    ensures ok ==> conn.out.Loaded(start, fds + [fd])
    ensures !ok ==> conn.out.pending != [] && conn.out.written == start.written
    ensures !ok ==> |conn.out.queue| <= |start.queue| + |fds|
    ensures !ok && start.Ready() && |fds| <= MAX_FDS_OUT ==> conn.out.Ready()
    ensures start.pending == [] ==> ok
    ensures conn.sock.Refused() == old(conn.sock.Refused()) + if ok then 0 else 1
    ensures old(conn.Scheduled()) ==> conn.Scheduled()
  {
    hide Ledger.Balanced, Ledger.AfterPosts, Ledger.Loaded, Ledger.Follows, Ledger.Ready, FdBytes, Window;
    hide Socket.Refused, WlConnection.Scheduled;
    ghost var before := conn.out;
    before.LoadedBounds(start, fds);
    ok := conn.PutFd(fd);
    ghost var mid: Ledger :| mid.Follows(before) && conn.out == (if ok then mid.AfterPost(fd) else mid) &&
      (|before.queue| != MAX_FDS_OUT ==> ok && mid == before) &&
      (|before.queue| == MAX_FDS_OUT ==> (ok <==> mid.pending == []));
    mid.FollowsBounds(before);
    if ok {
      mid.LoadedOne(start, before, fds, fd);
    }
  }

  /** `copy_fds_to_connection`. */
  method CopyFdsToConnection(c: Closure, conn: WlConnection) returns (ok: bool)
    requires WellKept(c) && conn.ValidOut() && |conn.out.queue| + |FdsIn(c.args)| <= CAP / 4
    modifies conn`wantFlush, conn`out, conn.sock, conn.output`tail, conn.fdsOut, conn.fdsOut.data
    ensures conn.ValidOut() && |conn.out.queue| <= |old(conn.out).queue| + |FdsIn(c.args)|
    ensures ok ==> conn.out.Loaded(old(conn.out), FdsIn(c.args))
    ensures !ok ==> conn.out.pending != [] && conn.out.written == old(conn.out).written
    ensures !ok && old(conn.out).Ready() && |c.args| <= MAX_FDS_OUT ==> conn.out.Ready()
    ensures old(conn.out).pending == [] ==> ok
    ensures conn.sock.Refused() == old(conn.sock.Refused()) + if ok then 0 else 1
    ensures old(conn.Scheduled()) ==> conn.Scheduled()
  {
    hide Ledger.Balanced, Ledger.Loaded, Ledger.Ready, Specs, FdsIn, FdBytes, Window, Socket.Refused;
    hide WlConnection.Scheduled;
    NoFds();
    var rest := c.sig;
    var count := ArgCount(c.sig);
    conn.out.LoadedNone();
    for i := 0 to count
      invariant conn.ValidOut()
      invariant Specs(rest) == Specs(c.sig)[i..]
      invariant conn.out.Loaded(old(conn.out), FdsIn(c.args[..i]))
      invariant conn.sock.Refused() == old(conn.sock.Refused()) && (old(conn.Scheduled()) ==> conn.Scheduled())
    {
      var arg, rest' := GetNextArgument(rest);
      assert Specs(rest') == Specs(rest)[1..] == Specs(c.sig)[i + 1..];
      rest := rest';
      assert c.args[..i + 1] == c.args[..i] + [c.args[i]];
      FdsInSnoc(c.args[..i], c.args[i]);
      FdsInPrefix(c.args, i + 1);
      if arg.value.kind == 'h' {
        ok := PutOne(conn, c.args[i].fd, old(conn.out), FdsIn(c.args[..i]));
        if !ok {
          return;
        }
      }
    }
    assert c.args[..count] == c.args;
    conn.out.LoadedBounds(old(conn.out), FdsIn(c.args));
    return true;
  }
}
