/** Marshal, serialize, deliver and demarshal: what the receiver gets is what the sender passed. */
module RoundTrip {
  import opened Bytes
  import opened RingBuffer
  import opened Connection
  import opened Signatures
  import opened WlMaps
  import opened Wire
  import opened Closures
  import opened Sending

  /** A closure argument as it arrives: strings up to their NUL, a NULL array as an empty one. */
  function Arriving(v: Value): Value {
    match v
    case Str(Some(s)) => Str(Some(CStr(s)))
    case Arr(None) => Arr(Some([]))
    case _ => v
  }

  function AllArriving(vs: seq<Value>): (r: seq<Value>)
    ensures |r| == |vs|
    ensures forall k | 0 <= k < |vs| :: r[k] == Arriving(vs[k])
  {
    if vs == [] then [] else [Arriving(vs[0])] + AllArriving(vs[1..])
  }

  /** Objects that exist have non-zero ids, as do new ids that are not NULL. */
  predicate RealObject(v: Value) { v.Obj? ==> v.id != Some(0) }

  /** A NULL that its signature does not allow, in a closure. */
  predicate KeptNull(spec: ArgSpec, v: Value) {
    !spec.nullable && (v == Obj(None) || v == NewId(0))
  }

  ghost predicate Deliverable(specs: seq<ArgSpec>, vs: seq<Value>) {
    |vs| == |specs| &&
    forall k | 0 <= k < |vs| :: Kept(specs[k], vs[k]) && RealObject(vs[k]) && !KeptNull(specs[k], vs[k])
  }

  lemma ArrivingImage(spec: ArgSpec, v: Value, x: seq<byte>)
    requires Kept(spec, v) && RealObject(v) && !KeptNull(spec, v)
    ensures WireSize(Arriving(v)) == WireSize(CView(v))
    ensures Image(CView(v), x) ==> Image(Arriving(v), x)
    ensures Fits(spec, Arriving(v))
  {
  }

  lemma {:induction false} ArrivingImages(specs: seq<ArgSpec>, vs: seq<Value>, x: seq<byte>)
    requires Deliverable(specs, vs) && Images(CViews(vs), x)
    ensures Images(AllArriving(vs), x) && AllFit(specs, AllArriving(vs))
    ensures FdsIn(AllArriving(vs)) == FdsIn(vs) && NewIdsIn(AllArriving(vs)) == NewIdsIn(vs)
  {
    if vs != [] {
      var n := WireSize(CView(vs[0]));
      ArrivingImage(specs[0], vs[0], x[..n]);
      ArrivingImages(specs[1..], vs[1..], x[n..]);
    }
  }

  /** Any serialization of a closure, whatever its padding, parses back to its arguments. */
  lemma {:induction false} ClosureRoundTrip(c: Closure, msg: seq<byte>, env: Env, env': Env)
    requires Deliverable(Specs(c.sig), c.args)
    requires IsMessage(c.sender, c.opcode, CViews(c.args), msg)
    requires env.fds == FdsIn(c.args) + env'.fds && ReserveAll(NewIdsIn(c.args), env.ids) == Some(env'.ids)
    ensures ParseArgs(Specs(c.sig), BodyOf(msg), env) == Accepted(AllArriving(c.args), [], env')
    ensures SenderOf(msg) == c.sender && OpcodeOf(msg) == c.opcode % 65536
    ensures SizeOf(msg) == |msg| <==> |msg| < 65536
  {
    hide Images, ParseArgs, ReserveAll, FdsIn, NewIdsIn, CViews, AllArriving, Deliverable;
    hide Word, Header, AllFit, AbsorbAll;
    var specs, body := Specs(c.sig), msg[8..];
    ImagesSize(CViews(c.args), body);
    assert BodyOf(msg) == body;
    ArrivingImages(specs, c.args, body);
    AbsorbIs(AllArriving(c.args), env, env');
    ImagesParse(specs, AllArriving(c.args), body, [], env, env');
    assert body + [] == body;
    HeaderFields(c.sender, c.opcode, |msg|, msg);
  }

  /** What marshalling accepts can be delivered. */
  lemma MarshalledDeliverable(spec: ArgSpec, v: Value, kept: Value, dup: Fd -> Fd)
    requires Marshalled(spec, v, kept, dup) && RealObject(v)
    ensures RealObject(kept) && !KeptNull(spec, kept)
  {
  }

  method Arrive(conn: WlConnection, msg: seq<byte>, fds: seq<Fd>)
    requires conn.ValidIn() && conn.input.Contents() == [] && conn.fdInQueue == []
    requires 1 <= |msg| <= CAP && 4 * |fds| <= CAP
    modifies conn`fdInQueue, conn.input`head, conn.input.data, conn.fdsIn`head, conn.fdsIn.data
    ensures conn.ValidIn() && conn.input.Contents() == msg && conn.fdInQueue == fds
  {
    hide Window, FdBytes, Keep;
    OneRights(CAP - conn.fdsIn.Size(), fds);
    var r := conn.Read(Data(msg, [Rights(fds)]));
  }

  /** Through a receiving connection whose rings are drained but stand anywhere: the message and
      its descriptors arrive by one `recvmsg` and demarshal to the closure that was serialized. */
  method Exchange(c: Closure, conn: WlConnection, objects: WlMap) returns (got: Option<Closure>)
    requires WellKept(c) && |Specs(c.sig)| == |c.args| <= MAX_ARGS
    requires Deliverable(Specs(c.sig), c.args) && MessageSize(c) <= CAP
    requires ReserveAll(NewIdsIn(c.args), objects.Words()).Some?
    requires conn.ValidIn() && conn.input.Contents() == [] && conn.fdInQueue == []
    modifies conn`fdInQueue, conn.input, conn.input.data, conn.fdsIn, conn.fdsIn.data, objects`client, objects`server
    ensures got == Some(Closure(c.sender, c.opcode % 65536, c.sig, AllArriving(c.args)))
    ensures conn.ValidIn() && conn.input.Contents() == [] && conn.fdInQueue == []
    ensures Some(objects.Words()) == ReserveAll(NewIdsIn(c.args), old(objects.Words()))
  {
    hide Window, FdBytes, IsMessage, Deliverable, ReserveAll, FdsIn, NewIdsIn, ParseArgs, WellKept, WireSizes, Specs,
      CViews, AllArriving, Word;
    assert |FdsIn(c.args)| <= MAX_ARGS;
    var words := BufferSize(c);
    var buffer := new byte[4 * words];
    var size := Serialize(c, buffer, words);
    var msg := buffer[..size];
    var fds := FdsIn(c.args);
    ghost var env := Env(fds, objects.Words());
    ghost var env' := Env([], ReserveAll(NewIdsIn(c.args), objects.Words()).value);
    assert fds + [] == fds;
    ClosureRoundTrip(c, msg, env, env');
    Arrive(conn, msg, fds);
    assert msg[..size] == msg;
    got := Demarshal(conn, size, objects, c.sig);
  }

  /** The receiver of a passed argument `v` gets `r`: the number, the id of an object, new or not, the
      string up to its first NUL, the array's bytes, the duplicate of the descriptor. */
  predicate Reaches(spec: ArgSpec, v: Value, dup: Fd -> Fd, r: Value) {
    match v
    case Num(w) => r == Num(w)
    case Obj(id) => r == if spec.kind == 'n' then NewId(if id.None? then 0 else id.value) else Obj(id)
    case Str(None) => r == Str(None)
    case Str(Some(s)) => r.Str? && r.s.Some? && Spells(s, r.s.value)
    case Arr(a) => r == Arr(Some(if a.None? then [] else a.value))
    case Handle(fd) => r == Handle(dup(fd))
    case NewId(_) => false
  }

  lemma StoredReaches(spec: ArgSpec, v: Value, dup: Fd -> Fd)
    requires IsType(spec.kind) && Typed(spec, v)
    ensures Reaches(spec, v, dup, Arriving(Stored(spec, v, dup)))
  {
    if v.Str? && v.s.Some? {
      CStrSpells(v.s.value);
    }
  }

  /** The closure `wl_closure_marshal` makes of its arguments. */
  function ClosureOf(sender: u32, opcode: u32, sig: string, args: seq<Value>, dup: Fd -> Fd): Closure
    requires |args| == |Specs(sig)|
  {
    Closure(sender, opcode, sig, seq(|args|, i requires 0 <= i < |args| => Stored(Specs(sig)[i], args[i], dup)))
  }

  /** From the arguments one side passes to those the other side gets: marshal, serialize, receive,
      demarshal. It fails exactly when marshalling does. */
  method Deliver(sender: u32, opcode: u32, args: seq<Value>, sig: string, dup: Fd -> Fd,
                 conn: WlConnection, objects: WlMap)
    returns (got: Option<Closure>)
    requires AllTyped(Specs(sig), args) && forall v | v in args :: RealObject(v)
    requires var c := ClosureOf(sender, opcode, sig, args, dup);
             MessageSize(c) <= CAP && ReserveAll(NewIdsIn(c.args), objects.Words()).Some?
    requires conn.ValidIn() && conn.input.Contents() == [] && conn.fdInQueue == []
    modifies conn`fdInQueue, conn.input, conn.input.data, conn.fdsIn, conn.fdsIn.data, objects`client, objects`server
    ensures conn.ValidIn() && conn.input.Contents() == [] && conn.fdInQueue == []
    ensures got.Some? <==> |args| <= MAX_ARGS && forall k | 0 <= k < |args| ::
                             Specs(sig)[k].nullable || args[k] !in {Str(None), Obj(None), Arr(None)}
    ensures got.Some? ==>
              && got.value.(args := []) == Closure(sender, opcode % 65536, sig, []) && |got.value.args| == |args|
              && forall k | 0 <= k < |args| :: Reaches(Specs(sig)[k], args[k], dup, got.value.args[k])
  {
    hide Window, FdBytes, ReserveAll, NewIdsIn, Specs, Typed, BadNull, Stored, Kept, RealObject, KeptNull, BodySize;
    hide Reaches;
    var c := Marshal(sender, opcode, args, sig, dup);
    if c.None? {
      return None;
    }
    forall k | 0 <= k < |args|
      ensures c.value.args[k] == Stored(Specs(sig)[k], args[k], dup)
      ensures RealObject(c.value.args[k]) && !KeptNull(Specs(sig)[k], c.value.args[k])
      ensures Reaches(Specs(sig)[k], args[k], dup, Arriving(c.value.args[k]))
    {
      StoredReaches(Specs(sig)[k], args[k], dup);
      MarshalledDeliverable(Specs(sig)[k], args[k], c.value.args[k], dup);
    }
    assert c.value.args == ClosureOf(sender, opcode, sig, args, dup).args;
    got := Exchange(c.value, conn, objects);
  }

  lemma {:induction false} OneRights(room: nat, fds: seq<Fd>)
    requires 4 * |fds| <= room
    ensures Keep(room, [Rights(fds)]) == Received(fds, [], false)
  {
  }

  /** No string holds a NUL. */
  ghost predicate NulFree(args: seq<Value>) {
    forall v | v in args :: v.Str? && v.s.Some? ==> 0 !in v.s.value
  }

  /** A re-encoding of an accepted body that was read to its end, and whose strings hold no NUL,
      has the same size and differs from the original in padding bytes only. */
  lemma {:induction false} CanonicalReencoding(specs: seq<ArgSpec>, body: seq<byte>, env: Env,
                                               args: seq<Value>, env': Env, again: seq<byte>, i: nat)
    requires Declared(specs) && ParseArgs(specs, body, env) == Accepted(args, [], env')
    requires NulFree(args) && Images(CViews(args), again)
    ensures |again| == |body|
    ensures i < |body| && !Padding(args, i) ==> again[i] == body[i]
  {
    ParsedImages(specs, body, env);
    assert body[..WireSizes(args)] == body;
    SameViews(args);
    ImagesSize(args, again);
    if i < |body| {
      ImagesUnique(args, again, body, i);
    }
  }

  lemma {:induction false} SameViews(vs: seq<Value>)
    requires NulFree(vs)
    ensures CViews(vs) == vs
  {
  }

  /** The header words of a message that states its own size are those its reader writes again. */
  lemma HeaderAgain(msg: seq<byte>)
    requires |msg| >= 8 && SizeOf(msg) == |msg|
    ensures Header(SenderOf(msg), OpcodeOf(msg), |msg|) == msg[..8]
  {
    hide Word, Le32;
    Le32OfWord(msg[..4]);
    Le32OfWord(msg[4..8]);
    assert msg[..8] == msg[..4] + msg[4..8];
  }

  /** What demarshalling accepts is kept as marshalling keeps it. */
  lemma {:induction false} FittingKept(specs: seq<ArgSpec>, args: seq<Value>)
    requires Declared(specs) && AllFit(specs, args)
    ensures |args| == |specs| && forall k | 0 <= k < |args| :: Kept(specs[k], args[k])
  {
    if specs != [] {
      FittingKept(specs[1..], args[1..]);
    }
  }

  lemma {:induction false} ViewsNoLarger(vs: seq<Value>)
    ensures WireSizes(CViews(vs)) <= WireSizes(vs)
  {
    if vs != [] {
      ViewsNoLarger(vs[1..]);
      assert CViews(vs)[1..] == CViews(vs[1..]);
      ViewNoLarger(vs[0]);
    }
  }

  lemma ViewNoLarger(v: Value)
    ensures WireSize(CView(v)) <= WireSize(v)
  {
  }

  /** What was accepted can be serialized. */
  lemma {:induction false} AcceptedKept(sig: string, body: seq<byte>, env: Env, c: Closure)
    requires ParseArgs(Specs(sig), body, env).Accepted? && c.sig == sig
    requires c.args == ParseArgs(Specs(sig), body, env).args
    ensures WellKept(c) && MessageSize(c) <= 8 + |body|
  {
    hide ParseArgs, Specs, Kept, CViews, Image;
    SpecsDeclared(sig, false);
    ParsedImages(Specs(sig), body, env);
    FittingKept(Specs(sig), c.args);
    ViewsNoLarger(c.args);
  }

  /** And its serialization is the message again, but for padding. */
  lemma {:induction false} AcceptedAgain(sig: string, msg: seq<byte>, env: Env, c: Closure, again: seq<byte>, i: nat)
    requires |msg| >= 8 && SizeOf(msg) == |msg| == MessageSize(c) && i < |msg|
    requires c == Closure(SenderOf(msg), OpcodeOf(msg), sig, c.args) && NulFree(c.args)
    requires ParseArgs(Specs(sig), BodyOf(msg), env).Accepted? && c.args == ParseArgs(Specs(sig), BodyOf(msg), env).args
    requires IsMessage(c.sender, c.opcode, CViews(c.args), again)
    ensures |again| == |msg| && (i < 8 || !Padding(c.args, i - 8) ==> again[i] == msg[i])
  {
    hide ParseArgs, Specs, CViews, Images, Image, Padding, Word, Le32, Header, SenderOf, OpcodeOf, SizeOf;
    var parse := ParseArgs(Specs(sig), BodyOf(msg), env);
    SpecsDeclared(sig, false);
    SameViews(c.args);
    ParsedImages(Specs(sig), BodyOf(msg), env);
    ImagesSize(CViews(c.args), again[8..]);
    assert BodyOf(msg) == msg[8..] && parse.rest == [];
    if i >= 8 {
      CanonicalReencoding(Specs(sig), msg[8..], env, c.args, parse.env, again[8..], i - 8);
      assert again[8..][i - 8] == again[i] && msg[8..][i - 8] == msg[i];
    } else {
      HeaderAgain(msg);
      assert again[..8][i] == again[i] && msg[..8][i] == msg[i];
    }
  }

  /** Reading a message out of a connection and serializing what was read. When the header states
      the message's size, the arguments account for all of it and no string holds a NUL, the bytes
      are the same again, header included, except for padding. */
  method Reencode(conn: WlConnection, size: nat, objects: WlMap, sig: string)
    returns (c: Option<Closure>, again: seq<byte>)
    requires conn.ValidIn() && 8 <= size <= conn.input.Size()
    modifies conn`fdInQueue, conn.fdsIn`tail, conn.input`tail, objects`client, objects`server
    ensures conn.ValidIn() && conn.input.Contents() == old(conn.input.Contents())[size..]
    ensures c.Some? <==>
              && |Specs(sig)| <= MAX_ARGS
              && ParseArgs(Specs(sig), BodyOf(old(conn.input.Contents())[..size]), old(EnvOf(conn, objects))).Accepted?
    ensures var msg := old(conn.input.Contents())[..size];
            c.Some? && SizeOf(msg) == size == MessageSize(c.value) && NulFree(c.value.args) ==>
              && |again| == size
              && forall i | 0 <= i < size && (i < 8 || !Padding(c.value.args, i - 8)) :: again[i] == msg[i]
  {
    hide Window, FdBytes, ParseArgs, Specs, CViews, IsMessage, Padding, WellKept, SizeOf, SenderOf, OpcodeOf, NulFree;
    hide WireSizes;
    again := [];
    ghost var msg, env := conn.input.Contents()[..size], EnvOf(conn, objects);
    c := Demarshal(conn, size, objects, sig);
    if c.None? {
      return;
    }
    AcceptedKept(sig, BodyOf(msg), env, c.value);
    var words := BufferSize(c.value);
    var buffer := new byte[4 * words];
    var n := Serialize(c.value, buffer, words);
    again := buffer[..n];
    if SizeOf(msg) == size == MessageSize(c.value) && NulFree(c.value.args) {
      forall i | 0 <= i < size
        ensures |again| == size && (i < 8 || !Padding(c.value.args, i - 8) ==> again[i] == msg[i])
      {
        AcceptedAgain(sig, msg, env, c.value, again, i);
      }
    }
  }
}
