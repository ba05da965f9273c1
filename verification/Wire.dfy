/** The Wayland wire format: which bytes describe which arguments, independently of
    the code that writes and reads them, and a parser proved to invert it exactly. */
module Wire {
  import opened Bytes
  import opened Signatures
  import opened WlMaps

  /** One message argument. Strings are their bytes without the final NUL. */
  datatype Value =
    | Num(w: u32)
    | Str(s: Option<seq<byte>>)
    | Obj(id: Option<u32>)
    | NewId(n: u32)
    | Arr(a: Option<seq<byte>>)
    | Handle(fd: Fd)

  /** What a length word counts: a string with its NUL, an array, or nothing for NULL. */
  function Counted(v: Value): seq<byte>
    requires v.Str? || v.Arr?
  {
    match v
    case Str(None) => []
    case Str(Some(s)) => s + [0]
    case Arr(None) => []
    case Arr(Some(a)) => a
  }

  function PlainWord(v: Value): u32
    requires v.Num? || v.Obj? || v.NewId?
  {
    match v
    case Num(w) => w
    case Obj(None) => 0
    case Obj(Some(id)) => id
    case NewId(n) => n
  }

  /** Bytes a value takes on the wire; descriptors travel beside it. */
  function WireSize(v: Value): (n: nat)
    ensures n % 4 == 0
  {
    if v.Handle? then 0
    else if v.Str? || v.Arr? then 4 + Round4(|Counted(v)|)
    else 4
  }

  /** `b` is the wire image of `v`; padding bytes are free. */
  predicate Image(v: Value, b: seq<byte>) {
    && |b| == WireSize(v)
    && if v.Handle? then true
       else if v.Str? || v.Arr? then
         var data := Counted(v);
         |data| < TWO32 && b[..4] == Le32(|data|) && b[4..4 + |data|] == data
       else b == Le32(PlainWord(v))
  }

  function WireSizes(vs: seq<Value>): (n: nat)
    ensures n % 4 == 0
  {
    if vs == [] then 0 else WireSize(vs[0]) + WireSizes(vs[1..])
  }

  /** `b` is the wire image of the arguments one after the other. */
  predicate Images(vs: seq<Value>, b: seq<byte>) {
    if vs == [] then b == []
    else
      var n := WireSize(vs[0]);
      n <= |b| && Image(vs[0], b[..n]) && Images(vs[1..], b[n..])
  }

  /** Where each argument starts, and the last one ends: always on a multiple of four. A descriptor takes
      no place; every other argument takes a word, and counted bytes follow theirs, with fewer than four
      bytes of padding behind them. */
  ghost predicate Spaced(vs: seq<Value>, at: seq<nat>) {
    && |at| == |vs| + 1 && at[0] == 0
    && (forall k | 0 <= k <= |vs| :: at[k] % 4 == 0)
    && (forall k | 0 <= k < |vs| :: Room(vs[k], at[k], at[k + 1]))
  }

  ghost predicate Room(v: Value, p: nat, q: nat) {
    match v
    case Handle(_) => q == p
    case Str(Some(s)) => p + 4 + |s| + 1 <= q < p + 4 + |s| + 1 + 4
    case Arr(Some(a)) => p + 4 + |a| <= q < p + 4 + |a| + 4
    case _ => q == p + 4
  }

  /** The four bytes at `p`, the lowest first, are the number `w`. */
  ghost predicate Reads(b: seq<byte>, p: nat, w: nat) {
    p + 4 <= |b| && b[p] as int + 256 * b[p + 1] as int + 65536 * b[p + 2] as int + 16777216 * b[p + 3] as int == w
  }

  /** The bytes of `b` from `p` on say `v`. */
  ghost predicate Says(v: Value, b: seq<byte>, p: nat) {
    match v
    case Handle(_) => true
    case Num(w) => Reads(b, p, w)
    case Obj(id) => Reads(b, p, if id.None? then 0 else id.value)
    case NewId(n) => Reads(b, p, n)
    case Str(None) => Reads(b, p, 0)
    case Arr(None) => Reads(b, p, 0)
    case Str(Some(s)) => p + 4 + |s| < |b| && Reads(b, p, |s| + 1) && b[p + 4..p + 4 + |s|] == s && b[p + 4 + |s|] == 0
    case Arr(Some(a)) => p + 4 + |a| <= |b| && Reads(b, p, |a|) && b[p + 4..p + 4 + |a|] == a
  }

  /** The arguments lie in `b` one after the other, at these places. */
  ghost predicate Laid(vs: seq<Value>, b: seq<byte>, at: seq<nat>) {
    Spaced(vs, at) && at[|vs|] <= |b| && forall k | 0 <= k < |vs| :: Says(vs[k], b, at[k])
  }

  lemma ReadsWord(b: seq<byte>, p: nat, w: u32)
    requires p + 4 <= |b|
    ensures Reads(b, p, w) <==> b[p..p + 4] == Le32(w)
  {
    var x := b[p..p + 4];
    WordOfLe32(w);
    Le32OfWord(x);
    assert x[0] == b[p] && x[1] == b[p + 1] && x[2] == b[p + 2] && x[3] == b[p + 3];
  }

  lemma CountedReads(data: seq<byte>, b: seq<byte>, p: nat, q: nat)
    requires p <= q <= |b| && p % 4 == 0 && |data| < TWO32
    ensures var x := b[p..q];
            (|x| == 4 + Round4(|data|) && x[..4] == Le32(|data|) && x[4..4 + |data|] == data) <==>
            (&& q % 4 == 0 && p + 4 + |data| <= q < p + 4 + |data| + 4
             && Reads(b, p, |data|) && b[p + 4..p + 4 + |data|] == data)
  {
    hide Le32, Reads;
    if p + 4 + |data| <= q {
      ReadsWord(b, p, |data|);
      SliceOfSlice(b, p, q, 0, 4);
      SliceOfSlice(b, p, q, 4, 4 + |data|);
    }
  }

  lemma PlainReads(w: u32, b: seq<byte>, p: nat, q: nat)
    requires p <= q <= |b| && p % 4 == 0
    ensures b[p..q] == Le32(w) <==> q == p + 4 && Reads(b, p, w)
  {
    hide Le32, Reads;
    if p + 4 <= |b| {
      ReadsWord(b, p, w);
    }
  }

  /** One image, in terms of single bytes. */
  lemma ImageSays(v: Value, b: seq<byte>, p: nat, q: nat)
    requires p <= q <= |b| && p % 4 == 0
    ensures Image(v, b[p..q]) <==> q % 4 == 0 && Room(v, p, q) && Says(v, b, p)
  {
    match v {
      case Str(Some(s)) => StringSays(s, b, p, q);
      case Arr(Some(a)) => ArraySays(a, b, p, q);
      case Str(None) => PlainSays(v, b, p, q);
      case Arr(None) => PlainSays(v, b, p, q);
      case Handle(_) =>
      case _ => PlainSays(v, b, p, q);
    }
  }

  lemma StringSays(s: seq<byte>, b: seq<byte>, p: nat, q: nat)
    requires p <= q <= |b| && p % 4 == 0
    ensures var v := Str(Some(s)); Image(v, b[p..q]) <==> q % 4 == 0 && Room(v, p, q) && Says(v, b, p)
  {
    hide Le32, Reads, Roundup, Round4;
    if |s| + 1 < TWO32 {
      CountedReads(s + [0], b, p, q);
    } else {
      TooLong(b, p, |s| + 1);
    }
    if p + 4 + |s| < |b| {
      LastApart(b, p + 4, s, 0);
    }
  }

  lemma ArraySays(a: seq<byte>, b: seq<byte>, p: nat, q: nat)
    requires p <= q <= |b| && p % 4 == 0
    ensures var v := Arr(Some(a)); Image(v, b[p..q]) <==> q % 4 == 0 && Room(v, p, q) && Says(v, b, p)
  {
    hide Le32, Reads, Roundup, Round4;
    if |a| < TWO32 {
      CountedReads(a, b, p, q);
    } else {
      TooLong(b, p, |a|);
    }
  }

  lemma PlainSays(v: Value, b: seq<byte>, p: nat, q: nat)
    requires p <= q <= |b| && p % 4 == 0 && !v.Handle?
    requires (v.Str? ==> v.s.None?) && (v.Arr? ==> v.a.None?)
    ensures Image(v, b[p..q]) <==> q % 4 == 0 && Room(v, p, q) && Says(v, b, p)
  {
    hide Le32, Reads, Roundup;
    if v.Str? || v.Arr? {
      PlainReads(0, b, p, q);
      CountedReads([], b, p, q);
    } else {
      PlainReads(PlainWord(v), b, p, q);
    }
  }

  lemma LastApart(b: seq<byte>, p: nat, s: seq<byte>, c: byte)
    requires p + |s| < |b|
    ensures b[p..p + |s| + 1] == s + [c] <==> b[p..p + |s|] == s && b[p + |s|] == c
  {
    var x := b[p..p + |s| + 1];
    assert x[..|s|] == b[p..p + |s|] && x[|s|] == b[p + |s|] && x == x[..|s|] + [x[|s|]];
    assert (s + [c])[..|s|] == s && (s + [c])[|s|] == c;
  }

  lemma TooLong(b: seq<byte>, p: nat, n: nat)
    requires n >= TWO32
    ensures !Reads(b, p, n)
  {
  }

  /** What a receiver may make of an argument declared `spec`. */
  predicate Fits(spec: ArgSpec, v: Value) {
    match spec.kind
    case 's' => v.Str?
    case 'o' => v.Obj? && v.id != Some(0) && (v.id.None? ==> spec.nullable)
    case 'n' => v.NewId? && (v.n == 0 ==> spec.nullable)
    case 'a' => v.Arr? && v.a.Some?
    case 'h' => v.Handle?
    case _ => v.Num?
  }

  predicate AllFit(specs: seq<ArgSpec>, vs: seq<Value>) {
    if specs == [] then vs == []
    else vs != [] && Fits(specs[0], vs[0]) && AllFit(specs[1..], vs[1..])
  }

  /** What a receiver consumes besides bytes: queued descriptors and its object map. */
  datatype Env = Env(fds: seq<Fd>, ids: View)

  function Absorb(v: Value, env: Env): Option<Env> {
    match v
    case Handle(fd) => if env.fds != [] && env.fds[0] == fd then Some(env.(fds := env.fds[1..])) else None
    case NewId(n) => (match Reserve(env.ids, n) case None => None case Some(ids) => Some(env.(ids := ids)))
    case _ => Some(env)
  }

  function AbsorbAll(vs: seq<Value>, env: Env): Option<Env> {
    if vs == [] then Some(env)
    else match Absorb(vs[0], env)
         case None => None
         case Some(env') => AbsorbAll(vs[1..], env')
  }

  /** One argument read off the front of `b`: its value, the bytes it took, what is left of the environment. */
  datatype Reading = Taken(v: Value, used: nat, env: Env) | Bad

  function TakeCounted(b: seq<byte>): Option<seq<byte>>
    ensures TakeCounted(b).Some? ==> 4 + Round4(|TakeCounted(b).value|) <= |b|
  {
    if |b| < 4 || 4 + Round4(Word(b[..4])) > |b| then None else Some(b[4..4 + Word(b[..4])])
  }

  function Take(spec: ArgSpec, b: seq<byte>, env: Env): (r: Reading)
    ensures r.Taken? ==> r.used <= |b| && r.used == WireSize(r.v)
  {
    if spec.kind == 'h' then
      if env.fds == [] then Bad else Taken(Handle(env.fds[0]), 0, env.(fds := env.fds[1..]))
    else if |b| < 4 then Bad
    else
      var w := Word(b[..4]);
      match spec.kind
      case 's' =>
        if w == 0 then Taken(Str(None), 4, env)
        else (match TakeCounted(b)
              case None => Bad
              case Some(t) =>
                if t[|t| - 1] != 0 then Bad
                else Taken(Str(Some(t[..|t| - 1])), 4 + Round4(|t|), env))
      case 'a' =>
        (match TakeCounted(b) case None => Bad case Some(t) => Taken(Arr(Some(t)), 4 + Round4(|t|), env))
      case 'o' =>
        if w == 0 && !spec.nullable then Bad else Taken(Obj(if w == 0 then None else Some(w)), 4, env)
      case 'n' =>
        if w == 0 && !spec.nullable then Bad
        else (match Reserve(env.ids, w) case None => Bad case Some(ids) => Taken(NewId(w), 4, env.(ids := ids)))
      case _ => Taken(Num(w), 4, env)
  }

  /** The arguments of a whole message body, or the environment left behind by the failing read. */
  datatype Parse = Accepted(args: seq<Value>, rest: seq<byte>, env: Env) | Rejected(env: Env)

  function ParseArgs(specs: seq<ArgSpec>, b: seq<byte>, env: Env): Parse {
    if specs == [] then Accepted([], b, env)
    else match Take(specs[0], b, env)
         case Bad => Rejected(env)
         case Taken(v, used, env') =>
           match ParseArgs(specs[1..], b[used..], env')
           case Rejected(e) => Rejected(e)
           case Accepted(args, rest, e) => Accepted([v] + args, rest, e)
  }

  lemma ImageOfCounted(v: Value, x: seq<byte>, rest: seq<byte>)
    requires (v.Str? || v.Arr?) && Image(v, x)
    ensures TakeCounted(x + rest) == Some(Counted(v)) && Word((x + rest)[..4]) == |Counted(v)|
  {
    var data := Counted(v);
    WordOfLe32(|data|);
    assert (x + rest)[..4] == x[..4];
    assert (x + rest)[4..4 + |data|] == x[4..4 + |data|];
  }

  /** Reading back one image. */
  lemma TakeImage(spec: ArgSpec, v: Value, x: seq<byte>, rest: seq<byte>, env: Env)
    requires IsType(spec.kind) && Fits(spec, v) && Image(v, x) && Absorb(v, env).Some?
    ensures Take(spec, x + rest, env) == Taken(v, |x|, Absorb(v, env).value)
  {
    if v.Str? || v.Arr? {
      ImageOfCounted(v, x, rest);
    } else if !v.Handle? {
      WordOfLe32(PlainWord(v));
      assert (x + rest)[..4] == x;
    } else {
      assert x + rest == rest;
    }
  }

  /** Whatever is read was there as an image. */
  lemma TakenIsImage(spec: ArgSpec, b: seq<byte>, env: Env)
    requires IsType(spec.kind) && Take(spec, b, env).Taken?
    ensures var Taken(v, used, env') := Take(spec, b, env);
            Fits(spec, v) && Image(v, b[..used]) && Absorb(v, env) == Some(env')
  {
    var Taken(v, used, env') := Take(spec, b, env);
    var x := b[..used];
    if v.Str? || v.Arr? {
      Le32OfWord(b[..4]);
      assert x[..4] == b[..4];
      if TakeCounted(b).Some? {
        SliceOfSlice(b, 0, used, 4, 4 + Word(b[..4]));
        assert b[0..used] == x;
      }
    } else if !v.Handle? {
      Le32OfWord(b[..4]);
    }
  }

  /** `args` is what `b` says under `specs`, with nothing left over, turning `env` into `env'`. */
  ghost predicate Describes(specs: seq<ArgSpec>, args: seq<Value>, b: seq<byte>, env: Env, env': Env) {
    AllFit(specs, args) && Images(args, b) && AbsorbAll(args, env) == Some(env')
  }

  ghost predicate Declared(specs: seq<ArgSpec>) {
    forall k | 0 <= k < |specs| :: IsType(specs[k].kind)
  }

  lemma {:induction false} ImagesParse(specs: seq<ArgSpec>, args: seq<Value>, x: seq<byte>, rest: seq<byte>,
                                       env: Env, env': Env)
    requires Declared(specs) && Describes(specs, args, x, env, env')
    ensures ParseArgs(specs, x + rest, env) == Accepted(args, rest, env')
  {
    if specs == [] {
      assert x + rest == rest;
    } else {
      var n := WireSize(args[0]);
      TakeImage(specs[0], args[0], x[..n], x[n..] + rest, env);
      assert x + rest == x[..n] + (x[n..] + rest);
      ImagesParse(specs[1..], args[1..], x[n..], rest, Absorb(args[0], env).value, env');
      assert (x + rest)[n..] == x[n..] + rest;
      assert [args[0]] + args[1..] == args;
    }
  }

  lemma {:induction false} ParsedImages(specs: seq<ArgSpec>, b: seq<byte>, env: Env)
    requires Declared(specs) && ParseArgs(specs, b, env).Accepted?
    ensures var Accepted(args, rest, env') := ParseArgs(specs, b, env);
            var n := WireSizes(args);
            n <= |b| && rest == b[n..] && Describes(specs, args, b[..n], env, env')
  {
    hide Image, Fits, Take, Absorb, WireSize;
    if specs != [] {
      TakenIsImage(specs[0], b, env);
      var Taken(v, used, env1) := Take(specs[0], b, env);
      ParsedImages(specs[1..], b[used..], env1);
      var Accepted(args, rest, env') := ParseArgs(specs, b, env);
      var n := WireSizes(args);
      assert args[1..] == ParseArgs(specs[1..], b[used..], env1).args;
      assert b[..n][..used] == b[..used] && b[..n][used..] == b[used..][..n - used];
    }
  }

  /** The parser accepts with arguments `args` exactly when a prefix of the body is their wire
      image, they fit the signature, their descriptors head the queue and their new ids can be
      reserved one after the other. */
  lemma {:induction false} ParseExact(specs: seq<ArgSpec>, b: seq<byte>, env: Env, args: seq<Value>,
                                      rest: seq<byte>, env': Env)
    requires Declared(specs)
    ensures ParseArgs(specs, b, env) == Accepted(args, rest, env') <==>
            WireSizes(args) <= |b| && rest == b[WireSizes(args)..] &&
            Describes(specs, args, b[..WireSizes(args)], env, env')
  {
    hide ParseArgs, Describes, WireSizes;
    var n := WireSizes(args);
    if ParseArgs(specs, b, env) == Accepted(args, rest, env') {
      ParsedImages(specs, b, env);
    }
    if n <= |b| && rest == b[n..] && Describes(specs, args, b[..n], env, env') {
      assert b == b[..n] + rest;
      ImagesParse(specs, args, b[..n], rest, env, env');
    }
  }

  function FdsIn(vs: seq<Value>): (fds: seq<Fd>)
    ensures |fds| <= |vs|
  {
    if vs == [] then [] else (if vs[0].Handle? then [vs[0].fd] else []) + FdsIn(vs[1..])
  }

  function NewIdsIn(vs: seq<Value>): seq<u32> {
    if vs == [] then [] else (if vs[0].NewId? then [vs[0].n] else []) + NewIdsIn(vs[1..])
  }

  function ReserveAll(ids: seq<u32>, v: View): Option<View> {
    if ids == [] then Some(v)
    else match Reserve(v, ids[0])
         case None => None
         case Some(v') => ReserveAll(ids[1..], v')
  }

  /** What a message takes from its receiver: its descriptors off the front of the queue, in
      order, and one reservation per new id, in order. */
  lemma {:induction false} AbsorbIs(vs: seq<Value>, env: Env, env': Env)
    ensures AbsorbAll(vs, env) == Some(env') <==>
            env.fds == FdsIn(vs) + env'.fds && ReserveAll(NewIdsIn(vs), env.ids) == Some(env'.ids)
  {
    hide Reserve, FdsIn, NewIdsIn;
    if vs == [] {
      TakesNone();
      assert [] + env'.fds == env'.fds;
    } else {
      TakesCons(vs);
      var v, tail := vs[0], vs[1..];
      match v
      case Handle(fd) =>
        assert [fd] + FdsIn(tail) + env'.fds == [fd] + (FdsIn(tail) + env'.fds);
        if env.fds == [] {
        } else if env.fds[0] == fd {
          assert env.fds == [fd] + env.fds[1..];
          AbsorbIs(tail, env.(fds := env.fds[1..]), env');
        } else {
          assert env.fds[0] != ([fd] + (FdsIn(tail) + env'.fds))[0];
        }
      case NewId(n) =>
        if Reserve(env.ids, n).Some? {
          AbsorbIs(tail, env.(ids := Reserve(env.ids, n).value), env');
        }
      case _ =>
        AbsorbIs(tail, env, env');
    }
  }

  lemma TakesNone()
    ensures FdsIn([]) == [] && NewIdsIn([]) == []
  {
  }

  lemma {:induction false} TakesCons(vs: seq<Value>)
    requires vs != []
    ensures FdsIn(vs) == if vs[0].Handle? then [vs[0].fd] + FdsIn(vs[1..]) else FdsIn(vs[1..])
    ensures NewIdsIn(vs) == if vs[0].NewId? then [vs[0].n] + NewIdsIn(vs[1..]) else NewIdsIn(vs[1..])
  {
  }

  lemma {:induction false} ImagesSize(vs: seq<Value>, b: seq<byte>)
    requires Images(vs, b)
    ensures |b| == WireSizes(vs)
  {
    if vs != [] {
      ImagesSize(vs[1..], b[WireSize(vs[0])..]);
    }
  }

  lemma ImageSize(v: Value, x: seq<byte>)
    requires Image(v, x)
    ensures |x| == WireSize(v)
  {
  }

  lemma {:induction false} ImagesNone(b: seq<byte>)
    ensures Images([], b) <==> b == []
  {
  }

  lemma {:induction false} ImagesCons(vs: seq<Value>, b: seq<byte>)
    requires vs != []
    ensures var n := WireSize(vs[0]);
            Images(vs, b) <==> n <= |b| && Image(vs[0], b[..n]) && Images(vs[1..], b[n..])
  {
  }

  lemma {:induction false} ImagesSnoc(vs: seq<Value>, b: seq<byte>, v: Value, x: seq<byte>)
    requires Images(vs, b) && Image(v, x)
    ensures Images(vs + [v], b + x)
  {
    hide Image, Images, WireSize;
    ImageSize(v, x);
    if vs == [] {
      ImagesNone(b);
      ImagesNone(x[|x|..]);
      assert b + x == x == x[..|x|] && vs + [v] == [v] && [v][1..] == [];
      ImagesCons([v], x);
    } else {
      var n := WireSize(vs[0]);
      ImagesCons(vs, b);
      ImagesSnoc(vs[1..], b[n..], v, x);
      assert (vs + [v])[1..] == vs[1..] + [v];
      assert (b + x)[..n] == b[..n] && (b + x)[n..] == b[n..] + x;
      ImagesCons(vs + [v], b + x);
    }
  }

  /** The byte where the image of argument `k` starts. */
  function Offset(vs: seq<Value>, k: nat): nat
    requires k <= |vs|
  {
    WireSizes(vs[..k])
  }

  lemma {:induction false} OffsetNext(vs: seq<Value>, k: nat)
    requires k < |vs|
    ensures Offset(vs, 0) == 0 && Offset(vs, k + 1) == Offset(vs, k) + WireSize(vs[k])
  {
    hide WireSize;
    assert vs[..k + 1][1..] == vs[1..][..k];
    if k == 0 {
      assert vs[..0] == [] && vs[..1] == [vs[0]];
    } else {
      OffsetNext(vs[1..], k - 1);
      assert vs[..k][1..] == vs[1..][..k - 1];
    }
  }

  lemma {:induction false} ImageAt(vs: seq<Value>, body: seq<byte>, k: nat)
    requires Images(vs, body) && k < |vs|
    ensures Offset(vs, k + 1) == Offset(vs, k) + WireSize(vs[k]) <= |body|
    ensures Image(vs[k], body[Offset(vs, k)..Offset(vs, k + 1)])
  {
    hide Image, WireSize;
    var n := WireSize(vs[0]);
    assert vs[..k + 1][1..] == vs[1..][..k];
    if k == 0 {
      assert vs[..0] == [] && vs[..1] == [vs[0]];
    } else {
      ImageAt(vs[1..], body[n..], k - 1);
      assert vs[..k][1..] == vs[1..][..k - 1];
      var i, j := Offset(vs[1..], k - 1), Offset(vs[1..], k);
      SliceOfSlice(body, n, |body|, i, j);
      assert body[n..] == body[n..|body|] && vs[1..][k - 1] == vs[k];
      assert Offset(vs, k) == n + i && Offset(vs, k + 1) == n + j;
    }
  }

  /** All those places, and the end of the last. */
  function Offsets(vs: seq<Value>): (at: seq<nat>)
    ensures |at| == |vs| + 1
  {
    seq(|vs| + 1, k requires 0 <= k <= |vs| => Offset(vs, k))
  }

  lemma RoomIs(v: Value, p: nat, q: nat)
    requires p % 4 == 0
    ensures q % 4 == 0 && Room(v, p, q) <==> q == p + WireSize(v)
  {
  }

  /** They are the places the layout rules leave. */
  lemma {:induction false} SpacedIs(vs: seq<Value>, at: seq<nat>)
    ensures Spaced(vs, at) <==> at == Offsets(vs)
    ensures Offsets(vs)[|vs|] == WireSizes(vs)
  {
    hide Offset, Room, WireSize, WireSizes;
    assert vs[..|vs|] == vs;
    OffsetStart(vs);
    OffsetEnd(vs);
    if at == Offsets(vs) {
      forall k | 0 <= k < |vs|
        ensures Room(vs[k], at[k], at[k + 1])
      {
        OffsetNext(vs, k);
        OffsetEven(vs, k);
        RoomIs(vs[k], at[k], at[k + 1]);
      }
      forall k | 0 <= k <= |vs|
        ensures at[k] % 4 == 0
      {
        OffsetEven(vs, k);
      }
    }
    if Spaced(vs, at) {
      for k := 0 to |vs|
        invariant forall i | 0 <= i <= k :: at[i] == Offset(vs, i)
      {
        OffsetNext(vs, k);
        RoomIs(vs[k], at[k], at[k + 1]);
      }
    }
  }

  lemma OffsetStart(vs: seq<Value>)
    ensures Offset(vs, 0) == 0
  {
    assert vs[..0] == [];
  }

  lemma {:induction false} OffsetEnd(vs: seq<Value>)
    ensures Offset(vs, |vs|) == WireSizes(vs)
  {
    assert vs[..|vs|] == vs;
  }

  lemma OffsetEven(vs: seq<Value>, k: nat)
    requires k <= |vs|
    ensures Offset(vs, k) % 4 == 0
  {
  }

  /** The images of arguments are exactly their bytes in such places. */
  lemma {:induction false} ImagesLaid(vs: seq<Value>, b: seq<byte>, n: nat)
    requires n <= |b|
    ensures Images(vs, b[..n]) <==> exists at :: Laid(vs, b, at) && at[|vs|] == n
  {
    hide Images, Says, WireSizes, Offset, Room;
    if Images(vs, b[..n]) {
      var at := Offsets(vs);
      SpacedIs(vs, at);
      ImagesSize(vs, b[..n]);
      forall k | 0 <= k < |vs|
        ensures Says(vs[k], b, at[k])
      {
        ImageAt(vs, b[..n], k);
        OffsetEven(vs, k);
        assert b[..n][at[k]..at[k + 1]] == b[at[k]..at[k + 1]];
        ImageSays(vs[k], b, at[k], at[k + 1]);
      }
      assert Laid(vs, b, at) && at[|vs|] == n;
    }
    if at :| Laid(vs, b, at) && at[|vs|] == n {
      LaidImages(vs, b, at, 0);
      SpacedIs(vs, at);
      OffsetStart(vs);
      assert vs[0..] == vs && b[0..n] == b[..n];
    }
  }

  lemma {:induction false} LaidImages(vs: seq<Value>, b: seq<byte>, at: seq<nat>, k: nat)
    requires Laid(vs, b, at) && k <= |vs|
    ensures at[k] <= at[|vs|] && Images(vs[k..], b[at[k]..at[|vs|]])
    decreases |vs| - k
  {
    hide Images, Image, Says, Room, Offset, WireSize;
    if k == |vs| {
      ImagesNone([]);
      assert vs[k..] == [] && b[at[k]..at[|vs|]] == [];
    } else {
      LaidImages(vs, b, at, k + 1);
      RoomIs(vs[k], at[k], at[k + 1]);
      ImageSays(vs[k], b, at[k], at[k + 1]);
      var x := b[at[k]..at[|vs|]];
      var m := at[k + 1] - at[k];
      assert x[..m] == b[at[k]..at[k + 1]] && x[m..] == b[at[k + 1]..at[|vs|]];
      assert vs[k..][0] == vs[k] && vs[k..][1..] == vs[k + 1..];
      ImagesCons(vs[k..], x);
    }
  }

  /** Is byte `i` of the image of `vs` padding? */
  predicate Padding(vs: seq<Value>, i: nat) {
    vs != [] &&
    if i < WireSize(vs[0]) then (vs[0].Str? || vs[0].Arr?) && i >= 4 + |Counted(vs[0])|
    else Padding(vs[1..], i - WireSize(vs[0]))
  }

  ghost predicate PadOf(v: Value, p: nat, q: nat, i: nat) {
    match v
    case Str(Some(s)) => p + 4 + |s| + 1 <= i < q
    case Arr(Some(a)) => p + 4 + |a| <= i < q
    case _ => false
  }

  lemma OffsetTail(vs: seq<Value>, k: nat)
    requires 0 < k <= |vs|
    ensures Offset(vs, k) == WireSize(vs[0]) + Offset(vs[1..], k - 1)
  {
    assert vs[..k][1..] == vs[1..][..k - 1];
  }

  ghost predicate PadAt(vs: seq<Value>, k: nat, i: nat)
    requires k < |vs|
  {
    PadOf(vs[k], Offset(vs, k), Offset(vs, k + 1), i)
  }

  lemma {:induction false} PadAtHead(vs: seq<Value>, i: nat)
    requires vs != []
    ensures PadAt(vs, 0, i) <==> i < WireSize(vs[0]) && Padding(vs, i)
  {
    OffsetNext(vs, 0);
  }

  lemma {:induction false} PadAtTail(vs: seq<Value>, k: nat, i: nat)
    requires 0 < k < |vs|
    ensures PadAt(vs, k, i) <==> i >= WireSize(vs[0]) && PadAt(vs[1..], k - 1, i - WireSize(vs[0]))
  {
    hide Offset, WireSize;
    OffsetTail(vs, k);
    OffsetTail(vs, k + 1);
  }

  /** Padding is what lies between the counted bytes of an argument and the next argument. */
  lemma {:induction false} PaddingLies(vs: seq<Value>, i: nat)
    ensures Padding(vs, i) <==> exists k: nat | k < |vs| :: PadAt(vs, k, i)
  {
    hide WireSize, PadAt;
    if vs != [] {
      var n := WireSize(vs[0]);
      PadAtHead(vs, i);
      if i >= n {
        PaddingLies(vs[1..], i - n);
      }
      if Padding(vs, i) && i >= n {
        var k: nat :| k < |vs[1..]| && PadAt(vs[1..], k, i - n);
        PadAtTail(vs, k + 1, i);
      }
      if k: nat :| 0 < k < |vs| && PadAt(vs, k, i) {
        PadAtTail(vs, k, i);
      }
    }
  }

  /** Two images of the same arguments differ in padding bytes only. */
  lemma {:induction false} ImagesUnique(vs: seq<Value>, x: seq<byte>, y: seq<byte>, i: nat)
    requires Images(vs, x) && Images(vs, y) && i < |x|
    ensures |x| == |y| && (!Padding(vs, i) ==> x[i] == y[i])
  {
    ImagesSize(vs, x);
    ImagesSize(vs, y);
    if vs != [] {
      var n := WireSize(vs[0]);
      if i < n {
        assert x[i] == x[..n][i] && y[i] == y[..n][i];
        if 4 <= i && !Padding(vs, i) {
          assert x[..n][4..4 + |Counted(vs[0])|][i - 4] == y[..n][4..4 + |Counted(vs[0])|][i - 4];
        } else if i < 4 && !vs[0].Handle? {
          assert x[..n][..4] == y[..n][..4];
          assert x[i] == x[..n][..4][i] && y[i] == y[..n][..4][i];
        }
      } else {
        ImagesUnique(vs[1..], x[n..], y[n..], i - n);
      }
    }
  }

  /** The two header words: sender; size in the upper and opcode in the lower half. */
  function Header(sender: u32, opcode: u32, size: nat): (h: seq<byte>)
    ensures |h| == 8
  {
    Le32(sender) + Le32(size % 65536 * 65536 + opcode % 65536)
  }

  predicate IsMessage(sender: u32, opcode: u32, args: seq<Value>, b: seq<byte>) {
    |b| >= 8 && b[..8] == Header(sender, opcode, |b|) && Images(args, b[8..])
  }

  function SenderOf(b: seq<byte>): u32
    requires |b| >= 8
  {
    Word(b[..4])
  }

  function OpcodeOf(b: seq<byte>): u32
    requires |b| >= 8
  {
    Word(b[4..8]) % 65536
  }

  function SizeOf(b: seq<byte>): u32
    requires |b| >= 8
  {
    Word(b[4..8]) / 65536
  }

  /** The header gives everything back; the size exactly when it fits its 16 bits. */
  lemma HeaderFields(sender: u32, opcode: u32, size: nat, b: seq<byte>)
    requires |b| >= 8 && b[..8] == Header(sender, opcode, size)
    ensures SenderOf(b) == sender && OpcodeOf(b) == opcode % 65536
    ensures SizeOf(b) == size <==> size < 65536
  {
    hide Word, Le32;
    var w := size % 65536 * 65536 + opcode % 65536;
    WordOfLe32(sender);
    WordOfLe32(w);
    assert b[..8][..4] == b[..4] && b[..8][4..8] == b[4..8];
    assert Header(sender, opcode, size)[..4] == Le32(sender);
    assert Header(sender, opcode, size)[4..8] == Le32(w);
  }

  /** A message, byte by byte: its sender; its opcode and its size, 16 bits of each; its arguments. */
  ghost predicate Written(sender: u32, opcode: u32, args: seq<Value>, b: seq<byte>) {
    && |b| >= 8 && Reads(b, 0, sender)
    && b[4] as int + 256 * b[5] as int == opcode % 65536 && b[6] as int + 256 * b[7] as int == |b| % 65536
    && exists at :: Laid(args, b[8..], at) && at[|args|] == |b| - 8
  }

  lemma HalvesRead(b: seq<byte>, p: nat, lo: nat, hi: nat)
    requires p + 4 <= |b| && lo < 65536 && hi < 65536
    ensures Reads(b, p, hi * 65536 + lo) <==>
            b[p] as int + 256 * b[p + 1] as int == lo && b[p + 2] as int + 256 * b[p + 3] as int == hi
  {
  }

  /** That is what messages are. */
  lemma {:induction false} MessageWritten(sender: u32, opcode: u32, args: seq<Value>, b: seq<byte>)
    ensures IsMessage(sender, opcode, args, b) <==> Written(sender, opcode, args, b)
  {
    hide Images, Laid, Reads, Le32;
    if |b| >= 8 {
      var lo, hi := opcode % 65536, |b| % 65536;
      ReadsWord(b, 0, sender);
      ReadsWord(b, 4, hi * 65536 + lo);
      HalvesRead(b, 4, lo, hi);
      var h := Header(sender, opcode, |b|);
      assert h[..4] == Le32(sender) && h[4..] == Le32(hi * 65536 + lo) && h == h[..4] + h[4..];
      assert b[0..4] == b[..8][..4] && b[4..8] == b[..8][4..] && b[..8] == b[..8][..4] + b[..8][4..];
      LaidSize(args, b[8..]);
      ImagesLaid(args, b[8..], |b| - 8);
      assert b[8..][..|b| - 8] == b[8..];
    }
  }

  lemma LaidSize(vs: seq<Value>, b: seq<byte>)
    ensures forall at :: Laid(vs, b, at) ==> |at| == |vs| + 1
  {
  }

  lemma {:induction false} AllFitAt(specs: seq<ArgSpec>, vs: seq<Value>)
    requires AllFit(specs, vs)
    ensures |vs| == |specs| && forall k | 0 <= k < |vs| :: Fits(specs[k], vs[k])
  {
    hide Fits;
    if specs != [] {
      AllFitAt(specs[1..], vs[1..]);
    }
  }

  /** The same as `ParseExact`, with the arguments found byte by byte. */
  lemma {:induction false} ParseLaid(specs: seq<ArgSpec>, b: seq<byte>, env: Env, args: seq<Value>,
                                     rest: seq<byte>, env': Env)
    requires Declared(specs)
    ensures ParseArgs(specs, b, env) == Accepted(args, rest, env') <==>
            && AllFit(specs, args) && AbsorbAll(args, env) == Some(env')
            && exists at :: Laid(args, b, at) && rest == b[at[|args|]..]
  {
    hide ParseArgs, Images, AllFit, AbsorbAll, Says, WireSizes, Offset;
    ParseExact(specs, b, env, args, rest, env');
    var n := WireSizes(args);
    if n <= |b| {
      ImagesLaid(args, b, n);
    }
    forall at | Laid(args, b, at)
      ensures at[|args|] == n
    {
      SpacedIs(args, at);
    }
  }
}
