/** wldbg's own reader of the wire format: header parsing and the argument iterator
    of `src/parse-message.c`. */
module ParseMessage {
  import opened Bytes
  import opened Signatures
  import opened Wire
  import opened Closures

  /** `wldbg_parse_message`: the header fields and whether the size is plausible. */
  method ParseHeader(msg: seq<byte>) returns (id: u32, opcode: u32, size: u32, ok: bool)
    requires |msg| >= 8
    ensures id == SenderOf(msg) && opcode == OpcodeOf(msg) && size == SizeOf(msg)
    ensures ok <==> size >= 8 && size % 4 == 0
  {
    var p1 := Word(msg[4..8]);
    id, opcode, size := Word(msg[..4]), p1 % 65536, p1 / 65536;
    if size < 8 || size % 4 != 0 {
      return id, opcode, size, false;
    }
    return id, opcode, size, true;
  }

  /** Every serialized message below 64 KiB passes, with its own sender, opcode and size. */
  lemma SerializedHeaderParses(sender: u32, opcode: u32, args: seq<Value>, msg: seq<byte>)
    requires IsMessage(sender, opcode, args, msg) && |msg| < 65536
    ensures SenderOf(msg) == sender && OpcodeOf(msg) == opcode % 65536
    ensures SizeOf(msg) == |msg| && |msg| % 4 == 0
  {
    hide Images, Header, Word, SenderOf, OpcodeOf, SizeOf;
    HeaderFields(sender, opcode, |msg|, msg);
    ImagesSize(args, msg[8..]);
  }

  predicate IsDigit(c: char) { '0' <= c <= '9' }

  /** The (type, nullable) pairs the iterator finds: `?` and digits skipped, everything else a type. */
  function IterSpecs(sig: string, nullable: bool := false): seq<ArgSpec> {
    if sig == "" then []
    else if sig[0] == '?' || IsDigit(sig[0]) then IterSpecs(sig[1..], nullable || sig[0] == '?')
    else [ArgSpec(sig[0], nullable)] + IterSpecs(sig[1..])
  }

  /** A signature of version digits, `?` and type letters. */
  predicate Plain(sig: string) {
    forall k | 0 <= k < |sig| :: sig[k] in "?0123456789" || sig[k] in LETTERS
  }

  /** On such signatures the iterator and the demarshaller agree on every argument. */
  lemma {:induction false} SameSpecs(sig: string, nullable: bool)
    requires Plain(sig)
    ensures IterSpecs(sig, nullable) == Specs(sig, nullable)
  {
    if sig != "" {
      var c := sig[0];
      assert c == '?' || IsDigit(c) || IsType(c) by {
        assert c in "?0123456789" || c in LETTERS;
      }
      SameSpecs(sig[1..], if IsType(c) then false else nullable || c == '?');
    }
  }

  /** Where the iterator goes from word `pos` after an argument of type `kind`. */
  function StepPos(kind: char, mem: nat -> u32, pos: nat): nat {
    if kind == 's' || kind == 'a' then pos + 1 + Roundup(mem(pos))
    else if IsType(kind) then pos + 1
    else pos
  }

  /** The word the iterator stands at for argument `k`. */
  function PosOf(specs: seq<ArgSpec>, mem: nat -> u32, k: nat): nat
    requires k <= |specs|
  {
    if k == 0 then 0 else StepPos(specs[k - 1].kind, mem, PosOf(specs, mem, k - 1))
  }

  /** The data pointer: past the length word of a string or array, NULL when that length is 0. */
  function DataPtr(kind: char, mem: nat -> u32, pos: nat): Option<nat> {
    if kind == 's' || kind == 'a' then (if mem(pos) == 0 then None else Some(pos + 1)) else Some(pos)
  }

  /** `struct wldbg_resolved_message`, its iterator part; `mem` is the memory from `base.data` on, in words. */
  class ArgIterator {
    const signature: string
    const mem: nat -> u32
    var signaturePosition: Option<nat>
    var dataPosition: nat
    var curType: char
    var curNullable: bool
    var curData: Option<nat>
    /** How many arguments have been handed out. */
    ghost var given: nat

    constructor (signature: string, mem: nat -> u32)
      ensures Valid() && given == 0 && this.signature == signature && this.mem == mem
    {
      this.signature, this.mem := signature, mem;
      signaturePosition, dataPosition, curType, curNullable, curData := None, 0, '\0', false, None;
      given := 0;
    }

    ghost function Args(): seq<ArgSpec> { IterSpecs(signature) }

    ghost predicate Valid()
      reads this
    {
      if signaturePosition.None? then given == 0
      else
        var p := signaturePosition.value;
        && p <= |signature|
        && if p == |signature| then given == |Args()|
           else && 1 <= given <= |Args()|
                && Args()[given - 1].kind == signature[p]
                && Args()[given..] == IterSpecs(signature[p + 1..])
                && dataPosition == PosOf(Args(), mem, given - 1)
    }

    /** `signature_get_type`. */
    method GetType(from: nat) returns (p: nat, nullable: bool)
      requires from <= |signature|
      ensures from <= p <= |signature|
      ensures if p == |signature| then IterSpecs(signature[from..]) == []
              else IterSpecs(signature[from..]) == [ArgSpec(signature[p], nullable)] + IterSpecs(signature[p + 1..])
    {
      p, nullable := from, false;
      while p < |signature| && (signature[p] == '?' || IsDigit(signature[p]))
        invariant from <= p <= |signature|
        invariant IterSpecs(signature[from..]) == IterSpecs(signature[p..], nullable)
      {
        assert signature[p..][1..] == signature[p + 1..];
        if signature[p] == '?' {
          nullable := true;
        }
        p := p + 1;
      }
      if p < |signature| {
        assert signature[p..][1..] == signature[p + 1..];
      }
    }

    /** `get_data_ptr`. */
    method GetDataPtr(kind: char) returns (data: Option<nat>)
      ensures data == DataPtr(kind, mem, dataPosition)
    {
      if kind == 'a' || kind == 's' {
        if mem(dataPosition) == 0 {
          return None;
        }
        return Some(dataPosition + 1);
      }
      return Some(dataPosition);
    }

    /** `wldbg_resolved_message_reset_iterator`. */
    method Reset()
      modifies this
      ensures Valid() && given == 0
    {
      signaturePosition, dataPosition, curType, curNullable, curData := None, 0, '\0', false, None;
      given := 0;
    }

    /** The switch that steps over an argument of type `kind`. */
    method Advance(kind: char)
      modifies this`dataPosition
      ensures dataPosition == StepPos(kind, mem, old(dataPosition))
    {
      match kind {
        case 'u' | 'i' | 'f' | 'o' | 'n' | 'h' =>
          dataPosition := dataPosition + 1;
        case 's' | 'a' =>
          var size := mem(dataPosition);
          if size == 0 {
            dataPosition := dataPosition + 1;
          } else {
            dataPosition := dataPosition + (Roundup(size) + 1);
          }
        case _ =>
      }
    }

    /** `wldbg_resolved_message_next_argument`: the next argument in `cur*`, or false for NULL. */
    method NextArgument() returns (more: bool)
      requires Valid()
      modifies this
      ensures Valid()
      ensures more <==> old(given) < |Args()|
      ensures given == if more then old(given) + 1 else |Args()|
      ensures more ==> var k := old(given);
                       && curType == Args()[k].kind && curNullable == Args()[k].nullable
                       && curData == DataPtr(curType, mem, PosOf(Args(), mem, k))
    {
      hide IterSpecs, StepPos, DataPtr;
      if signaturePosition.None? {
        var p, nullable := GetType(0);
        assert signature[0..] == signature;
        signaturePosition, dataPosition, curNullable := Some(p), 0, nullable;
        if p == |signature| {
          curType := '\0';
          return false;
        }
        curType := signature[p];
        curData := GetDataPtr(curType);
        given := 1;
        return true;
      }
      if signaturePosition.value == |signature| {
        return false;
      }
      var kind := signature[signaturePosition.value];
      var p, nullable := GetType(signaturePosition.value + 1);
      signaturePosition, curNullable := Some(p), nullable;
      if p == |signature| {
        curType := '\0';
        given := |Args()|;
        return false;
      }
      curType := signature[p];
      Advance(kind);
      curData := GetDataPtr(curType);
      assert Args()[given] == Args()[given..][0] && Args()[given + 1..] == Args()[given..][1..];
      given := given + 1;
      return true;
    }
  }

  /** `mem` shows the words of a message body; what lies behind it is arbitrary. */
  ghost predicate Shows(mem: nat -> u32, body: seq<byte>) {
    forall i: nat | 4 * i + 4 <= |body| :: mem(i) == Word(body[4 * i..4 * i + 4])
  }

  /** Each argument of the kind its type letter says. */
  ghost predicate OfKinds(specs: seq<ArgSpec>, vs: seq<Value>) {
    |vs| == |specs| && forall k | 0 <= k < |vs| :: IsType(specs[k].kind) && Kept(specs[k], vs[k])
  }

  ghost predicate NoHandleBefore(specs: seq<ArgSpec>, k: nat)
    requires k <= |specs|
  {
    forall j | 0 <= j < k :: specs[j].kind != 'h'
  }

  /** One step of the iterator from the right place: right again, unless it stepped over a descriptor. */
  lemma StepAgrees(specs: seq<ArgSpec>, vs: seq<Value>, body: seq<byte>, mem: nat -> u32, k: nat)
    requires OfKinds(specs, vs) && Images(vs, body) && Shows(mem, body) && k < |specs|
    requires 4 * PosOf(specs, mem, k) == Offset(vs, k)
    ensures 4 * PosOf(specs, mem, k + 1) == Offset(vs, k + 1) + if specs[k].kind == 'h' then 4 else 0
    ensures var data := DataPtr(specs[k].kind, mem, PosOf(specs, mem, k));
            if vs[k].Str? || vs[k].Arr?
            then data == if Counted(vs[k]) == [] then None else Some(PosOf(specs, mem, k) + 1)
            else data == Some(PosOf(specs, mem, k))
  {
    hide Image, Images, Word, Offset, Counted, PosOf, Shows;
    ImageAt(vs, body, k);
    NextPos(specs, mem, k);
    if vs[k].Str? || vs[k].Arr? {
      LengthWord(vs, body, mem, k, PosOf(specs, mem, k));
    }
  }

  lemma NextPos(specs: seq<ArgSpec>, mem: nat -> u32, k: nat)
    requires k < |specs|
    ensures PosOf(specs, mem, k + 1) == StepPos(specs[k].kind, mem, PosOf(specs, mem, k))
  {
  }

  lemma {:induction false} LengthWord(vs: seq<Value>, body: seq<byte>, mem: nat -> u32, k: nat, pos: nat)
    requires Images(vs, body) && Shows(mem, body) && k < |vs| && (vs[k].Str? || vs[k].Arr?)
    requires 4 * pos == Offset(vs, k)
    ensures mem(pos) == |Counted(vs[k])|
  {
    ImageAt(vs, body, k);
    var at, end := Offset(vs, k), Offset(vs, k + 1);
    WordOfLe32(|Counted(vs[k])|);
    SliceOfSlice(body, at, end, 0, 4);
    assert body[at..end][..4] == body[at..at + 4];
  }

  /** The iterator's word for argument `k` is where the serializer put its image, as long as no
      descriptor comes before it. */
  lemma {:induction false} IteratorAgrees(specs: seq<ArgSpec>, vs: seq<Value>, body: seq<byte>, mem: nat -> u32, k: nat)
    requires OfKinds(specs, vs) && Images(vs, body) && Shows(mem, body) && k <= |specs|
    requires NoHandleBefore(specs, k)
    ensures 4 * PosOf(specs, mem, k) == Offset(vs, k)
  {
    if k == 0 {
      assert vs[..0] == [];
    } else {
      IteratorAgrees(specs, vs, body, mem, k - 1);
      StepAgrees(specs, vs, body, mem, k - 1);
    }
  }

  /** Behind a run of descriptors starting at `m` the iterator is off by one word for each of them. */
  lemma {:induction false} HandlesPush(specs: seq<ArgSpec>, vs: seq<Value>, body: seq<byte>, mem: nat -> u32,
                                       m: nat, k: nat)
    requires OfKinds(specs, vs) && Images(vs, body) && Shows(mem, body) && m <= k <= |specs|
    requires NoHandleBefore(specs, m) && forall j | m <= j < k :: specs[j].kind == 'h'
    ensures 4 * PosOf(specs, mem, k) == Offset(vs, k) + 4 * (k - m)
    decreases k
  {
    if k == m {
      IteratorAgrees(specs, vs, body, mem, m);
    } else {
      HandlesPush(specs, vs, body, mem, m, k - 1);
      ImageAt(vs, body, k - 1);
    }
  }

  /** What the iterator hands out for `v` if it starts at byte `p` of the body: the word there, the one
      behind the length word of a string or array, NULL when nothing is counted. */
  predicate PointsAt(v: Value, p: nat, data: Option<nat>) {
    match v
    case Str(None) => data == None
    case Str(Some(_)) => data == Some(p / 4 + 1)
    case Arr(None) => data == None
    case Arr(Some(a)) => data == if a == [] then None else Some(p / 4 + 1)
    case _ => data == Some(p / 4)
  }

  lemma {:induction false} DataPoints(specs: seq<ArgSpec>, vs: seq<Value>, body: seq<byte>, mem: nat -> u32, k: nat)
    requires OfKinds(specs, vs) && Images(vs, body) && Shows(mem, body) && k < |specs|
    requires NoHandleBefore(specs, k)
    ensures PointsAt(vs[k], Offset(vs, k), DataPtr(specs[k].kind, mem, PosOf(specs, mem, k)))
  {
    hide Images, Offset, PosOf, Shows, DataPtr;
    IteratorAgrees(specs, vs, body, mem, k);
    StepAgrees(specs, vs, body, mem, k);
  }

  /** An argument as the iterator hands it out. */
  datatype Found = Found(kind: char, nullable: bool, data: Option<nat>)

  /** Over a whole message: the iterator hands out the declared arguments, each with its type and whether
      it may be NULL, in order, and each up to the first descriptor at the place where it lies. */
  method FindAll(signature: string, mem: nat -> u32, ghost args: seq<Value>, ghost body: seq<byte>, ghost at: seq<nat>)
    returns (found: seq<Found>)
    requires Plain(signature) && OfKinds(Specs(signature), args) && Shows(mem, body)
    requires Laid(args, body, at) && at[|args|] == |body|
    ensures |found| == |args| == |Specs(signature)|
    ensures forall k | 0 <= k < |found| ::
              && found[k].kind == Specs(signature)[k].kind && found[k].nullable == Specs(signature)[k].nullable
              && (NoHandleBefore(Specs(signature), k) ==> PointsAt(args[k], at[k], found[k].data))
  {
    hide Specs, IterSpecs, PosOf, DataPtr, Shows, OfKinds, Plain, Images, Says, Offset, PointsAt, NoHandleBefore;
    ghost var specs := Specs(signature);
    SameSpecs(signature, false);
    SpacedIs(args, at);
    assert body[..|body|] == body;
    ImagesLaid(args, body, |body|);
    var it := new ArgIterator(signature, mem);
    KindsCount(specs, args);
    found := [];
    var more := it.NextArgument();
    while more
      invariant it.Valid() && it.signature == signature && it.mem == mem
      invariant |found| <= |specs| && (more ==> it.given == |found| + 1) && (!more ==> |found| == |specs|)
      invariant more ==> it.curType == specs[|found|].kind && it.curNullable == specs[|found|].nullable
      invariant more ==> it.curData == DataPtr(it.curType, mem, PosOf(specs, mem, |found|))
      invariant forall k | 0 <= k < |found| ::
                  && found[k].kind == specs[k].kind && found[k].nullable == specs[k].nullable
                  && (NoHandleBefore(specs, k) ==> PointsAt(args[k], at[k], found[k].data))
      decreases |specs| - |found|, more
    {
      if NoHandleBefore(specs, |found|) {
        DataPoints(specs, args, body, mem, |found|);
      }
      found := found + [Found(it.curType, it.curNullable, it.curData)];
      more := it.NextArgument();
    }
  }

  lemma KindsCount(specs: seq<ArgSpec>, vs: seq<Value>)
    requires OfKinds(specs, vs)
    ensures |vs| == |specs|
  {
  }

  /** No argument that is on the wire comes after a descriptor. */
  ghost predicate HandlesLast(specs: seq<ArgSpec>) {
    forall j, k | 0 <= j < k < |specs| && specs[j].kind == 'h' :: specs[k].kind == 'h'
  }

  /** Exactly for the signatures whose descriptors come last does the iterator find every argument. */
  lemma {:induction false} IteratorExact(specs: seq<ArgSpec>, vs: seq<Value>, body: seq<byte>, mem: nat -> u32)
    requires OfKinds(specs, vs) && Images(vs, body) && Shows(mem, body)
    ensures HandlesLast(specs) <==>
            forall k | 0 <= k < |specs| && specs[k].kind != 'h' :: 4 * PosOf(specs, mem, k) == Offset(vs, k)
  {
    if HandlesLast(specs) {
      forall k | 0 <= k < |specs| && specs[k].kind != 'h'
        ensures 4 * PosOf(specs, mem, k) == Offset(vs, k)
      {
        IteratorAgrees(specs, vs, body, mem, k);
      }
    } else {
      var j, k :| 0 <= j < k < |specs| && specs[j].kind == 'h' && specs[k].kind != 'h';
      var m := FirstHandle(specs, j);
      var n := FirstOther(specs, m, k);
      HandlesPush(specs, vs, body, mem, m, n);
    }
  }

  lemma {:induction false} FirstHandle(specs: seq<ArgSpec>, j: nat) returns (m: nat)
    requires j < |specs| && specs[j].kind == 'h'
    ensures m <= j && specs[m].kind == 'h' && NoHandleBefore(specs, m)
  {
    m := j;
    if i :| 0 <= i < j && specs[i].kind == 'h' {
      m := FirstHandle(specs, i);
    }
  }

  lemma {:induction false} FirstOther(specs: seq<ArgSpec>, m: nat, k: nat) returns (n: nat)
    requires m < k < |specs| && specs[m].kind == 'h' && specs[k].kind != 'h'
    ensures m < n <= k && specs[n].kind != 'h' && forall j | m <= j < n :: specs[j].kind == 'h'
    decreases k
  {
    n := k;
    if i :| m <= i < k && specs[i].kind != 'h' {
      n := FirstOther(specs, m, i);
    }
  }
}
