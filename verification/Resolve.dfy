/** The resolve pass: which interface each object id stands for, learned from the
    messages that create and delete objects. */
module Resolve {
  import opened Bytes
  import opened Signatures
  import opened Wire
  import opened Closures
  import opened ParseMessage
  import opened IdsMaps
  import opened Pipeline

  /** What the table holds for an id: nothing, the special "FREE" and "unknown" entries, or an
      interface, by its place in the protocol tables. */
  datatype Binding = Null | Free | Unknown | Known(i: nat)

  /** `types` is indexed like the arguments; `None` is a NULL interface. */
  datatype MessageDecl = MessageDecl(signature: string, types: seq<Option<nat>>)

  datatype Interface = Interface(name: seq<byte>, methods: seq<MessageDecl>, events: seq<MessageDecl>)

  /** "wl_registry" and "wl_display". */
  const WL_REGISTRY: seq<byte> := [119, 108, 95, 114, 101, 103, 105, 115, 116, 114, 121]
  const WL_DISPLAY: seq<byte> := [119, 108, 95, 100, 105, 115, 112, 108, 97, 121]
  const DISPLAY_DELETE_ID := 1
  const REGISTRY_BIND := 0

  ghost predicate FirstNamed(protocol: seq<Interface>, name: seq<byte>, j: nat) {
    j < |protocol| && protocol[j].name == name && forall k | 0 <= k < j :: protocol[k].name != name
  }

  /** The first interface of that name. */
  function FindName(protocol: seq<Interface>, name: seq<byte>): (r: Option<nat>)
    ensures r.Some? ==> FirstNamed(protocol, name, r.value)
    ensures r.None? ==> forall k | 0 <= k < |protocol| :: protocol[k].name != name
  {
    if protocol == [] then None
    else if protocol[|protocol| - 1].name == name && FindName(protocol[..|protocol| - 1], name).None?
    then Some(|protocol| - 1)
    else FindName(protocol[..|protocol| - 1], name)
  }

  /** Index of the first `n`, or the length. */
  function FirstN(sig: string): (p: nat)
    ensures p <= |sig| && (p < |sig| ==> sig[p] == 'n')
    ensures forall k | 0 <= k < p :: sig[k] != 'n'
  {
    if sig == "" || sig[0] == 'n' then 0 else 1 + FirstN(sig[1..])
  }

  /** `wl_message_new_id_pos`. */
  method NewIdPos(signature: string) returns (n: int)
    ensures n == if FirstN(signature) < |signature| then FirstN(signature) else -1
  {
    n := 0;
    while n < |signature|
      invariant 0 <= n <= |signature| && forall k | 0 <= k < n :: signature[k] != 'n'
    {
      if signature[n] == 'n' {
        return;
      }
      n := n + 1;
    }
    return -1;
  }

  /** The word `get_new_id` reads: it steps by characters, one word for each that is not a string or array. */
  function ScanPos(sig: string, mem: nat -> u32, pos: nat): nat {
    if sig == "" || sig[0] == 'n' then pos
    else if sig[0] == 's' || sig[0] == 'a' then ScanPos(sig[1..], mem, pos + 1 + Roundup(mem(pos)))
    else ScanPos(sig[1..], mem, pos + 1)
  }

  /** `get_new_id`. */
  method GetNewId(signature: string, mem: nat -> u32) returns (id: u32)
    requires 'n' in signature
    ensures id == mem(ScanPos(signature, mem, 2))
  {
    var n: nat, pos: nat := 0, 2;
    assert signature[0..] == signature;
    while signature[n] != 'n'
      invariant n < |signature| && 'n' in signature[n..]
      invariant ScanPos(signature, mem, 2) == ScanPos(signature[n..], mem, pos)
      decreases |signature| - n
    {
      assert signature[n..][1..] == signature[n + 1..];
      assert signature[n..] == [signature[n]] + signature[n + 1..];
      match signature[n] {
        case 's' | 'a' =>
          var size := Roundup(mem(pos));
          pos := pos + (size + 1);
        case _ =>
          pos := pos + 1;
      }
      n := n + 1;
    }
    return mem(pos);
  }

  /** The loop of `get_new_ids` restarts at `id_pos + 1`, relative to where the last search began. */
  function NextSearch(sig: string, pos: nat): Option<nat>
    requires pos <= |sig|
    ensures NextSearch(sig, pos).Some? ==> NextSearch(sig, pos).value <= |sig|
  {
    if FirstN(sig[pos..]) < |sig[pos..]| then Some(FirstN(sig[pos..]) + 1) else None
  }

  /** Where the search stands after `turns` turns; `None` once the loop has ended. */
  function Search(sig: string, turns: nat): (r: Option<nat>)
    ensures r.Some? ==> r.value <= |sig|
  {
    if turns == 0 then Some(0)
    else match Search(sig, turns - 1)
         case None => None
         case Some(pos) => NextSearch(sig, pos)
  }

  lemma NextSearchAt(sig: string, pos: nat, k: nat)
    requires pos <= k < |sig| && sig[k] == 'n'
    ensures NextSearch(sig, pos).Some? && 1 <= NextSearch(sig, pos).value <= k - pos + 1
  {
  }

  predicate OneNewId(sig: string) {
    forall j, k | 0 <= j < k < |sig| && sig[j] == 'n' :: sig[k] != 'n'
  }

  /** With two new ids the search never gets past the last of them. */
  lemma {:induction false} SearchGoesOn(sig: string, j: nat, k: nat, turns: nat)
    requires j < k < |sig| && sig[j] == 'n' && sig[k] == 'n'
    ensures Search(sig, turns + 1).Some? && 1 <= Search(sig, turns + 1).value <= k
  {
    hide FirstN;
    assert Search(sig, 0) == Some(0);
    if turns == 0 {
      NextSearchAt(sig, 0, j);
    } else {
      SearchGoesOn(sig, j, k, turns - 1);
      NextSearchAt(sig, Search(sig, turns).value, k);
    }
  }

  lemma {:induction false} SearchStops(sig: string)
    requires OneNewId(sig)
    ensures Search(sig, 2).None?
  {
    var p := FirstN(sig);
    assert sig[0..] == sig;
    assert Search(sig, 0) == Some(0) && Search(sig, 1) == NextSearch(sig, 0);
    if p < |sig| {
      var rest := sig[p + 1..];
      forall k | 0 <= k < |rest| ensures rest[k] != 'n' {
        assert sig[p] == 'n' && rest[k] == sig[p + 1 + k];
      }
      assert NextSearch(sig, p + 1) == None;
    }
  }

  lemma {:induction false} SearchNeverStops(sig: string, turns: nat)
    requires !OneNewId(sig)
    ensures Search(sig, turns).Some?
  {
    if turns > 0 {
      var j, k :| 0 <= j < k < |sig| && sig[j] == 'n' && sig[k] == 'n';
      SearchGoesOn(sig, j, k, turns - 1);
    }
  }

  /** The loop of `get_new_ids` ends exactly when the signature has at most one new id. */
  lemma {:induction false} NewIdsLoopEnds(sig: string)
    ensures OneNewId(sig) <==> exists turns: nat :: Search(sig, turns).None?
  {
    hide OneNewId, Search;
    if OneNewId(sig) {
      SearchStops(sig);
    } else {
      forall turns: nat ensures Search(sig, turns).Some? {
        SearchNeverStops(sig, turns);
      }
    }
  }

  /** The signatures `get_new_id` reads correctly: one new id at most, and before it only types that take
      their words on the wire (no version digit, `?` or descriptor). */
  ghost predicate Readable(sig: string) {
    OneNewId(sig) && (FirstN(sig) < |sig| ==> OnlyWords(sig))
  }

  function Behind(mem: nat -> u32): nat -> u32 { (i: nat) => mem(i + 2) }

  /** Letters up to position `p` are arguments one for one. */
  lemma {:induction false} SpecsOfLetters(sig: string, p: nat)
    requires p < |sig| && forall k | 0 <= k <= p :: IsType(sig[k])
    ensures p < |Specs(sig)| && forall k | 0 <= k <= p :: Specs(sig)[k].kind == sig[k]
  {
    if p > 0 {
      SpecsOfLetters(sig[1..], p - 1);
      forall k | 0 <= k <= p ensures Specs(sig)[k].kind == sig[k] {
        if k > 0 {
          assert sig[1..][k - 1] == sig[k] && Specs(sig)[k] == Specs(sig[1..])[k - 1];
        }
      }
    }
  }

  lemma {:induction false} ScanIsPos(sig: string, specs: seq<ArgSpec>, mem: nat -> u32, j: nat, p: nat)
    requires specs == Specs(sig) && j <= p < |sig| && p < |specs|
    requires forall k | 0 <= k <= p :: IsType(sig[k]) && specs[k].kind == sig[k]
    requires sig[p] == 'n' && forall k | 0 <= k < p :: sig[k] != 'n'
    ensures ScanPos(sig[j..], mem, 2 + PosOf(specs, Behind(mem), j)) == 2 + PosOf(specs, Behind(mem), p)
    decreases p - j
  {
    if j < p {
      ScanIsPos(sig, specs, mem, j + 1, p);
      assert sig[j..][1..] == sig[j + 1..];
    }
  }

  ghost predicate OnlyWords(sig: string) {
    forall k | 0 <= k < FirstN(sig) :: IsType(sig[k]) && sig[k] != 'h'
  }

  lemma {:induction false} OnlyWordsTail(sig: string)
    requires sig != "" && sig[0] != 'n'
    ensures OnlyWords(sig) <==> IsType(sig[0]) && sig[0] != 'h' && OnlyWords(sig[1..])
  {
  }

  /** Index of the first new id among the arguments, or their number. */
  function FirstNew(args: seq<Value>): (k: nat)
    ensures k <= |args| && (k < |args| ==> args[k].NewId?)
    ensures forall j | 0 <= j < k :: !args[j].NewId?
  {
    if args == [] || args[0].NewId? then 0 else 1 + FirstNew(args[1..])
  }

  lemma {:induction false} FirstNewIs(args: seq<Value>, k: nat)
    requires k <= |args| && (k < |args| ==> args[k].NewId?) && forall j | 0 <= j < k :: !args[j].NewId?
    ensures FirstNew(args) == k
  {
    if k > 0 {
      FirstNewIs(args[1..], k - 1);
    }
  }

  /** `mem` holds a message with this signature and these arguments, its header in front. */
  ghost predicate Shown(sig: string, args: seq<Value>, body: seq<byte>, mem: nat -> u32) {
    OfKinds(Specs(sig), args) && Images(args, body) && Shows(Behind(mem), body)
  }

  /** Over letters that take words the scan lands on the first new id. */
  lemma {:induction false} ScanLands(sig: string, args: seq<Value>, body: seq<byte>, mem: nat -> u32)
    requires FirstN(sig) < |sig| && OnlyWords(sig) && Shown(sig, args, body, mem)
    ensures FirstNew(args) == FirstN(sig) < |args|
    ensures 4 * ScanPos(sig, mem, 2) == 8 + Offset(args, FirstNew(args))
  {
    hide Images, Word, Le32, FirstN, Specs, ScanPos, Behind, Shows, PosOf, Offset;
    var p, specs := FirstN(sig), Specs(sig);
    SpecsOfLetters(sig, p);
    assert sig[0..] == sig;
    FirstNewIs(args, p);
    PosOfNone(specs, Behind(mem));
    ScanIsPos(sig, specs, mem, 0, p);
    IteratorAgrees(specs, args, body, Behind(mem), p);
  }

  lemma {:induction false} PosOfNone(specs: seq<ArgSpec>, mem: nat -> u32)
    ensures PosOf(specs, mem, 0) == 0
  {
  }

  /** On a well-formed message `get_new_id` finds the new id itself. */
  lemma {:induction false} NewIdFound(sig: string, args: seq<Value>, msg: seq<byte>, mem: nat -> u32)
    requires Readable(sig) && FirstN(sig) < |sig|
    requires |msg| >= 8 && OfKinds(Specs(sig), args) && Images(args, msg[8..]) && Shows(Behind(mem), msg[8..])
    ensures FirstN(sig) < |args| && args[FirstN(sig)].NewId?
    ensures mem(ScanPos(sig, mem, 2)) == args[FirstN(sig)].n
  {
    hide Images, Word, Le32, FirstN, Specs, ScanPos, Behind, OfKinds, Shows, Offset;
    ScanLands(sig, args, msg[8..], mem);
    var at := ScanPos(sig, mem, 2) - 2;
    NewIdWord(args, msg[8..], Behind(mem), FirstN(sig), at);
    BehindIs(mem, at);
  }

  lemma BehindIs(mem: nat -> u32, i: nat)
    ensures Behind(mem)(i) == mem(2 + i)
  {
  }

  lemma {:induction false} NewIdWord(args: seq<Value>, body: seq<byte>, mem: nat -> u32, p: nat, at: nat)
    requires p < |args| && args[p].NewId? && Images(args, body) && Shows(mem, body) && 4 * at == Offset(args, p)
    ensures mem(at) == args[p].n
  {
    ImageAt(args, body, p);
    WordOfLe32(args[p].n);
  }

  /** The arguments of a message of zero words. */
  function Zero(kind: char): Value {
    match kind
    case 's' => Str(None)
    case 'o' => Obj(None)
    case 'n' => NewId(0)
    case 'a' => Arr(None)
    case 'h' => Handle(0)
    case _ => Num(0)
  }

  function Zeros(specs: seq<ArgSpec>): (vs: seq<Value>)
    ensures |vs| == |specs| && forall k | 0 <= k < |vs| :: vs[k] == Zero(specs[k].kind)
  {
    if specs == [] then [] else [Zero(specs[0].kind)] + Zeros(specs[1..])
  }

  function ZeroBytes(n: nat): seq<byte> { seq(n, _ => 0) }

  lemma ZeroImage(kind: char)
    ensures Image(Zero(kind), ZeroBytes(WireSize(Zero(kind))))
  {
    assert Le32(0) == [0, 0, 0, 0] == ZeroBytes(4);
  }

  lemma {:induction false} ZeroImages(specs: seq<ArgSpec>)
    ensures Images(Zeros(specs), ZeroBytes(WireSizes(Zeros(specs))))
  {
    if specs != [] {
      ZeroImages(specs[1..]);
      ZeroImage(specs[0].kind);
      var vs := Zeros(specs);
      var n, b := WireSize(vs[0]), ZeroBytes(WireSizes(vs));
      assert vs[1..] == Zeros(specs[1..]);
      assert b[..n] == ZeroBytes(n) && b[n..] == ZeroBytes(WireSizes(vs[1..]));
    }
  }

  lemma {:induction false} ZeroShown(sig: string, zero: nat -> u32)
    requires forall i :: zero(i) == 0
    ensures var args := Zeros(Specs(sig)); Shown(sig, args, ZeroBytes(WireSizes(args)), zero)
  {
    hide Specs, Images, WireSizes;
    var specs := Specs(sig);
    ZeroImages(specs);
    var body := ZeroBytes(WireSizes(Zeros(specs)));
    forall i: nat | 4 * i + 4 <= |body|
      ensures Behind(zero)(i) == Word(body[4 * i..4 * i + 4])
    {
      assert body[4 * i..4 * i + 4] == [0, 0, 0, 0];
    }
  }

  /** One more argument of zero words in front, which is not a new id. */
  lemma {:induction false} ZerosNext(spec: ArgSpec, rest: seq<ArgSpec>)
    requires IsType(spec.kind) && spec.kind != 'n'
    ensures var vs, ws := Zeros(rest), Zeros([spec] + rest);
            && FirstNew(ws) == FirstNew(vs) + 1
            && Offset(ws, FirstNew(ws)) == Offset(vs, FirstNew(vs)) + if spec.kind == 'h' then 0 else 4
  {
    var v, vs, ws := Zero(spec.kind), Zeros(rest), Zeros([spec] + rest);
    var k := FirstNew(vs);
    assert ([spec] + rest)[1..] == rest && ws == [v] + vs && ws[1..] == vs;
    assert ws[..k + 1][1..] == vs[..k];
  }

  lemma {:induction false} ZerosNew(nullable: bool, rest: seq<ArgSpec>)
    ensures var vs := Zeros([ArgSpec('n', nullable)] + rest); FirstNew(vs) == 0 == Offset(vs, 0)
  {
    assert Zeros([ArgSpec('n', nullable)] + rest)[..0] == [];
  }

  lemma SpecsNext(sig: string, nullable: bool)
    requires sig != ""
    ensures Specs(sig, nullable) == if IsType(sig[0]) then [ArgSpec(sig[0], nullable)] + Specs(sig[1..])
                                    else Specs(sig[1..], nullable || sig[0] == '?')
  {
  }

  lemma ScanZero(sig: string, zero: nat -> u32, pos: nat)
    requires zero(pos) == 0 && sig != ""
    ensures ScanPos(sig, zero, pos) == if sig[0] == 'n' then pos else ScanPos(sig[1..], zero, pos + 1)
  {
  }

  /** On a message of zero words the scan is ahead by one for each character that takes no word. */
  lemma {:induction false} ScanAhead(sig: string, nullable: bool, zero: nat -> u32, pos: nat)
    requires FirstN(sig) < |sig| && forall i :: zero(i) == 0
    ensures var args := Zeros(Specs(sig, nullable));
            var ahead := 4 * ScanPos(sig, zero, pos) - 4 * pos - Offset(args, FirstNew(args));
            ahead >= 0 && (!OnlyWords(sig) ==> ahead > 0)
  {
    hide OnlyWords, Specs, Zeros, ScanPos, FirstNew, Offset;
    SpecsNext(sig, nullable);
    ScanZero(sig, zero, pos);
    if sig[0] == 'n' {
      NoneBefore(sig);
      ZerosNew(nullable, Specs(sig[1..]));
    } else {
      OnlyWordsTail(sig);
      if IsType(sig[0]) {
        ScanAhead(sig[1..], false, zero, pos + 1);
        ZerosNext(ArgSpec(sig[0], nullable), Specs(sig[1..]));
      } else {
        ScanAhead(sig[1..], nullable || sig[0] == '?', zero, pos + 1);
      }
    }
  }

  lemma NoneBefore(sig: string)
    requires sig != "" && sig[0] == 'n'
    ensures OnlyWords(sig)
  {
  }

  /** `get_new_id` reads the word of the first new id in every message of a signature exactly when
      only types that take their words on the wire come before it. */
  lemma {:induction false} ScanExact(sig: string)
    requires FirstN(sig) < |sig|
    ensures OnlyWords(sig) <==>
            forall args: seq<Value>, body: seq<byte>, mem: nat -> u32 | Shown(sig, args, body, mem) ::
              4 * ScanPos(sig, mem, 2) == 8 + Offset(args, FirstNew(args))
  {
    hide OnlyWords, Shown, ScanPos, Offset, FirstN;
    if OnlyWords(sig) {
      forall args: seq<Value>, body: seq<byte>, mem: nat -> u32 | Shown(sig, args, body, mem)
        ensures 4 * ScanPos(sig, mem, 2) == 8 + Offset(args, FirstNew(args))
      {
        ScanLands(sig, args, body, mem);
      }
    } else {
      var zero: nat -> u32 := (i: nat) => 0;
      ZeroShown(sig, zero);
      ScanAhead(sig, false, zero, 2);
    }
  }

  lemma {:induction false} KindsFromLetters(sig: string, k: nat, nullable: bool)
    requires k < |Specs(sig, nullable)|
    ensures Specs(sig, nullable)[k].kind in sig
  {
    if IsType(sig[0]) {
      if k > 0 {
        KindsFromLetters(sig[1..], k - 1, false);
      }
    } else {
      KindsFromLetters(sig[1..], k, nullable || sig[0] == '?');
    }
  }

  lemma KindIs(specs: seq<ArgSpec>, args: seq<Value>, j: nat)
    requires OfKinds(specs, args)
    ensures j < |specs| <==> j < |args|
    ensures j < |specs| ==> (args[j].NewId? <==> specs[j].kind == 'n')
  {
  }

  /** The `n` of a readable signature is the first new id of its arguments. */
  lemma {:induction false} SameNewId(sig: string, args: seq<Value>)
    requires Readable(sig) && OfKinds(Specs(sig), args)
    ensures if FirstN(sig) < |sig| then FirstNew(args) == FirstN(sig) < |args| else FirstNew(args) == |args|
  {
    hide Specs, FirstN, OfKinds;
    var p := FirstN(sig);
    if p < |sig| {
      SpecsOfLetters(sig, p);
      forall j | 0 <= j <= p ensures j < |args| && (args[j].NewId? <==> sig[j] == 'n') {
        KindIs(Specs(sig), args, j);
      }
      FirstNewIs(args, p);
    } else {
      forall j | 0 <= j < |args| ensures !args[j].NewId? {
        KindIs(Specs(sig), args, j);
        KindsFromLetters(sig, j, false);
      }
      FirstNewIs(args, |args|);
    }
  }

  /** A message of a run, with its arguments. */
  datatype Seen = Seen(from: Side, msg: seq<byte>, args: seq<Value>)

  /** One change of the table. */
  datatype Change = Change(id: u32, entry: Binding)

  /** The declared interface, else the first that bears the guessed name, else unknown. */
  ghost predicate Chosen(protocol: seq<Interface>, declared: Option<nat>, guess: Option<seq<byte>>, b: Binding) {
    match b
    case Known(j) =>
      declared == Some(j) || (declared == None && guess.Some? && FirstNamed(protocol, guess.value, j))
    case Unknown =>
      declared == None && (guess.Some? ==> forall k | 0 <= k < |protocol| :: protocol[k].name != guess.value)
    case _ => false
  }

  /** The interface a new object gets: the declared one, else the one named in a bind request. */
  function NewBinding(protocol: seq<Interface>, declared: Option<nat>, guess: Option<seq<byte>>): (b: Binding)
    ensures Chosen(protocol, declared, guess, b)
  {
    match declared
    case Some(i) => Known(i)
    case None =>
      if guess.Some? && FindName(protocol, guess.value).Some? then Known(FindName(protocol, guess.value).value)
      else Unknown
  }

  /** The declaration of a message to or from an object with this entry. */
  function DeclOf(protocol: seq<Interface>, from: Side, entry: Binding, opcode: nat): Option<MessageDecl> {
    if !entry.Known? || entry.i >= |protocol| then None
    else
      var decls := if from == Server then protocol[entry.i].events else protocol[entry.i].methods;
      if opcode < |decls| then Some(decls[opcode]) else None
  }

  predicate IsDeleteId(from: Side, msg: seq<byte>)
    requires |msg| >= 8
  {
    from == Server && SenderOf(msg) == 1 && OpcodeOf(msg) == DISPLAY_DELETE_ID
  }

  predicate IsBind(protocol: seq<Interface>, from: Side, entry: Binding, msg: seq<byte>)
    requires |msg| >= 8
  {
    from == Client && entry.Known? && entry.i < |protocol| &&
    protocol[entry.i].name == WL_REGISTRY && OpcodeOf(msg) == REGISTRY_BIND
  }

  /** What a message does to the table, told from its decoded arguments. */
  function Effect(protocol: seq<Interface>, from: Side, entry: Binding, msg: seq<byte>,
                  args: seq<Value>): Option<Change>
    requires |msg| >= 8
  {
    var decl := DeclOf(protocol, from, entry, OpcodeOf(msg));
    if decl.None? then None
    else if IsDeleteId(from, msg) then
      if args != [] && args[0].Num? then Some(Change(args[0].w, Free)) else None
    else
      var k := FirstNew(args);
      if k == |args| || k >= |decl.value.types| then None
      else
        var guess := if IsBind(protocol, from, entry, msg) && |msg| >= 16 then Some(CStr(msg[16..])) else None;
        Some(Change(args[k].n, NewBinding(protocol, decl.value.types[k], guess)))
  }

  /* ---- the same, told from the message alone ---- */

  /** The interface a new object is entered with: the declared one; else, in a bind request to the
      registry, the first whose name the message spells from its third argument word on; else unknown. */
  ghost predicate EnteredAs(protocol: seq<Interface>, i: nat, m: Seen, declared: Option<nat>, b: Binding)
    requires i < |protocol| && |m.msg| >= 8
  {
    var bind := m.from == Client && protocol[i].name == WL_REGISTRY && OpcodeOf(m.msg) == 0 && |m.msg| >= 16;
    match b
    case Known(j) =>
      || declared == Some(j)
      || (declared == None && bind && j < |protocol| && Spells(m.msg[16..], protocol[j].name)
          && forall l | 0 <= l < j :: !Spells(m.msg[16..], protocol[l].name))
    case Unknown =>
      declared == None && (bind ==> forall l | 0 <= l < |protocol| :: !Spells(m.msg[16..], protocol[l].name))
    case _ => false
  }

  /** Argument `k` is the first new id. */
  ghost predicate FirstIs(args: seq<Value>, k: nat, id: u32) {
    k < |args| && args[k] == NewId(id) && forall j | 0 <= j < k :: !args[j].NewId?
  }

  /** The message, on an object of interface `i` that knows its opcode, makes `b` the entry of `id`:
      delete_id frees the id it names; every other message enters its first new id. */
  ghost predicate SetsOn(protocol: seq<Interface>, i: nat, m: Seen, id: u32, b: Binding)
    requires i < |protocol| && |m.msg| >= 8
  {
    var decls := if m.from == Server then protocol[i].events else protocol[i].methods;
    && OpcodeOf(m.msg) < |decls|
    && if m.from == Server && SenderOf(m.msg) == 1 && OpcodeOf(m.msg) == 1
       then b == Free && m.args != [] && m.args[0] == Num(id)
       else exists k | 0 <= k < |decls[OpcodeOf(m.msg)].types| ::
              FirstIs(m.args, k, id) && EnteredAs(protocol, i, m, decls[OpcodeOf(m.msg)].types[k], b)
  }

  /** The message, on the object the table gives for its sender, makes `b` the entry of `id`. */
  ghost predicate Sets(protocol: seq<Interface>, view: map<u32, Binding>, m: Seen, id: u32, b: Binding) {
    |m.msg| >= 8 &&
    match Get(view, SenderOf(m.msg))
    case Known(i) => i < |protocol| && SetsOn(protocol, i, m, id, b)
    case _ => false
  }

  lemma BindingIs(protocol: seq<Interface>, i: nat, m: Seen, declared: Option<nat>, b: Binding)
    requires i < |protocol| && |m.msg| >= 8
    ensures var bind := IsBind(protocol, m.from, Known(i), m.msg) && |m.msg| >= 16;
            NewBinding(protocol, declared, if bind then Some(CStr(m.msg[16..])) else None) == b <==>
            EnteredAs(protocol, i, m, declared, b)
  {
    hide FindName, Spells, OpcodeOf;
    if |m.msg| >= 16 {
      var b, name := m.msg[16..], CStr(m.msg[16..]);
      forall l | 0 <= l < |protocol|
        ensures Spells(b, protocol[l].name) <==> protocol[l].name == name
      {
        SpellsIs(b, protocol[l].name);
      }
    }
  }

  /** What the pass makes of a message is what the message sets. */
  lemma {:induction false} EffectIs(protocol: seq<Interface>, view: map<u32, Binding>, m: Seen, id: u32, b: Binding)
    requires |m.msg| >= 8
    ensures Effect(protocol, m.from, Get(view, SenderOf(m.msg)), m.msg, m.args) == Some(Change(id, b)) <==>
            Sets(protocol, view, m, id, b)
  {
    hide FindName, Spells, SenderOf, OpcodeOf, EnteredAs, NewBinding, CStr, FirstNew;
    var entry, k := Get(view, SenderOf(m.msg)), FirstNew(m.args);
    forall j: nat | FirstIs(m.args, j, id)
      ensures j == k
    {
    }
    assert k < |m.args| ==> FirstIs(m.args, k, m.args[k].n);
    if entry.Known? && entry.i < |protocol| {
      var decl := DeclOf(protocol, m.from, entry, OpcodeOf(m.msg));
      if decl.Some? && k < |decl.value.types| {
        BindingIs(protocol, entry.i, m, decl.value.types[k], b);
      }
    }
  }

  lemma {:induction false} AppliedIs(protocol: seq<Interface>, view: map<u32, Binding>, m: Seen)
    requires |m.msg| >= 8
    ensures var view' := Apply(view, Effect(protocol, m.from, Get(view, SenderOf(m.msg)), m.msg, m.args));
            && (forall j, b :: Sets(protocol, view, m, j, b) ==> view' == view[j := b])
            && ((forall j, b :: !Sets(protocol, view, m, j, b)) ==> view' == view)
  {
    hide Effect, Sets;
    var e := Effect(protocol, m.from, Get(view, SenderOf(m.msg)), m.msg, m.args);
    forall j, b
      ensures Sets(protocol, view, m, j, b) <==> e == Some(Change(j, b))
    {
      EffectIs(protocol, view, m, j, b);
    }
    if e.Some? {
      assert Sets(protocol, view, m, e.value.id, e.value.entry);
    }
  }

  /** Nothing concerned `id` before, and this is what a new table holds for it. */
  ghost predicate Initially(protocol: seq<Interface>, id: u32, b: Binding) {
    if id != 1 then b == Null
    else match b
         case Known(j) => FirstNamed(protocol, WL_DISPLAY, j)
         case Null => forall k | 0 <= k < |protocol| :: protocol[k].name != WL_DISPLAY
         case _ => false
  }

  ghost predicate NoneSets(protocol: seq<Interface>, tables: seq<map<u32, Binding>>, run: seq<Seen>,
                           from: nat, to: nat, id: u32)
    requires to <= |run| <= |tables|
  {
    forall k, c | from <= k < to :: !Sets(protocol, tables[k], run[k], id, c)
  }

  /** Of the first `n` messages, the last that set `id` to anything set it to `b`; or none did, and
      `b` is there from the beginning. `tables[k]` is the table before message `k`. */
  ghost predicate LastSays(protocol: seq<Interface>, tables: seq<map<u32, Binding>>, run: seq<Seen>,
                           n: nat, id: u32, b: Binding)
    requires n <= |run| <= |tables|
  {
    || (NoneSets(protocol, tables, run, 0, n, id) && Initially(protocol, id, b))
    || exists k | 0 <= k < n ::
         Sets(protocol, tables[k], run[k], id, b) && NoneSets(protocol, tables, run, k + 1, n, id)
  }

  /** The name guessed in a bind request is its string argument. */
  lemma {:induction false} BindGuess(args: seq<Value>, msg: seq<byte>)
    requires |msg| >= 8 && Images(args, msg[8..])
    requires |args| >= 2 && args[0].Num? && args[1].Str? && args[1].s.Some?
    ensures |msg| >= 16 && CStr(msg[16..]) == CStr(args[1].s.value)
  {
    var body, s := msg[8..], args[1].s.value;
    ImageAt(args, body, 0);
    ImageAt(args, body, 1);
    assert args[..0] == [] && Offset(args, 1) == 4;
    var x := body[4..Offset(args, 2)];
    SliceOfSlice(body, 4, Offset(args, 2), 4, 4 + |s| + 1);
    assert msg[16..][..|s| + 1] == s + [0];
    StopsAtNul(msg[16..], s);
  }

  lemma {:induction false} StopsAtNul(b: seq<byte>, s: seq<byte>)
    requires |b| > |s| && b[..|s| + 1] == s + [0]
    ensures CStr(b) == CStr(s)
  {
    assert b[0] == (s + [0])[0];
    if s != [] {
      assert b[1..][..|s|] == b[..|s| + 1][1..] == s[1..] + [0];
      StopsAtNul(b[1..], s[1..]);
    }
  }

  /** What the pass asks of a message before it reads its arguments: an image of arguments of the
      declared kinds, under a signature its scan can read. */
  ghost predicate WellFormed(protocol: seq<Interface>, from: Side, entry: Binding, msg: seq<byte>, args: seq<Value>) {
    |msg| >= 8 &&
    var decl := DeclOf(protocol, from, entry, OpcodeOf(msg));
    decl.Some? ==>
      && OfKinds(Specs(decl.value.signature), args) && Images(args, msg[8..])
      && Readable(decl.value.signature) && |decl.value.types| >= |args|
      && (IsDeleteId(from, msg) ==> args != [] && args[0].Num?)
      && (IsBind(protocol, from, entry, msg) ==> |msg| >= 16)
  }

  function WordsOf(msg: seq<byte>): nat -> u32 {
    (i: nat) => if 4 * i + 4 <= |msg| then Word(msg[4 * i..4 * i + 4]) else 0
  }

  lemma WordsShow(msg: seq<byte>)
    requires |msg| >= 8
    ensures Shows(Behind(WordsOf(msg)), msg[8..])
  {
  }

  /** Interface pointers in the protocol tables point into them. */
  ghost predicate Closed(protocol: seq<Interface>) {
    forall i, j | 0 <= i < |protocol| ::
      && (0 <= j < |protocol[i].events| ==> InTables(protocol, protocol[i].events[j]))
      && (0 <= j < |protocol[i].methods| ==> InTables(protocol, protocol[i].methods[j]))
  }

  ghost predicate InTables(protocol: seq<Interface>, decl: MessageDecl) {
    forall k | 0 <= k < |decl.types| && decl.types[k].Some? :: decl.types[k].value < |protocol|
  }

  ghost predicate Pointing(protocol: seq<Interface>, entry: Binding) { entry.Known? ==> entry.i < |protocol| }

  function Get(view: map<u32, Binding>, id: u32): Binding {
    if id in view then view[id] else Null
  }

  function Apply(view: map<u32, Binding>, change: Option<Change>): map<u32, Binding> {
    if change.None? then view else view[change.value.id := change.value.entry]
  }

  /** What a new table holds: nothing under id 0, the display under id 1. */
  function Start(protocol: seq<Interface>): (view: map<u32, Binding>)
    ensures forall id: u32 :: Get(view, id) ==
              var display := FindName(protocol, WL_DISPLAY);
              if id == 1 && display.Some? then Known(display.value) else Null
  {
    var display := FindName(protocol, WL_DISPLAY);
    map[0 := Null, 1 := if display.Some? then Known(display.value) else Null]
  }

  class Resolver {
    const protocol: seq<Interface>
    const table: IdTable<Binding>
    /** The table as a map. */
    ghost var view: map<u32, Binding>

    ghost function Repr(): set<object>
      reads this, table, table.client.arr, table.server.arr
    {
      {this} + table.Repr()
    }

    ghost predicate Valid()
      reads this, table, table.client, table.client.arr, table.client.arr.data
      reads table.server, table.server.arr, table.server.arr.data
    {
      && table.Valid() && this !in table.Repr() && Closed(protocol)
      && forall id: u32 :: table.Look(id) == Get(view, id) && Pointing(protocol, Get(view, id))
    }

    /** `create_resolved_objects`: id 0 is empty, id 1 the display. */
    constructor (protocol: seq<Interface>)
      requires Closed(protocol)
      ensures Valid() && fresh(Repr()) && this.protocol == protocol && view == Start(protocol)
    {
      hide FindName, IdTable.Valid;
      this.protocol := protocol;
      table := new IdTable<Binding>(Null);
      view := map[];
      new;
      var display := GetInterface(WL_DISPLAY);
      Put(0, Null);
      Put(1, if display.Some? then Known(display.value) else Null);
    }

    /** `resolved_objects_put`. */
    method Put(id: u32, entry: Binding)
      requires Valid() && Pointing(protocol, entry)
      modifies Repr()
      ensures Valid() && view == old(view)[id := entry] && fresh(Repr() - old(Repr()))
    {
      hide IdTable.Valid, IdTable.Look;
      table.Put(id, entry);
      view := view[id := entry];
    }

    /** `get_interface`. */
    method GetInterface(name: seq<byte>) returns (i: Option<nat>)
      ensures i == FindName(protocol, name)
    {
      for k := 0 to |protocol|
        invariant FindName(protocol[..k], name).None?
      {
        assert protocol[..k + 1][..k] == protocol[..k];
        if protocol[k].name == name {
          FoundFirst(protocol, name, k);
          return Some(k);
        }
      }
      assert protocol[..|protocol|] == protocol;
      return None;
    }

    /** `get_new_ids`. A second new id would keep its loop from ending. */
    method GetNewIds(mem: nat -> u32, decl: MessageDecl, guess: Option<seq<byte>>)
      requires Valid() && OneNewId(decl.signature) && InTables(protocol, decl)
      requires FirstN(decl.signature) < |decl.signature| ==> FirstN(decl.signature) < |decl.types|
      modifies Repr()
      ensures Valid() && fresh(Repr() - old(Repr()))
      ensures var sig, p := decl.signature, FirstN(decl.signature);
              view == if p == |sig| then old(view)
                      else old(view)[mem(ScanPos(sig, mem, 2)) := NewBinding(protocol, decl.types[p], guess)]
      ensures var sig, p := decl.signature, FirstN(decl.signature);
              p < |sig| ==> Chosen(protocol, decl.types[p], guess, Get(view, mem(ScanPos(sig, mem, 2))))
    {
      hide IdTable.Valid, IdTable.Look, FindName, ScanPos, Valid;
      var sig, pos := decl.signature, 0;
      assert sig[0..] == sig;
      var idPos := NewIdPos(sig);
      while idPos >= 0
        invariant Valid() && fresh(Repr() - old(Repr())) && 0 <= pos <= |sig|
        invariant idPos == if FirstN(sig[pos..]) < |sig[pos..]| then FirstN(sig[pos..]) else -1
        invariant pos == 0 || (idPos == -1 && pos == FirstN(sig) + 1)
        invariant view == if pos == 0 then old(view)
                          else var entry := NewBinding(protocol, decl.types[FirstN(sig)], guess);
                               old(view)[mem(ScanPos(sig, mem, 2)) := entry]
        decreases if idPos >= 0 then 1 else 0
      {
        assert sig[idPos] == 'n';
        var newId := GetNewId(sig[pos..], mem);
        var intf := decl.types[idPos];
        if intf.None? && guess.Some? {
          intf := GetInterface(guess.value);
        }
        Put(newId, if intf.Some? then Known(intf.value) else Unknown);
        pos := idPos + 1;
        assert forall k | pos <= k < |sig| :: sig[k] != 'n';
        idPos := NewIdPos(sig[pos..]);
      }
    }

    /** `resolve_in` and `resolve_out`: they differ in the declarations they look in, in the special
        message, and in the guess. Messages on unknown, freed or unseen objects and messages with
        opcodes out of range change nothing. */
    method Pass(from: Side, msg: seq<byte>, ghost args: seq<Value>)
      requires Valid() && |msg| >= 8 && WellFormed(protocol, from, Get(view, SenderOf(msg)), msg, args)
      modifies Repr()
      ensures Valid() && fresh(Repr() - old(Repr()))
      ensures view == Apply(old(view), Effect(protocol, from, Get(old(view), SenderOf(msg)), msg, args))
      ensures forall j, b :: Sets(protocol, old(view), Seen(from, msg, args), j, b) ==> view == old(view)[j := b]
      ensures (forall j, b :: !Sets(protocol, old(view), Seen(from, msg, args), j, b)) ==> view == old(view)
    {
      hide Sets, Chosen, FindName, NewBinding, ScanPos, Images, OfKinds, FirstN, FirstNew, Specs, Word, WordsOf;
      hide IdTable.Valid, IdTable.Look;
      AppliedIs(protocol, view, Seen(from, msg, args));
      var id, opcode := Word(msg[..4]), Word(msg[4..8]) % 65536;
      var entry := table.Get(id);
      if !entry.Known? {
        return;
      }
      var intf := protocol[entry.i];
      var decls := if from == Server then intf.events else intf.methods;
      if |decls| <= opcode {
        return;
      }
      var decl := decls[opcode];
      if from == Server && id == 1 && opcode == DISPLAY_DELETE_ID {
        FirstWord(args, msg);
        Put(WordsOf(msg)(2), Free);
      } else {
        var guess := None;
        if from == Client && intf.name == WL_REGISTRY && opcode == REGISTRY_BIND {
          guess := Some(CStr(msg[16..]));
        }
        SameNewId(decl.signature, args);
        WordsShow(msg);
        if FirstN(decl.signature) < |decl.signature| {
          NewIdFound(decl.signature, args, msg, WordsOf(msg));
        }
        GetNewIds(WordsOf(msg), decl, guess);
      }
    }

    /** `wldbg_resolve_message`: finds a declaration for exactly the messages with a sound header
        that the pass would look into. */
    method ResolveMessage(from: Side, msg: seq<byte>) returns (decl: Option<MessageDecl>)
      requires Valid() && |msg| >= 8
      ensures decl == if SizeOf(msg) >= 8 && SizeOf(msg) % 4 == 0
                      then DeclOf(protocol, from, Get(view, SenderOf(msg)), OpcodeOf(msg)) else None
    {
      hide Word, IdTable.Valid, IdTable.Look;
      var id, opcode, size, ok := ParseHeader(msg);
      if !ok {
        return None;
      }
      var entry := table.Get(id);
      if !entry.Known? {
        return None;
      }
      var intf := protocol[entry.i];
      if from == Server {
        return if |intf.events| <= opcode then None else Some(intf.events[opcode]);
      }
      return if |intf.methods| <= opcode then None else Some(intf.methods[opcode]);
    }
  }

  ghost predicate AllWellFormed(protocol: seq<Interface>, view: map<u32, Binding>, run: seq<Seen>)
    decreases run
  {
    run == [] ||
    var m := run[0];
    && |m.msg| >= 8 && WellFormed(protocol, m.from, Get(view, SenderOf(m.msg)), m.msg, m.args)
    && AllWellFormed(protocol, After(protocol, view, m), run[1..])
  }

  /** The table after one message, and after a run of them. */
  function After(protocol: seq<Interface>, view: map<u32, Binding>, m: Seen): map<u32, Binding> {
    if |m.msg| < 8 then view
    else Apply(view, Effect(protocol, m.from, Get(view, SenderOf(m.msg)), m.msg, m.args))
  }

  function Replay(protocol: seq<Interface>, view: map<u32, Binding>, run: seq<Seen>): map<u32, Binding>
    decreases run
  {
    if run == [] then view else Replay(protocol, After(protocol, view, run[0]), run[1..])
  }

  /** What the last message of the run that concerned `id` said about it. */
  function LastWord(protocol: seq<Interface>, view: map<u32, Binding>, run: seq<Seen>, id: u32): Option<Binding>
    decreases run
  {
    if run == [] then None
    else
      var m := run[0];
      var later := LastWord(protocol, After(protocol, view, m), run[1..], id);
      if later.Some? || |m.msg| < 8 then later
      else match Effect(protocol, m.from, Get(view, SenderOf(m.msg)), m.msg, m.args)
           case None => None
           case Some(c) => if c.id == id then Some(c.entry) else None
  }

  /** After any run a lookup gives the interface, or FREE, of the last message that created or
      deleted the id, and what stood there before the run if there was none. */
  lemma {:induction false} LookupIsLastWord(protocol: seq<Interface>, view: map<u32, Binding>, run: seq<Seen>, id: u32)
    ensures Get(Replay(protocol, view, run), id) ==
            var last := LastWord(protocol, view, run, id);
            if last.Some? then last.value else Get(view, id)
    decreases run
  {
    hide Effect;
    if run != [] {
      LookupIsLastWord(protocol, After(protocol, view, run[0]), run[1..], id);
    }
  }

  /** The tables before each message of a run and after the last. */
  ghost predicate TablesOf(protocol: seq<Interface>, tables: seq<map<u32, Binding>>, run: seq<Seen>) {
    && |tables| == |run| + 1
    && forall k | 0 <= k < |run| :: |run[k].msg| >= 8 && tables[k + 1] == After(protocol, tables[k], run[k])
  }

  lemma {:induction false} TablesExist(protocol: seq<Interface>, view: map<u32, Binding>, run: seq<Seen>)
    returns (tables: seq<map<u32, Binding>>)
    requires AllWellFormed(protocol, view, run)
    ensures TablesOf(protocol, tables, run) && tables[0] == view && tables[|run|] == Replay(protocol, view, run)
    decreases run
  {
    hide WellFormed, After;
    tables := [view];
    if run != [] {
      var rest := TablesExist(protocol, After(protocol, view, run[0]), run[1..]);
      tables := tables + rest;
      forall k | 0 <= k < |run|
        ensures |run[k].msg| >= 8 && tables[k + 1] == After(protocol, tables[k], run[k])
      {
        if k > 0 {
          assert run[k] == run[1..][k - 1] && tables[k] == rest[k - 1] && tables[k + 1] == rest[k];
        }
      }
    }
  }

  lemma StartSays(protocol: seq<Interface>, id: u32, b: Binding)
    ensures Get(Start(protocol), id) == b <==> Initially(protocol, id, b)
  {
  }

  /** One message more: if it sets the id, that counts, else what counted before. */
  lemma {:induction false} SaysNext(protocol: seq<Interface>, tables: seq<map<u32, Binding>>, run: seq<Seen>,
                                    n: nat, id: u32, b: Binding)
    requires n < |run| <= |tables|
    ensures (exists c :: Sets(protocol, tables[n], run[n], id, c)) && |run[n].msg| >= 8 ==>
              (LastSays(protocol, tables, run, n + 1, id, b) <==> Sets(protocol, tables[n], run[n], id, b))
    ensures (forall c :: !Sets(protocol, tables[n], run[n], id, c)) ==>
              (LastSays(protocol, tables, run, n + 1, id, b) <==> LastSays(protocol, tables, run, n, id, b))
  {
    hide Sets, Initially;
    var end := n + 1;
    if c :| Sets(protocol, tables[n], run[n], id, c) {
      assert forall k | 0 <= k <= n :: !NoneSets(protocol, tables, run, k, end, id);
      assert NoneSets(protocol, tables, run, end, end, id);
    } else {
      assert forall k | 0 <= k <= n ::
          NoneSets(protocol, tables, run, k, end, id) <==> NoneSets(protocol, tables, run, k, n, id);
    }
  }

  /** After every message of every run, a lookup gives exactly what the messages so far say. */
  lemma {:induction false} TablesSay(protocol: seq<Interface>, tables: seq<map<u32, Binding>>, run: seq<Seen>,
                                     n: nat, id: u32, b: Binding)
    requires TablesOf(protocol, tables, run) && tables[0] == Start(protocol) && n <= |run|
    ensures Get(tables[n], id) == b <==> LastSays(protocol, tables, run, n, id, b)
  {
    hide Sets, Effect, Initially, LastSays, Start;
    if n == 0 {
      StartSays(protocol, id, b);
      SaysNone(protocol, tables, run, id, b);
    } else {
      var m, view := run[n - 1], tables[n - 1];
      TablesSay(protocol, tables, run, n - 1, id, b);
      SaysNext(protocol, tables, run, n - 1, id, b);
      forall c
        ensures Effect(protocol, m.from, Get(view, SenderOf(m.msg)), m.msg, m.args) == Some(Change(id, c)) <==>
                Sets(protocol, view, m, id, c)
      {
        EffectIs(protocol, view, m, id, c);
      }
      assert tables[n] == After(protocol, view, m);
      var e := Effect(protocol, m.from, Get(view, SenderOf(m.msg)), m.msg, m.args);
      if e.Some? && e.value.id == id {
        assert Sets(protocol, view, m, id, e.value.entry);
      }
    }
  }

  lemma SaysNone(protocol: seq<Interface>, tables: seq<map<u32, Binding>>, run: seq<Seen>, id: u32, b: Binding)
    requires |run| <= |tables|
    ensures LastSays(protocol, tables, run, 0, id, b) <==> Initially(protocol, id, b)
  {
    hide Initially;
  }

  /** The pass over a run: its table is the replay of the run. */
  method PassAll(r: Resolver, msgs: seq<(Side, seq<byte>)>, ghost run: seq<Seen>)
    requires r.Valid() && |run| == |msgs| && forall k | 0 <= k < |run| :: (run[k].from, run[k].msg) == msgs[k]
    requires AllWellFormed(r.protocol, r.view, run)
    modifies r.Repr()
    ensures r.Valid() && r.view == Replay(r.protocol, old(r.view), run)
  {
    hide Resolver.Valid, WellFormed, Effect, Apply;
    assert run[0..] == run;
    for k := 0 to |msgs|
      invariant r.Valid() && fresh(r.Repr() - old(r.Repr()))
      invariant AllWellFormed(r.protocol, r.view, run[k..])
      invariant Replay(r.protocol, r.view, run[k..]) == Replay(r.protocol, old(r.view), run)
    {
      assert run[k..][0] == run[k] && run[k..][1..] == run[k + 1..];
      r.Pass(msgs[k].0, msgs[k].1, run[k].args);
    }
    assert run[|msgs|..] == [];
  }

  /** The whole pass, from `create_resolved_objects` over any run of well-formed messages: a lookup gives
      what the last message that created or deleted the id said, else the display for id 1, else NULL.
      `tables` are the tables before each message and after the last. */
  method ResolveAll(protocol: seq<Interface>, msgs: seq<(Side, seq<byte>)>, ghost run: seq<Seen>, id: u32)
    returns (r: Resolver, entry: Binding, ghost tables: seq<map<u32, Binding>>)
    requires Closed(protocol) && AllWellFormed(protocol, Start(protocol), run)
    requires |run| == |msgs| && forall k | 0 <= k < |run| :: (run[k].from, run[k].msg) == msgs[k]
    ensures r.Valid() && r.view == Replay(protocol, Start(protocol), run)
    ensures entry == Get(Replay(protocol, Start(protocol), run), id)
    ensures |tables| == |run| + 1 && r.view == tables[|run|] && entry == Get(tables[|run|], id)
    ensures forall n, j: u32, b | 0 <= n <= |run| ::
              Get(tables[n], j) == b <==> LastSays(protocol, tables, run, n, j, b)
  {
    hide Effect, WellFormed, AllWellFormed, Replay, LastSays, TablesOf, IdTable.Valid, IdTable.Look, FindName, Start;
    r := new Resolver(protocol);
    PassAll(r, msgs, run);
    entry := r.table.Get(id);
    tables := TablesExist(protocol, Start(protocol), run);
    TablesCount(protocol, tables, run);
    forall n, j: u32, b | 0 <= n <= |run|
      ensures Get(tables[n], j) == b <==> LastSays(protocol, tables, run, n, j, b)
    {
      TablesSay(protocol, tables, run, n, j, b);
    }
  }

  lemma TablesCount(protocol: seq<Interface>, tables: seq<map<u32, Binding>>, run: seq<Seen>)
    requires TablesOf(protocol, tables, run)
    ensures |tables| == |run| + 1
  {
  }

  lemma {:induction false} FirstWord(args: seq<Value>, msg: seq<byte>)
    requires |msg| >= 8 && Images(args, msg[8..]) && args != [] && args[0].Num?
    ensures WordsOf(msg)(2) == args[0].w
  {
    ImageAt(args, msg[8..], 0);
    WordOfLe32(args[0].w);
    assert args[..0] == [] && msg[8..][0..4] == msg[8..12];
  }

  lemma {:induction false} FoundFirst(protocol: seq<Interface>, name: seq<byte>, k: nat)
    requires k < |protocol| && protocol[k].name == name && FindName(protocol[..k], name).None?
    ensures FindName(protocol, name) == Some(k)
    decreases |protocol|
  {
    var init := protocol[..|protocol| - 1];
    if k < |protocol| - 1 {
      assert init[..k] == protocol[..k];
      FoundFirst(init, name, k);
    }
  }
}
