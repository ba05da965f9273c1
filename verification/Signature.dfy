/** Message signatures: type letters, each possibly preceded by `?`, with version
    digits (and anything else) skipped. */
module Signatures {
  import opened Bytes

  datatype ArgSpec = ArgSpec(kind: char, nullable: bool)

  predicate IsType(c: char) {
    c == 'i' || c == 'u' || c == 'f' || c == 's' || c == 'o' || c == 'n' || c == 'a' || c == 'h'
  }

  /** The arguments a signature declares; `nullable` when a `?` was seen since the last letter. */
  function Specs(sig: string, nullable: bool := false): (specs: seq<ArgSpec>)
    ensures |specs| <= |sig|
    ensures forall k | 0 <= k < |specs| :: IsType(specs[k].kind)
  {
    if sig == "" then []
    else if IsType(sig[0]) then [ArgSpec(sig[0], nullable)] + Specs(sig[1..])
    else Specs(sig[1..], nullable || sig[0] == '?')
  }

  const LETTERS := "iufsonah"

  /** A `?` stands behind the last type letter. */
  ghost predicate Asked(sig: string) {
    exists j | 0 <= j < |sig| :: sig[j] == '?' && NoLetter(sig, j)
  }

  ghost predicate NoLetter(sig: string, from: nat) {
    forall i | from <= i < |sig| :: sig[i] !in LETTERS
  }

  lemma {:induction false} AskedAfter(c: char, sig: string)
    ensures Asked([c] + sig) <==> Asked(sig) || (c == '?' && NoLetter(sig, 0))
    ensures NoLetter([c] + sig, 0) <==> c !in LETTERS && NoLetter(sig, 0)
  {
    var all := [c] + sig;
    forall j: nat | j <= |sig|
      ensures NoLetter(all, j + 1) <==> NoLetter(sig, j)
    {
      assert forall i | j <= i < |sig| :: sig[i] == all[i + 1];
      assert forall i | j + 1 <= i < |all| :: all[i] == sig[i - 1];
    }
    if j :| 0 <= j < |sig| && sig[j] == '?' && NoLetter(sig, j) {
      assert all[j + 1] == '?' && NoLetter(all, j + 1);
    }
    if j :| 0 <= j < |all| && all[j] == '?' && NoLetter(all, j) {
      if j > 0 {
        assert sig[j - 1] == '?' && NoLetter(all, j - 1 + 1);
      } else {
        assert all[0] == c && NoLetter(all, 0 + 1);
      }
    }
    assert NoLetter(all, 0 + 1) ==> (NoLetter(all, 0) <==> all[0] !in LETTERS);
    assert c == '?' && NoLetter(sig, 0) ==> NoLetter(all, 0) && all[0] == '?';
  }

  /** Read from its end, a signature declares one argument for each type letter, nullable exactly if a
      `?` stands between it and the letter before it. */
  lemma {:induction false} SpecsSnoc(sig: string, c: char, nullable: bool)
    ensures Specs("", nullable) == []
    ensures Specs(sig + [c], nullable) == Specs(sig, nullable) +
              if c in LETTERS then [ArgSpec(c, Asked(sig) || (nullable && NoLetter(sig, 0)))] else []
  {
    hide Asked, NoLetter;
    if sig == "" {
      NotAsked();
      assert sig + [c] == [c] && [c][1..] == "";
    } else {
      var tail := sig[1..];
      var asked := if IsType(sig[0]) then false else nullable || sig[0] == '?';
      SpecsSnoc(tail, c, asked);
      assert (sig + [c])[1..] == tail + [c] && sig == [sig[0]] + tail;
      AskedAfter(sig[0], tail);
      LettersAre(sig[0]);
    }
    LettersAre(c);
  }

  lemma LettersAre(c: char)
    ensures IsType(c) <==> c in LETTERS
  {
  }

  lemma NotAsked()
    ensures !Asked("") && NoLetter("", 0)
  {
  }

  /** `get_next_argument`. */
  method GetNextArgument(signature: string) returns (arg: Option<ArgSpec>, rest: string)
    ensures Specs(signature) == if arg.Some? then [arg.value] + Specs(rest) else []
    ensures if arg.Some? then |rest| < |signature| && IsType(arg.value.kind) else rest == ""
  {
    var nullable := false;
    rest := signature;
    while rest != ""
      invariant Specs(signature) == Specs(rest, nullable)
      invariant |rest| <= |signature|
      decreases |rest|
    {
      if IsType(rest[0]) {
        return Some(ArgSpec(rest[0], nullable)), rest[1..];
      }
      if rest[0] == '?' {
        nullable := true;
      }
      rest := rest[1..];
    }
    return None, rest;
  }

  /** `arg_count_for_signature`. */
  method ArgCount(signature: string) returns (count: nat)
    ensures count == |Specs(signature)|
  {
    count := 0;
    ghost var nullable := false;
    var rest := signature;
    while rest != ""
      invariant |Specs(signature)| == count + |Specs(rest, nullable)|
      decreases |rest|
    {
      if IsType(rest[0]) {
        count := count + 1;
        nullable := false;
      } else if rest[0] == '?' {
        nullable := true;
      }
      rest := rest[1..];
    }
  }
}
