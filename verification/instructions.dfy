/**
 The instruction vocabulary of commands (`instruction/instruction.go`).

 An instruction is a Go `uint32`; the eight named instructions are single set
 bits. Any other value, including the zero value that a freshly declared
 variable holds, is representable and prints as "???".
 */
module Instructions {
  import opened Outcomes

  /** Go's `uint32`. */
  newtype Instruction = x: int | 0 <= x < 0x1_0000_0000

  const Rem: Instruction := 1
  const Mkdir: Instruction := 2
  const Copy: Instruction := 4
  const Chmod: Instruction := 8
  const Chown: Instruction := 16
  const Chgrp: Instruction := 32
  const Rm: Instruction := 64
  const Exec: Instruction := 128

  /** The named instructions, in declaration order. */
  const Tags: seq<Instruction> := [Rem, Mkdir, Copy, Chmod, Chown, Chgrp, Rm, Exec]

  predicate IsTag(i: Instruction) {
    i in Tags
  }

  /** 2 to the power k: the value of `1 << k`. */
  function Pow2(k: nat): (p: nat)
    ensures p >= 1
  {
    if k == 0 then 1 else 2 * Pow2(k - 1)
  }

  /** The tags are the bits 1<<0 .. 1<<7, one per declaration, so no two coincide. */
  lemma TagsArePowersOfTwo()
    ensures |Tags| == 8
    ensures forall k :: 0 <= k < |Tags| ==> Tags[k] as int == Pow2(k)
    ensures forall j, k :: 0 <= j < k < |Tags| ==> Tags[j] != Tags[k]
  {
    assert Pow2(0) == 1 && Pow2(1) == 2 && Pow2(2) == 4 && Pow2(3) == 8;
    assert Pow2(4) == 16 && Pow2(5) == 32 && Pow2(6) == 64 && Pow2(7) == 128;
  }

  datatype Error =
    | UnknownInstruction(value: Instruction)   // MarshalText of a value that is not a tag
    | UnknownCommand(token: string)            // UnmarshalText of a token that is not a key

  /** `Instruction.String`: the printed name of a tag, "???" for anything else.
      Every tag but Exec prints as its upper-case key; Exec prints as "Exec". */
  function Name(i: Instruction): (s: string)
    ensures s == "???" <==> !IsTag(i)
    ensures IsTag(i) && i != Exec ==> s in Keys && Keys[s] == i
    ensures i == Exec ==> s !in Keys
  {
    if i == Rem then "REM"
    else if i == Mkdir then "MKDIR"
    else if i == Copy then "COPY"
    else if i == Chmod then "CHMOD"
    else if i == Chown then "CHOWN"
    else if i == Chgrp then "CHGRP"
    else if i == Rm then "RM"
    else if i == Exec then "Exec"
    else "???"
  }

  /** `Instruction.MarshalText`: fails exactly for values that are not tags. */
  function Marshal(i: Instruction): (r: Run<string, Error>)
    ensures !r.Crash?
    ensures r.Err? <==> !IsTag(i)
    ensures r.Err? ==> r == Err([], UnknownInstruction(i))
    ensures r.Ok? ==> r.value == Name(i) && r.value != "???"
  {
    var s := Name(i);
    if s == "???" then Err([], UnknownInstruction(i)) else Ok(s)
  }

  /** The lookup table of `Instruction.UnmarshalText`: upper-case keys only. */
  const Keys: map<string, Instruction> := map[
    "REM" := Rem,
    "MKDIR" := Mkdir,
    "COPY" := Copy,
    "CHMOD" := Chmod,
    "CHOWN" := Chown,
    "CHGRP" := Chgrp,
    "RM" := Rm,
    "EXEC" := Exec
  ]

  /** `Instruction.UnmarshalText` on a receiver holding `prev`: a key sets the
      receiver to its tag; any other token is an error and leaves it as it was. */
  function Unmarshal(prev: Instruction, p: string): (r: Run<Instruction, Error>)
    ensures !r.Crash?
    ensures r.Ok? <==> p in Keys
    ensures r.Ok? ==> IsTag(r.value)
    ensures r.Err? ==> r == Err(prev, UnknownCommand(p))
  {
    if p in Keys then Ok(Keys[p]) else Err(prev, UnknownCommand(p))
  }

  /** Distinct keys decode to distinct tags, and every tag has a key. */
  lemma KeysAreOneToOne()
    ensures forall p, q :: p in Keys && q in Keys && p != q ==> Keys[p] != Keys[q]
    ensures forall i :: IsTag(i) ==> exists p :: p in Keys && Keys[p] == i
  {
    assert Keys["REM"] == Rem && Keys["MKDIR"] == Mkdir && Keys["COPY"] == Copy;
    assert Keys["CHMOD"] == Chmod && Keys["CHOWN"] == Chown && Keys["CHGRP"] == Chgrp;
    assert Keys["RM"] == Rm && Keys["EXEC"] == Exec;
  }

  /** Decoding is case-sensitive: the lower-case spelling of a key is rejected. */
  lemma LowerCaseIsRejected(prev: Instruction)
    ensures Unmarshal(prev, "mkdir") == Err(prev, UnknownCommand("mkdir"))
    ensures Unmarshal(prev, "MKDIR") == Ok(Mkdir)
  {
  }

  /** Printing then parsing gives back every tag except Exec. */
  lemma RoundTrip(prev: Instruction, i: Instruction)
    requires IsTag(i) && i != Exec
    ensures Unmarshal(prev, Name(i)) == Ok(i)
  {
  }

  /** Exec does not survive the round trip: it prints as "Exec", which is not a key. */
  lemma ExecDoesNotRoundTrip(prev: Instruction)
    ensures Marshal(Exec) == Ok("Exec")
    ensures Unmarshal(prev, Name(Exec)) == Err(prev, UnknownCommand("Exec"))
  {
  }

  /** Parsing then printing gives back the token, except for "EXEC". */
  lemma UnmarshalThenName(prev: Instruction, p: string)
    requires Unmarshal(prev, p).Ok?
    ensures p == "EXEC" || Name(Unmarshal(prev, p).value) == p
    ensures p == "EXEC" ==> Name(Unmarshal(prev, p).value) == "Exec"
  {
  }
}
