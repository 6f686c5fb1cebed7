/** The classic-BPF macros of BpfClassic.h as a small assembler, and a machine to run their output.

    A filter is a list of blocks, one per macro, read top to bottom.  `Flatten` is the macro
    expansion: instructions with jump offsets counted in instructions.  `Eval` is what the block's
    comment says it does.  The main theorem says that running the one is evaluating the other. */
module ClassicBpf {
  import opened Options
  import opened Words

  type Word8 = x: nat | x < 0x100

  // ---- instructions: struct sock_filter and the opcode fields ----

  datatype Insn = Insn(code: nat, jt: Word8, jf: Word8, k: Word32)

  const BPF_LD := 0x00
  const BPF_LDX := 0x01
  const BPF_ALU := 0x04
  const BPF_JMP := 0x05
  const BPF_RET := 0x06
  const BPF_MISC := 0x07
  const BPF_W := 0x00
  const BPF_H := 0x08
  const BPF_B := 0x10
  const BPF_IMM := 0x00
  const BPF_ABS := 0x20
  const BPF_IND := 0x40
  const BPF_MSH := 0xa0
  const BPF_ADD := 0x00
  const BPF_LSH := 0x60
  const BPF_JEQ := 0x10
  const BPF_JGT := 0x20
  const BPF_JGE := 0x30
  const BPF_JSET := 0x40
  const BPF_K := 0x00
  const BPF_X := 0x08
  const BPF_TAX := 0x00

  /** Where ancillary data and the network and link-layer headers start, as signed offsets. */
  const SKF_AD_OFF: int := -0x1000
  const SKF_NET_OFF: int := -0x10_0000
  const SKF_LL_OFF: int := -0x20_0000
  const SKF_AD_PROTOCOL := 0

  const ACCEPT: Word32 := 0xFFFF_FFFF
  const REJECT: Word32 := 0

  function Stmt(code: nat, k: int): Insn { Insn(code, 0, 0, U32(k)) }

  /** The offset fields are 8 bits wide. */
  function Jump(code: nat, k: Word32, jt: nat, jf: nat): Insn { Insn(code, jt % 256, jf % 256, k) }

  // ---- packets ----

  datatype Packet = Packet(protocol: Word32, data: seq<byte>, mac: seq<byte>, net: seq<byte>)

  datatype Size = U8 | Be16 | Be32

  function SizeBits(size: Size): nat {
    match size case U8 => BPF_B case Be16 => BPF_H case Be32 => BPF_W
  }

  function Length(size: Size): nat {
    match size case U8 => 1 case Be16 => 2 case Be32 => 4
  }

  function BigEndian(s: seq<byte>): nat
    decreases |s|
  {
    if s == [] then 0 else 256 * BigEndian(s[..|s| - 1]) + s[|s| - 1]
  }

  function Slice(s: seq<byte>, ofs: nat, size: Size): Option<Word32> {
    if ofs + Length(size) <= |s| then Some(U32(BigEndian(s[ofs..ofs + Length(size)]))) else None
  }

  /** The kernel's rule for a signed packet offset. */
  function Fetch(pkt: Packet, offset: int, size: Size): Option<Word32> {
    if offset >= 0 then Slice(pkt.data, offset, size)
    else if offset >= SKF_NET_OFF then Slice(pkt.net, offset - SKF_NET_OFF, size)
    else if offset >= SKF_LL_OFF then Slice(pkt.mac, offset - SKF_LL_OFF, size)
    else None
  }

  function Int32(x: int): int {
    if U32(x) >= 0x8000_0000 then U32(x) - 0x1_0000_0000 else U32(x)
  }

  // ---- the machine ----

  datatype Regs = Regs(a: Word32, x: Word32)

  /** What an instruction that is neither a jump nor a return does: a failed load ends the program
      with verdict 0; an opcode no macro produces is not executed. */
  datatype Effect = Next(r: Regs) | Fault | Unknown

  function SetA(r: Regs, v: Option<Word32>): Effect {
    if v.Some? then Next(r.(a := v.value)) else Fault
  }

  function Exec(i: Insn, pkt: Packet, r: Regs): Effect {
    if i.code == BPF_LD + BPF_IMM then Next(r.(a := i.k))
    else if i.code == BPF_LD + BPF_B + BPF_ABS then SetA(r, Absolute(pkt, i.k, U8))
    else if i.code == BPF_LD + BPF_H + BPF_ABS then SetA(r, Absolute(pkt, i.k, Be16))
    else if i.code == BPF_LD + BPF_W + BPF_ABS then SetA(r, Absolute(pkt, i.k, Be32))
    else if i.code == BPF_LD + BPF_B + BPF_IND then SetA(r, Fetch(pkt, Int32(r.x + i.k), U8))
    else if i.code == BPF_LD + BPF_H + BPF_IND then SetA(r, Fetch(pkt, Int32(r.x + i.k), Be16))
    else if i.code == BPF_LD + BPF_W + BPF_IND then SetA(r, Fetch(pkt, Int32(r.x + i.k), Be32))
    else if i.code == BPF_LDX + BPF_W + BPF_IMM then Next(r.(x := i.k))
    else if i.code == BPF_LDX + BPF_B + BPF_MSH then (
      var v := Fetch(pkt, Int32(i.k), U8);
      if v.Some? then Next(r.(x := U32(BitAnd(v.value, 0xf) * 4))) else Fault)
    else if i.code == BPF_ALU + BPF_ADD + BPF_K then Next(r.(a := U32(r.a + i.k)))
    else if i.code == BPF_ALU + BPF_ADD + BPF_X then Next(r.(a := U32(r.a + r.x)))
    else if i.code == BPF_ALU + BPF_LSH + BPF_K then Next(r.(a := U32(Shl(r.a, i.k))))
    else if i.code == BPF_MISC + BPF_TAX then Next(r.(x := r.a))
    else Unknown
  }

  /** An absolute load; offsets from SKF_AD_OFF on name ancillary data, of which only the
      protocol is used. */
  function Absolute(pkt: Packet, k: Word32, size: Size): Option<Word32> {
    if Int32(k) == SKF_AD_OFF + SKF_AD_PROTOCOL then Some(pkt.protocol)
    else if SKF_AD_OFF <= Int32(k) < 0 then None
    else Fetch(pkt, Int32(k), size)
  }

  predicate IsJump(i: Insn) { i.code % 8 == BPF_JMP }

  predicate Taken(i: Insn, a: Word32) {
    if i.code == BPF_JMP + BPF_JEQ + BPF_K then a == i.k
    else if i.code == BPF_JMP + BPF_JGT + BPF_K then a > i.k
    else if i.code == BPF_JMP + BPF_JGE + BPF_K then a >= i.k
    else i.code == BPF_JMP + BPF_JSET + BPF_K && BitAnd(a, i.k) != 0
  }

  /** Runs the program from instruction pc; None if it leaves the program or meets an unknown
      opcode. */
  function RunAt(prog: seq<Insn>, pc: nat, pkt: Packet, r: Regs): Option<Word32>
    decreases |prog| - pc
  {
    if pc >= |prog| then None
    else
      var i := prog[pc];
      if i.code == BPF_RET + BPF_K then Some(i.k)
      else if IsJump(i) then RunAt(prog, pc + 1 + (if Taken(i, r.a) then i.jt else i.jf), pkt, r)
      else
        match Exec(i, pkt, r)
        case Next(r') => RunAt(prog, pc + 1, pkt, r')
        case Fault => Some(REJECT)
        case Unknown => None
  }

  /** The same machine on what is left of a program: jumps only go forward. */
  function Run(code: seq<Insn>, pkt: Packet, r: Regs): Option<Word32>
    decreases |code|
  {
    if code == [] then None
    else
      var i := code[0];
      if i.code == BPF_RET + BPF_K then Some(i.k)
      else if IsJump(i) then
        var d := 1 + (if Taken(i, r.a) then i.jt else i.jf);
        if d <= |code| then Run(code[d..], pkt, r) else None
      else
        match Exec(i, pkt, r)
        case Next(r') => Run(code[1..], pkt, r')
        case Fault => Some(REJECT)
        case Unknown => None
  }

  lemma {:induction false} RunAtIsRun(prog: seq<Insn>, pc: nat, pkt: Packet, r: Regs)
    requires pc <= |prog|
    ensures RunAt(prog, pc, pkt, r) == Run(prog[pc..], pkt, r)
    decreases |prog| - pc
  {
    hide Exec, Taken, IsJump;
    if pc < |prog| {
      var i := prog[pc];
      if i.code == BPF_RET + BPF_K {
      } else if IsJump(i) {
        var d := 1 + (if Taken(i, r.a) then i.jt else i.jf);
        if pc + d <= |prog| {
          assert prog[pc..][d..] == prog[pc + d..];
          RunAtIsRun(prog, pc + d, pkt, r);
        }
      } else if Exec(i, pkt, r).Next? {
        assert prog[pc..][1..] == prog[pc + 1..];
        RunAtIsRun(prog, pc + 1, pkt, Exec(i, pkt, r).r);
      }
    }
  }

  // ---- the macros ----

  datatype Block =
    | Accept
    | Reject
    | AcceptIfEqual(v: Word32)
    | RejectIfNotEqual(v: Word32)
    | RejectIfLessThan(v: Word32)
    | RejectIfGreaterThan(v: Word32)
    | RejectIfNotInRange(lo: Word32, hi: Word32)
    | RejectIfAnyMaskedBitsSet(v: Word32)
    | IfEqual(v: Word32, body: seq<Block>)
    | LoadSkbProtocol
    | LoadMacRelative(size: Size, ofs: nat)
    | LoadNetRelative(size: Size, ofs: nat)
    | LoadNetXRelative(size: Size, ofs: nat)
    | LoadXIpv4Hlen
    | LoadXIpv6Hlen
    | LoadV6FragHdrLen
    | LoadV6ExtHdrLen
    | AddAToX

  const IPV6_HLEN := 40

  /** Macro expansion.  IfEqual is BPF_JUMP_IF_NOT_EQUAL over the instructions of its body. */
  function Flatten(b: Block): seq<Insn>
    decreases b, 0
  {
    match b
    case Accept => [Stmt(BPF_RET + BPF_K, ACCEPT)]
    case Reject => [Stmt(BPF_RET + BPF_K, REJECT)]
    case AcceptIfEqual(v) =>
      [Jump(BPF_JMP + BPF_JEQ + BPF_K, v, 0, 1), Stmt(BPF_RET + BPF_K, ACCEPT)]
    case RejectIfNotEqual(v) =>
      [Jump(BPF_JMP + BPF_JEQ + BPF_K, v, 1, 0), Stmt(BPF_RET + BPF_K, REJECT)]
    case RejectIfLessThan(v) =>
      [Jump(BPF_JMP + BPF_JGE + BPF_K, v, 1, 0), Stmt(BPF_RET + BPF_K, REJECT)]
    case RejectIfGreaterThan(v) =>
      [Jump(BPF_JMP + BPF_JGT + BPF_K, v, 0, 1), Stmt(BPF_RET + BPF_K, REJECT)]
    case RejectIfNotInRange(lo, hi) =>
      [Jump(BPF_JMP + BPF_JGE + BPF_K, lo, 0, 1), Jump(BPF_JMP + BPF_JGT + BPF_K, hi, 0, 1),
       Stmt(BPF_RET + BPF_K, REJECT)]
    case RejectIfAnyMaskedBitsSet(v) =>
      [Jump(BPF_JMP + BPF_JSET + BPF_K, v, 0, 1), Stmt(BPF_RET + BPF_K, REJECT)]
    case IfEqual(v, body) =>
      var code := FlattenAll(body);
      [Jump(BPF_JMP + BPF_JEQ + BPF_K, v, 0, |code|)] + code
    case LoadSkbProtocol => [Stmt(BPF_LD + BPF_H + BPF_ABS, U32(SKF_AD_OFF) + SKF_AD_PROTOCOL)]
    case LoadMacRelative(size, ofs) => [Stmt(BPF_LD + SizeBits(size) + BPF_ABS, U32(SKF_LL_OFF) + ofs)]
    case LoadNetRelative(size, ofs) => [Stmt(BPF_LD + SizeBits(size) + BPF_ABS, U32(SKF_NET_OFF) + ofs)]
    case LoadNetXRelative(size, ofs) => [NetX(size, ofs)]
    case LoadXIpv4Hlen => [Stmt(BPF_LDX + BPF_B + BPF_MSH, U32(SKF_NET_OFF))]
    case LoadXIpv6Hlen => [Stmt(BPF_LDX + BPF_W + BPF_IMM, IPV6_HLEN)]
    case LoadV6FragHdrLen => [Stmt(BPF_LD + BPF_IMM, 8)]
    case LoadV6ExtHdrLen =>
      [NetX(U8, 1), Stmt(BPF_ALU + BPF_ADD + BPF_K, 1), Stmt(BPF_ALU + BPF_LSH + BPF_K, 3)]
    case AddAToX => [Stmt(BPF_ALU + BPF_ADD + BPF_X, 0), Stmt(BPF_MISC + BPF_TAX, 0)]
  }

  function NetX(size: Size, ofs: nat): Insn {
    Stmt(BPF_LD + SizeBits(size) + BPF_IND, U32(SKF_NET_OFF) + ofs)
  }

  function FlattenAll(bs: seq<Block>): seq<Insn>
    decreases bs, 0
  {
    if bs == [] then [] else Flatten(bs[0]) + FlattenAll(bs[1..])
  }

  /** The instruction words of the checks. */
  lemma CheckEncodings(v: Word32, w: Word32)
    ensures Flatten(Accept) == [Insn(0x06, 0, 0, 0xFFFF_FFFF)] && Flatten(Reject) == [Insn(0x06, 0, 0, 0)]
    ensures Flatten(AcceptIfEqual(v)) == [Insn(0x15, 0, 1, v)] + Flatten(Accept)
    ensures Flatten(RejectIfNotEqual(v)) == [Insn(0x15, 1, 0, v)] + Flatten(Reject)
    ensures Flatten(RejectIfLessThan(v)) == [Insn(0x35, 1, 0, v)] + Flatten(Reject)
    ensures Flatten(RejectIfGreaterThan(v)) == [Insn(0x25, 0, 1, v)] + Flatten(Reject)
    ensures Flatten(RejectIfNotInRange(v, w)) == [Insn(0x35, 0, 1, v), Insn(0x25, 0, 1, w)] + Flatten(Reject)
    ensures Flatten(RejectIfAnyMaskedBitsSet(v)) == [Insn(0x45, 0, 1, v)] + Flatten(Reject)
  {
    hide FlattenAll;
  }

  /** And of the loads. */
  lemma LoadEncodings(ofs: nat)
    requires ofs < 0x10_0000
    ensures Flatten(LoadSkbProtocol) == [Insn(0x28, 0, 0, 0xFFFF_F000)]
    ensures Flatten(LoadMacRelative(U8, ofs)) == [Insn(0x30, 0, 0, 0xFFE0_0000 + ofs)]
    ensures Flatten(LoadMacRelative(Be16, ofs)) == [Insn(0x28, 0, 0, 0xFFE0_0000 + ofs)]
    ensures Flatten(LoadMacRelative(Be32, ofs)) == [Insn(0x20, 0, 0, 0xFFE0_0000 + ofs)]
    ensures Flatten(LoadNetRelative(U8, ofs)) == [Insn(0x30, 0, 0, 0xFFF0_0000 + ofs)]
    ensures Flatten(LoadNetRelative(Be16, ofs)) == [Insn(0x28, 0, 0, 0xFFF0_0000 + ofs)]
    ensures Flatten(LoadNetRelative(Be32, ofs)) == [Insn(0x20, 0, 0, 0xFFF0_0000 + ofs)]
    ensures Flatten(LoadNetXRelative(U8, ofs)) == [Insn(0x50, 0, 0, 0xFFF0_0000 + ofs)]
    ensures Flatten(LoadNetXRelative(Be16, ofs)) == [Insn(0x48, 0, 0, 0xFFF0_0000 + ofs)]
    ensures Flatten(LoadNetXRelative(Be32, ofs)) == [Insn(0x40, 0, 0, 0xFFF0_0000 + ofs)]
  {
    hide FlattenAll;
  }

  /** And of what computes header lengths. */
  lemma LengthEncodings()
    ensures Flatten(LoadXIpv4Hlen) == [Insn(0xB1, 0, 0, 0xFFF0_0000)]
    ensures Flatten(LoadXIpv6Hlen) == [Insn(0x01, 0, 0, 40)]
    ensures Flatten(LoadV6FragHdrLen) == [Insn(0x00, 0, 0, 8)]
    ensures Flatten(LoadV6ExtHdrLen) == [Insn(0x50, 0, 0, 0xFFF0_0001), Insn(0x04, 0, 0, 1), Insn(0x64, 0, 0, 3)]
    ensures Flatten(AddAToX) == [Insn(0x0C, 0, 0, 0), Insn(0x07, 0, 0, 0)]
  {
    hide FlattenAll;
  }

  // ---- what the blocks mean ----

  datatype Result = Done(verdict: Word32) | Continue(r: Regs)

  function RejectIf(bad: bool, r: Regs): Result { if bad then Done(REJECT) else Continue(r) }

  function LoadedA(r: Regs, v: Option<Word32>): Result {
    if v.Some? then Continue(r.(a := v.value)) else Done(REJECT)
  }

  function Eval(b: Block, pkt: Packet, r: Regs): Result
    decreases b, 0
  {
    match b
    case Accept => Done(ACCEPT)
    case Reject => Done(REJECT)
    case AcceptIfEqual(v) => if r.a == v then Done(ACCEPT) else Continue(r)
    case RejectIfNotEqual(v) => RejectIf(r.a != v, r)
    case RejectIfLessThan(v) => RejectIf(r.a < v, r)
    case RejectIfGreaterThan(v) => RejectIf(r.a > v, r)
    case RejectIfNotInRange(lo, hi) => RejectIf(!(lo <= r.a <= hi), r)
    case RejectIfAnyMaskedBitsSet(v) => RejectIf(BitAnd(r.a, v) != 0, r)
    case IfEqual(v, body) => if r.a == v then EvalAll(body, pkt, r) else Continue(r)
    case LoadSkbProtocol => Continue(r.(a := pkt.protocol))
    case LoadMacRelative(size, ofs) => LoadedA(r, Slice(pkt.mac, ofs, size))
    case LoadNetRelative(size, ofs) => LoadedA(r, Slice(pkt.net, ofs, size))
    case LoadNetXRelative(size, ofs) => LoadedA(r, NetRelative(pkt, r.x + ofs, size))
    case LoadXIpv4Hlen =>
      if pkt.net == [] then Done(REJECT) else Continue(r.(x := 4 * (pkt.net[0] % 16)))
    case LoadXIpv6Hlen => Continue(r.(x := IPV6_HLEN))
    case LoadV6FragHdrLen => Continue(r.(a := 8))
    case LoadV6ExtHdrLen =>
      var len := NetRelative(pkt, r.x + 1, U8);
      if len.Some? then Continue(r.(a := U32(8 * U32(len.value + 1)))) else Done(REJECT)
    case AddAToX => Continue(Regs(U32(r.a + r.x), U32(r.a + r.x)))
  }

  /** A load relative to the network header; a distance of 1 MiB and more leaves the window of
      negative offsets, and the kernel's rule for the resulting offset applies. */
  function NetRelative(pkt: Packet, distance: nat, size: Size): Option<Word32> {
    if distance < 0x10_0000 then Slice(pkt.net, distance, size)
    else Fetch(pkt, Int32(distance + SKF_NET_OFF), size)
  }

  function EvalAll(bs: seq<Block>, pkt: Packet, r: Regs): Result
    decreases bs, 0
  {
    if bs == [] then Continue(r)
    else
      match Eval(bs[0], pkt, r)
      case Done(v) => Done(v)
      case Continue(r') => EvalAll(bs[1..], pkt, r')
  }

  /** What the sources demand: a jump distance fits its 8-bit field, and a constant offset stays
      in the window of its header. */
  predicate WellFormed(b: Block)
    decreases b, 0
  {
    match b
    case IfEqual(_, body) => WellFormedAll(body) && |FlattenAll(body)| < 256
    case LoadMacRelative(_, ofs) => ofs < 0x10_0000
    case LoadNetRelative(_, ofs) => ofs < 0x10_0000 - 0x1000
    case LoadNetXRelative(_, ofs) => ofs < 0x10_0000
    case _ => true
  }

  predicate WellFormedAll(bs: seq<Block>)
    decreases bs, 0
  {
    bs == [] || (WellFormed(bs[0]) && WellFormedAll(bs[1..]))
  }

  // ---- running is evaluating ----

  function Then(res: Result, rest: seq<Insn>, pkt: Packet): Option<Word32> {
    match res
    case Done(v) => Some(v)
    case Continue(r) => Run(rest, pkt, r)
  }

  lemma RunStmt(i: Insn, rest: seq<Insn>, pkt: Packet, r: Regs)
    requires !IsJump(i) && i.code != BPF_RET + BPF_K
    ensures Run([i] + rest, pkt, r) ==
      match Exec(i, pkt, r)
      case Next(r') => Run(rest, pkt, r')
      case Fault => Some(REJECT)
      case Unknown => None
  {
    assert ([i] + rest)[1..] == rest;
  }

  lemma RunJump(i: Insn, skipped: seq<Insn>, rest: seq<Insn>, pkt: Packet, r: Regs)
    requires IsJump(i) && (if Taken(i, r.a) then i.jt else i.jf) == |skipped|
    ensures Run([i] + skipped + rest, pkt, r) == Run(rest, pkt, r)
  {
    assert ([i] + skipped + rest)[1 + |skipped|..] == rest;
  }

  lemma RunReturn(k: Word32, rest: seq<Insn>, pkt: Packet, r: Regs)
    ensures Run([Stmt(BPF_RET + BPF_K, k)] + rest, pkt, r) == Some(k)
  {
  }

  /** Adding a small offset to a negative base, in 32 bits. */
  lemma BaseOffset(base: int, ofs: nat)
    requires -0x20_0000 <= base < 0 && base + ofs < 0
    ensures U32(U32(base) + ofs) == 0x1_0000_0000 + base + ofs
    ensures Int32(U32(U32(base) + ofs)) == base + ofs
  {
    assert U32(base) == 0x1_0000_0000 + base;
  }

  lemma WrapAround(x: Word32, ofs: nat)
    requires ofs < 0x10_0000
    ensures x + ofs < 0x10_0000 ==> Int32(x + (0xFFF0_0000 + ofs)) == x + ofs - 0x10_0000
    ensures Int32(x + (0xFFF0_0000 + ofs)) == Int32(x + ofs - 0x10_0000)
  {
    assert x + (0xFFF0_0000 + ofs) == (x + ofs - 0x10_0000) + 0x1_0000_0000;
    assert U32(x + (0xFFF0_0000 + ofs)) == U32(x + ofs - 0x10_0000);
  }

  lemma NetXOffset(x: Word32, ofs: nat, pkt: Packet, size: Size)
    requires ofs < 0x10_0000
    ensures Fetch(pkt, Int32(x + U32(U32(SKF_NET_OFF) + ofs)), size) == NetRelative(pkt, x + ofs, size)
  {
    hide U32, Int32, Slice;
    BaseOffset(SKF_NET_OFF, ofs);
    WrapAround(x, ofs);
  }

  lemma ExecLoad(size: Size, k: int, pkt: Packet, r: Regs)
    ensures var i := Stmt(BPF_LD + SizeBits(size) + BPF_ABS, k);
      !IsJump(i) && i.code != BPF_RET + BPF_K && Exec(i, pkt, r) == SetA(r, Absolute(pkt, U32(k), size))
    ensures var i := Stmt(BPF_LD + SizeBits(size) + BPF_IND, k);
      !IsJump(i) && i.code != BPF_RET + BPF_K
      && Exec(i, pkt, r) == SetA(r, Fetch(pkt, Int32(r.x + U32(k)), size))
  {
    hide Fetch, Absolute, U32, Int32;
    match size
    case U8 =>
    case Be16 =>
    case Be32 =>
  }

  /** A two-instruction check: jump over a return, or return. */
  lemma RunCheck(i: Insn, k: Word32, rest: seq<Insn>, pkt: Packet, r: Regs)
    requires IsJump(i) && i.jt <= 1 && i.jf <= 1
    ensures var skip := (if Taken(i, r.a) then i.jt else i.jf) == 1;
      Run([i, Stmt(BPF_RET + BPF_K, k)] + rest, pkt, r) == if skip then Run(rest, pkt, r) else Some(k)
  {
    var ret := Stmt(BPF_RET + BPF_K, k);
    assert [i, ret] + rest == [i] + [ret] + rest;
    if (if Taken(i, r.a) then i.jt else i.jf) == 1 {
      RunJump(i, [ret], rest, pkt, r);
    } else {
      assert [i] + [ret] + rest == [i] + [] + ([ret] + rest);
      RunJump(i, [], [ret] + rest, pkt, r);
      RunReturn(k, rest, pkt, r);
    }
  }

  lemma RunRange(lo: Word32, hi: Word32, rest: seq<Insn>, pkt: Packet, r: Regs)
    ensures Run(Flatten(RejectIfNotInRange(lo, hi)) + rest, pkt, r) ==
      if lo <= r.a <= hi then Run(rest, pkt, r) else Some(REJECT)
  {
    var ge := Jump(BPF_JMP + BPF_JGE + BPF_K, lo, 0, 1);
    var gt := Jump(BPF_JMP + BPF_JGT + BPF_K, hi, 0, 1);
    var ret := Stmt(BPF_RET + BPF_K, REJECT);
    assert [ge, gt, ret] + rest == [ge] + [] + ([gt, ret] + rest);
    assert [ge, gt, ret] + rest == [ge] + [gt] + ([ret] + rest);
    if lo <= r.a {
      RunJump(ge, [], [gt, ret] + rest, pkt, r);
      RunCheck(gt, REJECT, rest, pkt, r);
    } else {
      RunJump(ge, [gt], [ret] + rest, pkt, r);
      RunReturn(REJECT, rest, pkt, r);
    }
  }

  lemma RunLoad(b: Block, rest: seq<Insn>, pkt: Packet, r: Regs)
    requires WellFormed(b)
    requires b.LoadSkbProtocol? || b.LoadMacRelative? || b.LoadNetRelative? || b.LoadNetXRelative?
    ensures Run(Flatten(b) + rest, pkt, r) == Then(Eval(b, pkt, r), rest, pkt)
  {
    hide U32, Int32, Slice, Exec, Run;
    match b
    case LoadSkbProtocol =>
      ExecLoad(Be16, U32(SKF_AD_OFF) + SKF_AD_PROTOCOL, pkt, r);
      RunStmt(Flatten(b)[0], rest, pkt, r);
      BaseOffset(SKF_AD_OFF, SKF_AD_PROTOCOL);
    case LoadMacRelative(size, ofs) =>
      ExecLoad(size, U32(SKF_LL_OFF) + ofs, pkt, r);
      RunStmt(Flatten(b)[0], rest, pkt, r);
      BaseOffset(SKF_LL_OFF, ofs);
    case LoadNetRelative(size, ofs) =>
      ExecLoad(size, U32(SKF_NET_OFF) + ofs, pkt, r);
      RunStmt(Flatten(b)[0], rest, pkt, r);
      BaseOffset(SKF_NET_OFF, ofs);
    case LoadNetXRelative(size, ofs) =>
      ExecLoad(size, U32(SKF_NET_OFF) + ofs, pkt, r);
      RunStmt(Flatten(b)[0], rest, pkt, r);
      NetXOffset(r.x, ofs, pkt, size);
  }

  lemma RunHeaderLength(b: Block, rest: seq<Insn>, pkt: Packet, r: Regs)
    requires b.LoadXIpv6Hlen? || b.LoadV6FragHdrLen?
    ensures Run(Flatten(b) + rest, pkt, r) == Then(Eval(b, pkt, r), rest, pkt)
  {
    RunStmt(Flatten(b)[0], rest, pkt, r);
  }

  lemma FirstByte(net: seq<byte>)
    requires net != []
    ensures Slice(net, 0, U8) == Some(net[0])
    ensures U32(BitAnd(net[0], 0xf) * 4) == 4 * (net[0] % 16)
  {
    hide BitAnd;
    assert net[0..1] == [net[0]];
    assert BigEndian([net[0]]) == net[0];
    BitAndLow4(net[0]);
  }

  lemma ExecIpv4Length(pkt: Packet, r: Regs)
    ensures Exec(Flatten(LoadXIpv4Hlen)[0], pkt, r) ==
      if pkt.net == [] then Fault else Next(r.(x := 4 * (pkt.net[0] % 16)))
  {
    hide BitAnd, U32, Int32;
    BaseOffset(SKF_NET_OFF, 0);
    if pkt.net != [] {
      FirstByte(pkt.net);
    }
  }

  lemma RunIpv4Length(rest: seq<Insn>, pkt: Packet, r: Regs)
    ensures Run(Flatten(LoadXIpv4Hlen) + rest, pkt, r) == Then(Eval(LoadXIpv4Hlen, pkt, r), rest, pkt)
  {
    hide Exec, BitAnd, Run;
    ExecIpv4Length(pkt, r);
    RunStmt(Flatten(LoadXIpv4Hlen)[0], rest, pkt, r);
  }

  lemma ExecAdd(pkt: Packet, r: Regs)
    ensures Exec(Stmt(BPF_ALU + BPF_ADD + BPF_K, 1), pkt, r) == Next(r.(a := U32(r.a + 1)))
    ensures Exec(Stmt(BPF_ALU + BPF_LSH + BPF_K, 3), pkt, r) == Next(r.(a := U32(8 * r.a)))
  {
    assert Shl(r.a, 1) == 2 * r.a;
    assert Shl(r.a, 2) == 4 * r.a;
  }

  lemma RunExtLength(rest: seq<Insn>, pkt: Packet, r: Regs)
    ensures Run(Flatten(LoadV6ExtHdrLen) + rest, pkt, r) == Then(Eval(LoadV6ExtHdrLen, pkt, r), rest, pkt)
  {
    hide Int32, Run, Exec, Fetch, NetRelative, Shl;
    var load, add, shift := NetX(U8, 1), Stmt(BPF_ALU + BPF_ADD + BPF_K, 1), Stmt(BPF_ALU + BPF_LSH + BPF_K, 3);
    assert [load, add, shift] + rest == [load] + ([add] + ([shift] + rest));
    ExecLoad(U8, U32(SKF_NET_OFF) + 1, pkt, r);
    RunStmt(load, [add] + ([shift] + rest), pkt, r);
    NetXOffset(r.x, 1, pkt, U8);
    var len := NetRelative(pkt, r.x + 1, U8);
    if len.Some? {
      var r1 := r.(a := len.value);
      ExecAdd(pkt, r1);
      RunStmt(add, [shift] + rest, pkt, r1);
      var r2 := r1.(a := U32(r1.a + 1));
      ExecAdd(pkt, r2);
      RunStmt(shift, rest, pkt, r2);
    }
  }

  lemma RunAddAToX(rest: seq<Insn>, pkt: Packet, r: Regs)
    ensures Run(Flatten(AddAToX) + rest, pkt, r) == Then(Eval(AddAToX, pkt, r), rest, pkt)
  {
    var add, tax := Stmt(BPF_ALU + BPF_ADD + BPF_X, 0), Stmt(BPF_MISC + BPF_TAX, 0);
    assert [add, tax] + rest == [add] + ([tax] + rest);
    RunStmt(add, [tax] + rest, pkt, r);
    RunStmt(tax, rest, pkt, r.(a := U32(r.a + r.x)));
  }

  lemma {:induction false} RunBlock(b: Block, rest: seq<Insn>, pkt: Packet, r: Regs)
    requires WellFormed(b)
    ensures Run(Flatten(b) + rest, pkt, r) == Then(Eval(b, pkt, r), rest, pkt)
    decreases b, 0
  {
    match b
    case Accept => RunReturn(ACCEPT, rest, pkt, r);
    case Reject => RunReturn(REJECT, rest, pkt, r);
    case AcceptIfEqual(v) => RunCheck(Jump(BPF_JMP + BPF_JEQ + BPF_K, v, 0, 1), ACCEPT, rest, pkt, r);
    case RejectIfNotEqual(v) => RunCheck(Jump(BPF_JMP + BPF_JEQ + BPF_K, v, 1, 0), REJECT, rest, pkt, r);
    case RejectIfLessThan(v) => RunCheck(Jump(BPF_JMP + BPF_JGE + BPF_K, v, 1, 0), REJECT, rest, pkt, r);
    case RejectIfGreaterThan(v) => RunCheck(Jump(BPF_JMP + BPF_JGT + BPF_K, v, 0, 1), REJECT, rest, pkt, r);
    case RejectIfNotInRange(lo, hi) => RunRange(lo, hi, rest, pkt, r);
    case RejectIfAnyMaskedBitsSet(v) =>
      RunCheck(Jump(BPF_JMP + BPF_JSET + BPF_K, v, 0, 1), REJECT, rest, pkt, r);
    case IfEqual(v, body) =>
      var code := FlattenAll(body);
      var jump := Jump(BPF_JMP + BPF_JEQ + BPF_K, v, 0, |code|);
      if r.a == v {
        assert [jump] + code + rest == [jump] + [] + (code + rest);
        RunJump(jump, [], code + rest, pkt, r);
        RunBlocks(body, rest, pkt, r);
      } else {
        RunJump(jump, code, rest, pkt, r);
      }
    case LoadV6ExtHdrLen => RunExtLength(rest, pkt, r);
    case AddAToX => RunAddAToX(rest, pkt, r);
    case LoadXIpv4Hlen => RunIpv4Length(rest, pkt, r);
    case LoadXIpv6Hlen => RunHeaderLength(b, rest, pkt, r);
    case LoadV6FragHdrLen => RunHeaderLength(b, rest, pkt, r);
    case _ => RunLoad(b, rest, pkt, r);
  }

  /** What each check does with A. */
  lemma ChecksExactly(v: Word32, w: Word32, body: seq<Block>, rest: seq<Insn>, pkt: Packet, r: Regs)
    ensures Run(Flatten(Accept) + rest, pkt, r) == Some(0xFFFF_FFFF)
    ensures Run(Flatten(Reject) + rest, pkt, r) == Some(0)
    ensures Run(Flatten(AcceptIfEqual(v)) + rest, pkt, r) == if r.a == v then Some(0xFFFF_FFFF) else Run(rest, pkt, r)
    ensures Run(Flatten(RejectIfNotEqual(v)) + rest, pkt, r) == if r.a == v then Run(rest, pkt, r) else Some(0)
    ensures Run(Flatten(RejectIfLessThan(v)) + rest, pkt, r) == if r.a >= v then Run(rest, pkt, r) else Some(0)
    ensures Run(Flatten(RejectIfGreaterThan(v)) + rest, pkt, r) == if r.a <= v then Run(rest, pkt, r) else Some(0)
    ensures Run(Flatten(RejectIfNotInRange(v, w)) + rest, pkt, r) ==
      if v <= r.a <= w then Run(rest, pkt, r) else Some(0)
    ensures Run(Flatten(RejectIfAnyMaskedBitsSet(v)) + rest, pkt, r) ==
      if BitAnd(r.a, v) == 0 then Run(rest, pkt, r) else Some(0)
    ensures WellFormedAll(body) && |FlattenAll(body)| < 256 ==>
      Run(Flatten(IfEqual(v, body)) + rest, pkt, r) ==
        if r.a == v then Run(FlattenAll(body) + rest, pkt, r) else Run(rest, pkt, r)
  {
    hide Run, Flatten, FlattenAll, BitAnd;
    RunBlock(Accept, rest, pkt, r);
    RunBlock(Reject, rest, pkt, r);
    RunBlock(AcceptIfEqual(v), rest, pkt, r);
    RunBlock(RejectIfNotEqual(v), rest, pkt, r);
    RunBlock(RejectIfLessThan(v), rest, pkt, r);
    RunBlock(RejectIfGreaterThan(v), rest, pkt, r);
    RunBlock(RejectIfNotInRange(v, w), rest, pkt, r);
    RunBlock(RejectIfAnyMaskedBitsSet(v), rest, pkt, r);
    if WellFormedAll(body) && |FlattenAll(body)| < 256 {
      RunBlock(IfEqual(v, body), rest, pkt, r);
      RunBlocks(body, rest, pkt, r);
    }
  }

  /** The number in network byte order at an offset. */
  function NetworkOrder(s: seq<byte>, at: nat, size: Size): Word32
    requires at + (match size case U8 => 1 case Be16 => 2 case Be32 => 4) <= |s|
  {
    match size
    case U8 => s[at]
    case Be16 =>
      var b0: nat, b1: nat := s[at], s[at + 1];
      0x100 * b0 + b1
    case Be32 =>
      var b0: nat, b1: nat, b2: nat, b3: nat := s[at], s[at + 1], s[at + 2], s[at + 3];
      0x100_0000 * b0 + 0x1_0000 * b1 + 0x100 * b2 + b3
  }

  /** A load that lies in the bytes puts the number into A, and any other rejects the packet. */
  ghost predicate Loads(code: seq<Insn>, s: seq<byte>, at: nat, size: Size, rest: seq<Insn>, pkt: Packet, r: Regs) {
    Run(code + rest, pkt, r) ==
      if at + (match size case U8 => 1 case Be16 => 2 case Be32 => 4) <= |s|
      then Run(rest, pkt, r.(a := NetworkOrder(s, at, size))) else Some(0)
  }

  lemma SliceExactly(s: seq<byte>, at: nat, size: Size)
    ensures Slice(s, at, size) ==
      if at + (match size case U8 => 1 case Be16 => 2 case Be32 => 4) <= |s|
      then Some(NetworkOrder(s, at, size)) else None
  {
    hide BigEndian;
    var n := Length(size);
    if at + n <= |s| {
      var t := s[at..at + n];
      match size
      case U8 =>
        assert t == [t[0]];
        BigEndianOne(t[0]);
      case Be16 =>
        assert t == [t[0]] + [t[1]];
        BigEndianOne(t[0]);
        BigEndianNext([t[0]], t[1]);
      case Be32 =>
        assert t == [t[0]] + [t[1]] + [t[2]] + [t[3]];
        BigEndianOne(t[0]);
        BigEndianNext([t[0]], t[1]);
        BigEndianNext([t[0]] + [t[1]], t[2]);
        BigEndianNext([t[0]] + [t[1]] + [t[2]], t[3]);
    }
  }

  lemma BigEndianOne(b: byte)
    ensures BigEndian([b]) == b
  {
    assert [] + [b] == [b];
    BigEndianNext([], b);
  }

  lemma BigEndianNext(s: seq<byte>, b: byte)
    ensures BigEndian(s + [b]) == 256 * BigEndian(s) + b
  {
    assert (s + [b])[..|s|] == s;
  }

  /** The loads of the protocol and of numbers relative to the link-layer header, to the network
      header and to X behind that. */
  lemma LoadsExactly(size: Size, ofs: nat, rest: seq<Insn>, pkt: Packet, r: Regs)
    requires ofs < 0x10_0000 - 0x1000
    ensures Run(Flatten(LoadSkbProtocol) + rest, pkt, r) == Run(rest, pkt, r.(a := pkt.protocol))
    ensures Loads(Flatten(LoadMacRelative(size, ofs)), pkt.mac, ofs, size, rest, pkt, r)
    ensures Loads(Flatten(LoadNetRelative(size, ofs)), pkt.net, ofs, size, rest, pkt, r)
    ensures r.x + ofs < 0x10_0000 ==>
      Loads(Flatten(LoadNetXRelative(size, ofs)), pkt.net, r.x + ofs, size, rest, pkt, r)
  {
    hide Run, Flatten, Slice, NetworkOrder;
    RunBlock(LoadSkbProtocol, rest, pkt, r);
    RunBlock(LoadMacRelative(size, ofs), rest, pkt, r);
    RunBlock(LoadNetRelative(size, ofs), rest, pkt, r);
    RunBlock(LoadNetXRelative(size, ofs), rest, pkt, r);
    SliceExactly(pkt.mac, ofs, size);
    SliceExactly(pkt.net, ofs, size);
    SliceExactly(pkt.net, r.x + ofs, size);
  }

  lemma {:induction false} RunBlocks(bs: seq<Block>, rest: seq<Insn>, pkt: Packet, r: Regs)
    requires WellFormedAll(bs)
    ensures Run(FlattenAll(bs) + rest, pkt, r) == Then(EvalAll(bs, pkt, r), rest, pkt)
    decreases bs, 0
  {
    if bs == [] {
      assert [] + rest == rest;
    } else {
      var tail := FlattenAll(bs[1..]) + rest;
      assert FlattenAll(bs) + rest == Flatten(bs[0]) + tail;
      RunBlock(bs[0], tail, pkt, r);
      match Eval(bs[0], pkt, r) {
        case Done(_) =>
        case Continue(r') => RunBlocks(bs[1..], rest, pkt, r');
      }
    }
  }

  /** Compiler correctness: the flattened filter, closed by an accept, always returns, and with the
      verdict of reading its blocks top to bottom. */
  lemma AssemblyCorrect(bs: seq<Block>, pkt: Packet, r: Regs)
    requires WellFormedAll(bs)
    ensures RunAt(FlattenAll(bs) + Flatten(Accept), 0, pkt, r) ==
      Some(match EvalAll(bs, pkt, r) case Done(v) => v case Continue(_) => ACCEPT)
  {
    var prog := FlattenAll(bs) + Flatten(Accept);
    assert prog[0..] == prog;
    RunAtIsRun(prog, 0, pkt, r);
    RunBlocks(bs, Flatten(Accept), pkt, r);
    if EvalAll(bs, pkt, r).Continue? {
      assert Flatten(Accept) + [] == Flatten(Accept);
      RunReturn(ACCEPT, [], pkt, EvalAll(bs, pkt, r).r);
    }
  }

  /** Every jump lands at most `slack` instructions past the end of the code. */
  predicate JumpsWithin(code: seq<Insn>, slack: nat) {
    forall i :: 0 <= i < |code| && IsJump(code[i]) ==>
      i + 1 + code[i].jt < |code| + slack && i + 1 + code[i].jf < |code| + slack
  }

  lemma JumpsAppend(code: seq<Insn>, more: seq<Insn>)
    requires JumpsWithin(code, 1) && JumpsWithin(more, 1)
    ensures JumpsWithin(code + more, 1)
  {
    forall i | 0 <= i < |code + more| && IsJump((code + more)[i])
      ensures i + 1 + (code + more)[i].jt < |code + more| + 1
      ensures i + 1 + (code + more)[i].jf < |code + more| + 1
    {
      if i >= |code| {
        assert (code + more)[i] == more[i - |code|];
      }
    }
  }

  lemma {:induction false} BlockJumps(b: Block)
    requires WellFormed(b)
    ensures JumpsWithin(Flatten(b), 1)
    decreases b, 0
  {
    match b
    case IfEqual(v, body) => BlocksJump(body);
    case _ =>
  }

  lemma {:induction false} BlocksJump(bs: seq<Block>)
    requires WellFormedAll(bs)
    ensures JumpsWithin(FlattenAll(bs), 1)
    decreases bs, 0
  {
    if bs != [] {
      BlockJumps(bs[0]);
      BlocksJump(bs[1..]);
      JumpsAppend(Flatten(bs[0]), FlattenAll(bs[1..]));
    }
  }

  /** The kernel's check of a classic program: no jump leaves it, and it ends in a return. */
  lemma JumpsStayInside(bs: seq<Block>)
    requires WellFormedAll(bs)
    ensures var prog := FlattenAll(bs) + Flatten(Accept);
      JumpsWithin(prog, 0) && prog[|prog| - 1].code == BPF_RET + BPF_K
  {
    BlocksJump(bs);
  }

  /** Where the jump over n instructions lands: n cut to the 8 bits of the field. */
  lemma NotEqualJump(v: Word32, body: seq<Insn>, rest: seq<Insn>, pkt: Packet, r: Regs)
    requires r.a != v
    ensures Run([Jump(BPF_JMP + BPF_JEQ + BPF_K, v, 0, |body|)] + body + rest, pkt, r)
      == Run((body + rest)[|body| % 256..], pkt, r)
  {
    var jump, d := Jump(BPF_JMP + BPF_JEQ + BPF_K, v, 0, |body|), |body| % 256;
    assert [jump] + body + rest == [jump] + (body + rest)[..d] + (body + rest)[d..];
    RunJump(jump, (body + rest)[..d], (body + rest)[d..], pkt, r);
  }

  function Rejects(n: nat): seq<Block> {
    if n == 0 then [] else [Reject] + Rejects(n - 1)
  }

  lemma {:induction false} FlattenRejects(n: nat)
    ensures |FlattenAll(Rejects(n))| == n
    ensures forall k :: 0 <= k < n ==> FlattenAll(Rejects(n))[k] == Stmt(BPF_RET + BPF_K, REJECT)
  {
    if n > 0 {
      FlattenRejects(n - 1);
      assert Rejects(n)[1..] == Rejects(n - 1);
      assert FlattenAll(Rejects(n)) == Flatten(Reject) + FlattenAll(Rejects(n - 1));
    }
  }

  /** The width condition is needed: a block that rejects in n instructions if A is v lets any other
      A pass exactly if n is less than 256, although that is what it means for every n. */
  lemma WideJumpFails(v: Word32, n: nat, pkt: Packet, r: Regs)
    requires r.a != v
    ensures EvalAll([IfEqual(v, Rejects(n))], pkt, r) == Continue(r)
    ensures RunAt(FlattenAll([IfEqual(v, Rejects(n))]) + Flatten(Accept), 0, pkt, r)
      == Some(if n < 256 then ACCEPT else REJECT)
  {
    hide Run, RunAt;
    var body, accept := FlattenAll(Rejects(n)), Flatten(Accept);
    var prog := FlattenAll([IfEqual(v, Rejects(n))]) + accept;
    FlattenRejects(n);
    assert FlattenAll([IfEqual(v, Rejects(n))]) == Flatten(IfEqual(v, Rejects(n))) + [];
    assert prog == [Jump(BPF_JMP + BPF_JEQ + BPF_K, v, 0, |body|)] + body + accept && prog[0..] == prog;
    RunAtIsRun(prog, 0, pkt, r);
    NotEqualJump(v, body, accept, pkt, r);
    var landed := (body + accept)[n % 256..];
    assert landed == [landed[0]] + landed[1..];
    RunReturn(landed[0].k, landed[1..], pkt, r);
    assert EvalAll([IfEqual(v, Rejects(n))][1..], pkt, r) == Continue(r);
  }

  // ---- lists of checks ----

  predicate IsCheck(b: Block) {
    b.RejectIfNotEqual? || b.RejectIfLessThan? || b.RejectIfGreaterThan?
    || b.RejectIfNotInRange? || b.RejectIfAnyMaskedBitsSet?
  }

  predicate Passes(b: Block, a: Word32)
    requires IsCheck(b)
  {
    match b
    case RejectIfNotEqual(v) => a == v
    case RejectIfLessThan(v) => a >= v
    case RejectIfGreaterThan(v) => a <= v
    case RejectIfNotInRange(lo, hi) => lo <= a <= hi
    case RejectIfAnyMaskedBitsSet(v) => BitAnd(a, v) == 0
  }

  /** A list of checks accepts exactly the values that pass each of them. */
  lemma {:induction false} ChecksAcceptExactly(bs: seq<Block>, pkt: Packet, r: Regs)
    requires forall b :: b in bs ==> IsCheck(b)
    ensures RunAt(FlattenAll(bs) + Flatten(Accept), 0, pkt, r) ==
      Some(if forall b :: b in bs ==> Passes(b, r.a) then ACCEPT else REJECT)
  {
    ChecksEval(bs, pkt, r);
    AssemblyCorrect(bs, pkt, r);
  }

  lemma {:induction false} ChecksEval(bs: seq<Block>, pkt: Packet, r: Regs)
    requires forall b :: b in bs ==> IsCheck(b)
    ensures WellFormedAll(bs)
    ensures EvalAll(bs, pkt, r) ==
      if forall b :: b in bs ==> Passes(b, r.a) then Continue(r) else Done(REJECT)
  {
    if bs != [] {
      ChecksEval(bs[1..], pkt, r);
      assert IsCheck(bs[0]);
      assert (forall b :: b in bs ==> Passes(b, r.a)) <==>
        Passes(bs[0], r.a) && (forall b :: b in bs[1..] ==> Passes(b, r.a));
    }
  }

  // ---- walking headers ----

  /** The extension headers the macros know: hop-by-hop and destination options, whose length byte
      counts 8-byte units past the first, and the 8-byte fragment header. */
  datatype Ext = Options | Fragment

  function StepOver(e: Ext): seq<Block> {
    match e
    case Options => [LoadV6ExtHdrLen, AddAToX]
    case Fragment => [LoadV6FragHdrLen, AddAToX]
  }

  function Walk(es: seq<Ext>): seq<Block> {
    if es == [] then [] else StepOver(es[0]) + Walk(es[1..])
  }

  /** Sections 4.3, 4.5 and 4.6 of RFC 8200: where the chain of headers from `at` ends; None if a
      length byte lies outside the packet. */
  function ChainEnd(net: seq<byte>, es: seq<Ext>, at: nat): Option<nat>
    decreases |es|
  {
    if es == [] then Some(at)
    else
      match ExtEnd(net, es[0], at)
      case None => None
      case Some(next) => ChainEnd(net, es[1..], next)
  }

  /** Where the one header at `at` ends. */
  function ExtEnd(net: seq<byte>, e: Ext, at: nat): (end: Option<nat>)
    ensures end.Some? ==> at <= end.value <= at + 2048
  {
    match e
    case Options =>
      if at + 1 < |net| then
        var len: nat := net[at + 1];
        Some(at + 8 * (len + 1))
      else None
    case Fragment => Some(at + 8)
  }

  lemma OneByte(net: seq<byte>, at: nat)
    ensures Slice(net, at, U8) == if at < |net| then Some(net[at]) else None
  {
    if at < |net| {
      assert net[at..at + 1] == [net[at]];
      assert BigEndian([net[at]]) == net[at];
    }
  }

  /** The blocks of a walk leave in X the end of the chain, or reject; no addition overflows. */
  lemma {:induction false} WalkEval(es: seq<Ext>, pkt: Packet, r: Regs)
    requires r.x + 2048 * |es| <= 0x10_0000
    ensures match ChainEnd(pkt.net, es, r.x)
      case None => EvalAll(Walk(es), pkt, r) == Done(REJECT)
      case Some(end) => EvalAll(Walk(es), pkt, r).Continue? && EvalAll(Walk(es), pkt, r).r.x == end
    decreases |es|
  {
    hide EvalAll, StepOver, Stepped;
    if es == [] {
      NothingLeft(pkt, r);
    } else {
      StepOverEval(es[0], Walk(es[1..]), pkt, r);
      if ExtEnd(pkt.net, es[0], r.x).Some? {
        WalkEval(es[1..], pkt, Stepped(es[0], pkt, r));
      }
    }
  }

  lemma NothingLeft(pkt: Packet, r: Regs)
    ensures EvalAll([], pkt, r) == Continue(r)
  {
  }

  /** The registers after one header, if it lies in the packet. */
  function Stepped(e: Ext, pkt: Packet, r: Regs): Regs {
    var loaded := Eval(StepOver(e)[0], pkt, r);
    if loaded.Continue? then Eval(AddAToX, pkt, loaded.r).r else r
  }

  lemma StepOverEval(e: Ext, rest: seq<Block>, pkt: Packet, r: Regs)
    requires r.x + 2048 <= 0x10_0000
    ensures match ExtEnd(pkt.net, e, r.x)
      case None => EvalAll(StepOver(e) + rest, pkt, r) == Done(REJECT)
      case Some(end) =>
        && Stepped(e, pkt, r).x == end
        && EvalAll(StepOver(e) + rest, pkt, r) == EvalAll(rest, pkt, Stepped(e, pkt, r))
  {
    hide Eval, EvalAll, ExtEnd;
    var first := StepOver(e)[0];
    assert StepOver(e) + rest == [first] + ([AddAToX] + rest);
    EvalFirst(first, [AddAToX] + rest, pkt, r);
    LengthLoaded(e, pkt, r);
    if ExtEnd(pkt.net, e, r.x).Some? {
      var loaded := Eval(first, pkt, r).r;
      EvalFirst(AddAToX, rest, pkt, loaded);
      LengthAdded(pkt, loaded);
    }
  }

  lemma LengthLoaded(e: Ext, pkt: Packet, r: Regs)
    requires r.x + 2048 <= 0x10_0000
    ensures match ExtEnd(pkt.net, e, r.x)
      case None => Eval(StepOver(e)[0], pkt, r) == Done(REJECT)
      case Some(end) => end - r.x <= 2048 && Eval(StepOver(e)[0], pkt, r) == Continue(r.(a := end - r.x))
  {
    hide BigEndian, Slice, EvalAll;
    OneByte(pkt.net, r.x + 1);
  }

  lemma LengthAdded(pkt: Packet, r: Regs)
    requires r.a + r.x < 0x1_0000_0000
    ensures Eval(AddAToX, pkt, r) == Continue(Regs(r.a + r.x, r.a + r.x))
  {
  }

  lemma EvalFirst(b: Block, rest: seq<Block>, pkt: Packet, r: Regs)
    ensures EvalAll([b] + rest, pkt, r) ==
      var first := Eval(b, pkt, r);
      if first.Done? then first else EvalAll(rest, pkt, first.r)
  {
    assert ([b] + rest)[1..] == rest;
  }

  lemma {:induction false} WalkWellFormed(es: seq<Ext>)
    ensures WellFormedAll(Walk(es))
  {
    if es != [] {
      WalkWellFormed(es[1..]);
      var rest := Walk(es[1..]);
      assert (StepOver(es[0]) + rest)[1..] == [AddAToX] + rest;
      assert ([AddAToX] + rest)[1..] == rest;
      assert WellFormedAll([AddAToX] + rest);
    }
  }

  /** The assembled IPv6 walk: up to 511 extension headers, whatever follows it starts with X at
      the end of the header chain. */
  lemma Ipv6HeaderWalk(es: seq<Ext>, rest: seq<Insn>, pkt: Packet, r: Regs)
    requires |es| <= 511
    ensures var code := Flatten(LoadXIpv6Hlen) + (FlattenAll(Walk(es)) + rest);
      match ChainEnd(pkt.net, es, IPV6_HLEN)
      case None => Run(code, pkt, r) == Some(REJECT)
      case Some(end) => exists r': Regs :: r'.x == end && Run(code, pkt, r) == Run(rest, pkt, r')
  {
    RunBlock(LoadXIpv6Hlen, FlattenAll(Walk(es)) + rest, pkt, r);
    var r1 := r.(x := IPV6_HLEN);
    WalkWellFormed(es);
    RunBlocks(Walk(es), rest, pkt, r1);
    WalkEval(es, pkt, r1);
  }

  /** Section 3.1 of RFC 791: X becomes four times the header length field, or the packet is
      rejected if it has none. */
  lemma Ipv4HeaderLength(rest: seq<Insn>, pkt: Packet, r: Regs)
    ensures Run(Flatten(LoadXIpv4Hlen) + rest, pkt, r) ==
      if pkt.net == [] then Some(0) else Run(rest, pkt, r.(x := 4 * (pkt.net[0] % 16)))
  {
    RunBlock(LoadXIpv4Hlen, rest, pkt, r);
  }
}
