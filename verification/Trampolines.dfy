/** Code trampolines for 32-bit x86 (overlay/HardHook_x86.cpp): the instruction-length decoder, the
    bump allocator that trampolines come from, and the relative jump that leads back. */
module Trampolines {
  import opened Bytes
  import opened Wrappers

  const CODEREPLACESIZE := 6
  const CODEPROTECTSIZE := 16
  const PAGE := 4096
  const JMP: byte := 0xe9

  // ----- Instruction lengths

  /** The bytes that follow a ModR/M byte `a`, when `b` is the byte after it. */
  function ModRmBytes(a: byte, b: byte): nat {
    var lower := a % 16;
    if a >= 0xc0 then 0
    else if a >= 0x80 then
      if lower == 4 || lower == 12 then 5 else 4
    else if a >= 0x40 then
      if lower == 4 || lower == 12 then 2 else 1
    else if lower == 4 || lower == 12 then
      if b % 8 == 5 then 5 else 1
    else if lower == 5 || lower == 13 then 4
    else 0
  }

  /** The same count as the processor manual gives it (Intel SDM, Volume 2, section 2.1.5): a SIB byte
      where the R/M field is 4 in a memory form, and a displacement whose size follows from the Mod
      field, the R/M field and the base field of the SIB byte. */
  function OperandLength(modRm: byte, sib: byte): nat {
    var mod, rm, base := modRm / 64, modRm % 8, sib % 8;
    var hasSib := mod != 3 && rm == 4;
    var displacement :=
      if mod == 1 then 1
      else if mod == 2 then 4
      else if mod == 0 && (rm == 5 || (hasSib && base == 5)) then 4
      else 0;
    (if hasSib then 1 else 0) + displacement
  }

  lemma ModRmBytesIsOperandLength(a: byte, b: byte)
    ensures ModRmBytes(a, b) == OperandLength(a, b)
  {
    var n: int := a;
    assert n % 16 == n % 8 || n % 16 == n % 8 + 8;
  }

  /** Whether an instruction has a ModR/M byte, and how many immediate bytes end it. */
  datatype Format = Format(hasModRm: bool, immediate: nat)

  /** The opcode map of the manual, for the instructions that may be moved: push and pop of a register,
      push of an immediate, arithmetic with an immediate, move to a register, push from memory. */
  function FormatOf(opcode: byte, modRm: byte): Option<Format> {
    if 0x50 <= opcode <= 0x5f then Some(Format(false, 0))
    else if opcode == 0x68 then Some(Format(false, 4))
    else if opcode == 0x6a then Some(Format(false, 1))
    else if opcode == 0x81 then Some(Format(true, 4))
    else if opcode == 0x83 then Some(Format(true, 1))
    else if opcode == 0x8b then Some(Format(true, 0))
    else if opcode == 0xff && modRm / 8 % 8 == 6 then Some(Format(true, 0))
    else None
  }

  /** The manual's operand lengths spelled out, by the first ModR/M byte of each row. */
  lemma OperandTable(modRm: byte, sib: byte)
    ensures modRm >= 0xc0 ==> OperandLength(modRm, sib) == 0
    ensures 0x80 <= modRm < 0xc0 ==> OperandLength(modRm, sib) == if modRm % 8 == 4 then 5 else 4
    ensures 0x40 <= modRm < 0x80 ==> OperandLength(modRm, sib) == if modRm % 8 == 4 then 2 else 1
    ensures modRm < 0x40 ==>
              OperandLength(modRm, sib) ==
              if modRm % 8 == 5 then 4
              else if modRm % 8 != 4 then 0
              else if sib % 8 == 5 then 5
              else 1
  {
    var n: int := modRm;
    assert n / 64 == if n >= 0xc0 then 3 else if n >= 0x80 then 2 else if n >= 0x40 then 1 else 0;
  }

  /** The length of the instruction that starts with these three bytes. */
  function InstructionLength(opcode: byte, a: byte, b: byte): (n: Option<nat>)
    ensures n.Some? ==> 1 <= n.value <= 11
  {
    match FormatOf(opcode, a)
    case None => None
    case Some(f) => Some(1 + (if f.hasModRm then 1 + OperandLength(a, b) else 0) + f.immediate)
  }

  /** An instruction's length depends on its own bytes only, so it has the same one wherever a whole copy
      of it lies. */
  lemma LengthIsInside(opcode: byte, a: byte, b: byte, a': byte, b': byte)
    requires InstructionLength(opcode, a, b).Some?
    requires var n := InstructionLength(opcode, a, b).value; (n > 1 ==> a' == a) && (n > 2 ==> b' == b)
    ensures InstructionLength(opcode, a', b') == InstructionLength(opcode, a, b)
  {
  }

  /** Prologues as compilers write them: push ebp; mov ebp, esp; sub esp with a byte and with four; push of a
      byte, of four and of an absolute address; and two instructions that are not moved. */
  lemma KnownLengths(a: byte, b: byte)
    ensures InstructionLength(0x55, a, b) == Some(1)
    ensures InstructionLength(0x8b, 0xec, b) == Some(2)
    ensures InstructionLength(0x83, 0xec, b) == Some(3)
    ensures InstructionLength(0x81, 0xec, b) == Some(6)
    ensures InstructionLength(0x6a, a, b) == Some(2)
    ensures InstructionLength(0x68, a, b) == Some(5)
    ensures InstructionLength(0xff, 0x35, b) == Some(6)
    ensures InstructionLength(0xff, 0x25, b) == None && InstructionLength(0xe9, a, b) == None
  {
    OperandTable(0xec, b);
    OperandTable(0x35, b);
  }

  /** Every instruction that is not moved. */
  lemma UnknownOpcodes(opcode: byte, a: byte, b: byte)
    ensures InstructionLength(opcode, a, b) == None <==>
            && !(0x50 <= opcode <= 0x5f) && opcode !in {0x68, 0x6a, 0x81, 0x83, 0x8b}
            && !(opcode == 0xff && a / 8 % 8 == 6)
  {
  }

  /** How many bytes follow the opcode, or none where the decoder gives up. */
  method ExtraBytes(opcode: byte, a: byte, b: byte) returns (extra: Option<nat>)
    ensures extra.Some? <==> InstructionLength(opcode, a, b).Some?
    ensures extra.Some? ==> 1 + extra.value == InstructionLength(opcode, a, b).value
  {
    ModRmBytesIsOperandLength(a, b);
    if 0x50 <= opcode <= 0x5f {
      extra := Some(0);
    } else if opcode == 0x6a {
      extra := Some(1);
    } else if opcode == 0x68 {
      extra := Some(4);
    } else if opcode == 0x81 {
      extra := Some(ModRmBytes(a, b) + 5);
    } else if opcode == 0x83 {
      extra := Some(ModRmBytes(a, b) + 2);
    } else if opcode == 0x8b {
      extra := Some(ModRmBytes(a, b) + 1);
    } else {
      var rmop := a / 8 % 8;
      if opcode == 0xff && rmop == 6 {
        extra := Some(ModRmBytes(a, b) + 1);
      } else {
        extra := None;
      }
    }
  }

  // ----- Instruction boundaries

  /** The instructions that fill `code` from `from` to `to` exactly, if whole instructions do. */
  function Decoded(code: seq<byte>, from: nat, to: nat): (r: Option<seq<seq<byte>>>)
    requires from <= to <= |code|
    decreases |code| - from
  {
    if from == to then Some([])
    else if from + 2 >= |code| then None
    else
      match InstructionLength(code[from], code[from + 1], code[from + 2])
      case None => None
      case Some(n) =>
        if from + n > to then None
        else
          match Decoded(code, from + n, to)
          case None => None
          case Some(rest) => Some([code[from..from + n]] + rest)
  }

  /** Where the copy stops, and whether it has gone far enough. */
  function Scan(code: seq<byte>, idx: nat): (r: (nat, bool))
    requires |code| == CODEPROTECTSIZE && idx <= CODEPROTECTSIZE
    ensures idx <= r.0 <= CODEPROTECTSIZE && (r.1 <==> r.0 >= CODEREPLACESIZE)
    decreases CODEPROTECTSIZE - idx
  {
    if idx >= CODEREPLACESIZE then (idx, true)
    else
      match InstructionLength(code[idx], code[idx + 1], code[idx + 2])
      case None => (idx, false)
      case Some(n) => Scan(code, idx + n)
  }

  /** No whole number of instructions from `idx` on ends in the given range. */
  ghost predicate NoBoundary(code: seq<byte>, idx: nat, lo: nat, hi: nat) {
    forall m | lo <= m < hi && idx <= m <= |code| :: Decoded(code, idx, m).None?
  }

  lemma {:induction false} FirstInstruction(code: seq<byte>, from: nat, to: nat)
    requires from < to <= |code| && from + 2 < |code|
    ensures var length := InstructionLength(code[from], code[from + 1], code[from + 2]);
            Decoded(code, from, to).Some? <==>
            length.Some? && from + length.value <= to && Decoded(code, from + length.value, to).Some?
  {
  }

  /** The copy stops at the first instruction boundary past the bytes to be replaced, and fails exactly
      when there is none. */
  lemma {:induction false} ScanFindsFirstBoundary(code: seq<byte>, idx: nat)
    requires |code| == CODEPROTECTSIZE && idx <= CODEPROTECTSIZE
    ensures var (k, ok) := Scan(code, idx);
            Decoded(code, idx, k).Some? && NoBoundary(code, idx, CODEREPLACESIZE, if ok then k else |code| + 1)
    decreases CODEPROTECTSIZE - idx
  {
    if idx < CODEREPLACESIZE {
      var length := InstructionLength(code[idx], code[idx + 1], code[idx + 2]);
      if length.Some? {
        var (k, ok) := Scan(code, idx + length.value);
        ScanFindsFirstBoundary(code, idx + length.value);
        FirstInstruction(code, idx, k);
      }
      forall m | CODEREPLACESIZE <= m <= |code|
        ensures Decoded(code, idx, m).Some? <==>
                length.Some? && idx + length.value <= m && Decoded(code, idx + length.value, m).Some?
      {
        FirstInstruction(code, idx, m);
      }
    }
  }

  // ----- The jump back

  function LittleEndian32(n: u32): (bs: seq<byte>)
    ensures |bs| == 4
  {
    var b := BigEndian32(n);
    [b[3], b[2], b[1], b[0]]
  }

  function FromLittleEndian32(bs: seq<byte>): u32
    requires |bs| == 4
  {
    FromBigEndian32([bs[3], bs[2], bs[1], bs[0]])
  }

  lemma LittleEndian32RoundTrip(n: u32)
    ensures FromLittleEndian32(LittleEndian32(n)) == n
  {
    BigEndian32RoundTrip(n);
    var b := BigEndian32(n);
    assert [b[0], b[1], b[2], b[3]] == b;
  }

  /** The jump that ends the trampoline at `n` for the code at `o`.  The offset does not mention how many
      bytes were copied: it counts from the end of a jump at `n` to `o`. */
  function JumpBack(o: u32, n: u32): (bs: seq<byte>)
    ensures |bs| == 5
  {
    [JMP] + LittleEndian32(ToU32(o - n - 5))
  }

  /** The bytes of the jump: its opcode and the offset with the low byte first. */
  lemma JumpBytes(o: u32, n: u32, offset: u32)
    requires offset == (o - n - 5) % 0x1_0000_0000
    ensures JumpBack(o, n) ==
            [0xe9, offset % 0x100, offset / 0x100 % 0x100, offset / 0x1_0000 % 0x100, offset / 0x100_0000]
  {
  }

  /** Where a relative jump that lies at `address` leads (Intel SDM, Volume 2, JMP rel32): the offset
      counts from the instruction that follows. */
  function JumpTarget(address: u32, jump: seq<byte>): u32
    requires |jump| == 5
  {
    ToU32(address + 5 + ToInt32(FromLittleEndian32(jump[1..])))
  }

  lemma Wraps(x: int, y: int)
    requires y == ToU32(x) || y == ToInt32(ToU32(x))
    ensures x - y == (x - y) / 0x1_0000_0000 * 0x1_0000_0000
  {
  }

  lemma SameModulo(x: int, y: int, k: int)
    requires x - y == k * 0x1_0000_0000
    ensures ToU32(x) == ToU32(y)
  {
  }

  /** The jump placed after `k` copied bytes leads to the first byte that was not copied, wherever the
      two pieces of code lie. */
  lemma JumpLandsAfterTheCopy(o: u32, n: u32, k: nat)
    ensures JumpTarget(ToU32(n + k), JumpBack(o, n)) == ToU32(o + k)
  {
    LittleEndian32RoundTrip(ToU32(o - n - 5));
    assert JumpBack(o, n)[1..] == LittleEndian32(ToU32(o - n - 5));
    var offs := ToInt32(ToU32(o - n - 5));
    Wraps(o - n - 5, offs);
    Wraps(n + k, ToU32(n + k));
    var p := (o - n - 5 - offs) / 0x1_0000_0000;
    var q := (n + k - ToU32(n + k)) / 0x1_0000_0000;
    SameModulo(o + k, ToU32(n + k) + 5 + offs, p + q);
  }

  // ----- Jumps in front of the code

  /** Only mapped code can be made readable: the 16 bytes from an offset where the system agrees. */
  ghost predicate Mapped(length: nat, readable: int -> bool) {
    forall o :: readable(o) ==> 0 <= o && o + CODEPROTECTSIZE <= length
  }

  /** The offset in the code, which begins at address `origin`, that the jump at offset `o` leads to. */
  function Target(code: seq<byte>, origin: u32, o: nat): int
    requires o + 5 <= |code| && origin + o < 0x1_0000_0000
  {
    JumpTarget(origin + o, code[o..o + 5]) - origin
  }

  /** The end of the chain of jumps that starts at offset `o`, and whether the code there is readable;
      none if the chain goes on after `n` jumps. */
  ghost function ChainEnd(code: seq<byte>, origin: u32, readable: int -> bool, o: int, n: nat): (r: Option<(int, bool)>)
    requires Mapped(|code|, readable) && origin + |code| <= 0x1_0000_0000
    ensures r.Some? ==> (r.value.1 <==> readable(r.value.0)) && (r.value.1 ==> code[r.value.0] != JMP)
    decreases n
  {
    if !readable(o) then Some((o, false))
    else if code[o] != JMP then Some((o, true))
    else if n == 0 then None
    else ChainEnd(code, origin, readable, Target(code, origin, o), n - 1)
  }

  /** The end does not depend on how many jumps one is prepared to follow. */
  lemma {:induction false} ChainEndIsStable(code: seq<byte>, origin: u32, readable: int -> bool, o: int, n: nat, m: nat)
    requires Mapped(|code|, readable) && origin + |code| <= 0x1_0000_0000
    requires ChainEnd(code, origin, readable, o, n).Some? && ChainEnd(code, origin, readable, o, m).Some?
    ensures ChainEnd(code, origin, readable, o, n) == ChainEnd(code, origin, readable, o, m)
    decreases n
  {
    if readable(o) && code[o] == JMP {
      ChainEndIsStable(code, origin, readable, Target(code, origin, o), n - 1, m - 1);
    }
  }

  /** A chain need not end: a readable jump to itself. */
  lemma {:induction false} SelfJumpGoesOn(code: seq<byte>, origin: u32, readable: int -> bool, n: nat)
    requires Mapped(|code|, readable) && origin + |code| <= 0x1_0000_0000
    requires readable(0) && code[..5] == [JMP, 0xfb, 0xff, 0xff, 0xff]
    ensures ChainEnd(code, origin, readable, 0, n).None?
    decreases n
  {
    assert code[0] == code[..5][0];
    assert code[0..5] == code[..5] && code[..5][1..] == [0xfb, 0xff, 0xff, 0xff];
    assert Target(code, origin, 0) == 0;
    if n > 0 {
      SelfJumpGoesOn(code, origin, readable, n - 1);
    }
  }

  /** The loop that follows the chain.  It ends when the chain does. */
  method FollowJumps(code: array<byte>, origin: u32, readable: int -> bool, at: int, ghost n: nat) returns (o: int, ok: bool)
    requires Mapped(code.Length, readable) && origin + code.Length <= 0x1_0000_0000
    requires ChainEnd(code[..], origin, readable, at, n).Some?
    ensures Some((o, ok)) == ChainEnd(code[..], origin, readable, at, n)
  {
    o := at;
    ok := readable(o);
    ghost var left := n;
    while ok && code[o] == JMP
      invariant ok == readable(o)
      invariant ChainEnd(code[..], origin, readable, o, left) == ChainEnd(code[..], origin, readable, at, n)
      decreases left
    {
      assert code[..][o..o + 5] == code[o..o + 5];
      o := JumpTarget(origin + o, code[o..o + 5]) - origin;
      ok := readable(o);
      left := left - 1;
    }
  }

  /** A trampoline at `n` for the code at `o`, which starts with `code`. */
  function Trampoline(code: seq<byte>, o: u32, n: u32): (t: seq<byte>)
    requires |code| == CODEPROTECTSIZE
    ensures |t| == Scan(code, 0).0 + 5
  {
    code[..Scan(code, 0).0] + JumpBack(o, n)
  }

  /** The code at address `n` has a relative jump to `target` at offset `k`. */
  ghost predicate JumpsTo(code: seq<byte>, n: u32, k: nat, target: u32) {
    k + 5 <= |code| && code[k] == JMP && JumpTarget(ToU32(n + k), code[k..k + 5]) == target
  }

  lemma FollowedByJump(copy: seq<byte>, o: u32, n: u32)
    ensures var t := copy + JumpBack(o, n);
            t[..|copy|] == copy && JumpsTo(t, n, |copy|, ToU32(o + |copy|))
  {
    var t := copy + JumpBack(o, n);
    assert t[|copy|..|copy| + 5] == JumpBack(o, n);
    JumpLandsAfterTheCopy(o, n, |copy|);
  }

  /** A copy of whole instructions decodes to the same instructions, whatever follows it. */
  lemma {:induction false} CopyDecodesAlike(code: seq<byte>, copy: seq<byte>, from: nat, to: nat)
    requires from <= to <= |code| && to + 2 <= |copy| && code[..to] == copy[..to]
    requires Decoded(code, from, to).Some?
    ensures Decoded(copy, from, to) == Decoded(code, from, to)
    decreases |code| - from
  {
    if from < to {
      var n := InstructionLength(code[from], code[from + 1], code[from + 2]).value;
      forall i | from <= i < to
        ensures code[i] == copy[i]
      {
        assert code[..to][i] == copy[..to][i];
      }
      LengthIsInside(code[from], code[from + 1], code[from + 2], copy[from + 1], copy[from + 2]);
      CopyDecodesAlike(code, copy, from + n, to);
      assert code[from..from + n] == copy[from..from + n];
    }
  }

  lemma {:induction false} RunsTheCopy(code: seq<byte>, k: nat, o: u32, n: u32, t: seq<byte>, target: u32)
    requires k <= |code| && Decoded(code, 0, k).Some?
    requires t == code[..k] + JumpBack(o, n) && target == ToU32(o + k)
    ensures |t| == k + 5 && Decoded(t, 0, k) == Decoded(code, 0, k) && JumpsTo(t, n, k, target)
  {
    FollowedByJump(code[..k], o, n);
    CopyDecodesAlike(code, t, 0, k);
  }

  /** Running a trampoline runs the same whole instructions as the original code, at least as many as the
      hook overwrites, and then jumps to the rest of the original code. */
  lemma {:induction false} TrampolineRunsTheOriginal(code: seq<byte>, o: u32, n: u32, k: nat, t: seq<byte>)
    requires |code| == 16 && Scan(code, 0) == (k, true) && t == Trampoline(code, o, n)
    ensures 6 <= k <= 16 && |t| == k + 5
    ensures Decoded(code, 0, k).Some? && Decoded(t, 0, k) == Decoded(code, 0, k)
    ensures JumpsTo(t, n, k, ToU32(o + k))
  {
    ScanFindsFirstBoundary(code, 0);
    RunsTheCopy(code, k, o, n, t, ToU32(o + k));
  }
}
