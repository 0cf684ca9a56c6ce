// Finding and decoding the first BL instruction, as in set_program_vars of
// tools/z3-bench/dyld-interposing.c.  The encoding of BL is in section C6.2 of
// the Arm Architecture Reference Manual DDI 0487.
module BranchScan {

  const TWO26: nat := 0x400_0000
  const TWO32: nat := 0x1_0000_0000
  const TWO64: nat := 0x1_0000_0000_0000_0000
  const BL_OPC_MATCH: nat := 0x9400_0000

  type Word = w: int | 0 <= w < TWO32

  // The top six bits, which BL_OPC_MASK selects, and the other twenty-six.
  function Opcode(inst: Word): nat {
    inst - inst % TWO26
  }

  function Immediate(inst: Word): nat {
    inst % TWO26
  }

  predicate IsBl(inst: Word) {
    Opcode(inst) == BL_OPC_MATCH
  }

  // The opcode of BL is 100101 in the top six bits.
  lemma BlOpcode(inst: Word)
    ensures IsBl(inst) <==> inst / 0x400_0000 == 37
  {
  }

  // A 32-bit word read as a signed number.
  function Signed(w: Word): int {
    if w < TWO32 / 2 then w else w - TWO32
  }

  // Shift left by 6 in 32 bits, then arithmetic shift right by 4.
  function DecodeBlOffset(inst: Word): int {
    Signed(Immediate(inst) * 64 % TWO32) / 16
  }

  // The decoded offset is four times the signed 26-bit immediate.
  lemma DecodesSignedImmediate(inst: Word)
    ensures DecodeBlOffset(inst)
         == 4 * (if Immediate(inst) < TWO26 / 2 then Immediate(inst) else Immediate(inst) - TWO26)
    ensures DecodeBlOffset(inst) % 4 == 0 && -0x800_0000 <= DecodeBlOffset(inst) <= 0x800_0000 - 4
  {
    var imm := Immediate(inst);
    assert imm * 64 < TWO32;
    assert imm * 64 % TWO32 == imm * 64;
  }

  // The BL instruction for a byte displacement.
  function EncodeBl(d: int): Word {
    BL_OPC_MATCH + d / 4 % TWO26
  }

  // A displacement survives encoding exactly when it is word-aligned and within
  // 128 MiB.
  lemma EncodeDecode(d: int)
    ensures IsBl(EncodeBl(d))
    ensures DecodeBlOffset(EncodeBl(d)) == d <==> d % 4 == 0 && -0x800_0000 <= d <= 0x800_0000 - 4
  {
    DecodesSignedImmediate(EncodeBl(d));
    var q := d / 4;
    if d % 4 == 0 && -0x800_0000 <= d <= 0x800_0000 - 4 {
      if q >= 0 {
        assert q % TWO26 == q;
      } else {
        assert (q + TWO26) % TWO26 == q + TWO26;
        ModShift(q);
      }
    }
  }

  lemma ModShift(q: int)
    ensures (q + TWO26) % TWO26 == q % TWO26
  {
  }

  // Decoding any BL and encoding it again gives the instruction back.
  lemma DecodeEncode(inst: Word)
    requires IsBl(inst)
    ensures EncodeBl(DecodeBlOffset(inst)) == inst
  {
    DecodesSignedImmediate(inst);
    var imm := Immediate(inst);
    if imm >= TWO26 / 2 {
      ModShift(imm - TWO26);
    }
  }

  // Advances to the first BL at or after the first instruction and returns its
  // index and the address it branches to.  Code without a BL is scanned past its
  // end, so the caller must know that there is one.
  method FindBranchTarget(code: seq<Word>, start: nat) returns (index: nat, target: nat)
    requires exists k :: 0 <= k < |code| && code[k] / 0x400_0000 == 37
    ensures index < |code| && code[index] / 0x400_0000 == 37
    ensures forall k :: 0 <= k < index ==> code[k] / 0x400_0000 != 37
    ensures target < 0x1_0000_0000_0000_0000
    ensures var imm: int := code[index] % 0x400_0000;
            target == (start + 4 * index + 4 * (if imm < 0x200_0000 then imm else imm - 0x400_0000))
                      % 0x1_0000_0000_0000_0000
  {
    forall k | 0 <= k < |code| ensures IsBl(code[k]) <==> code[k] / 0x400_0000 == 37 {
      BlOpcode(code[k]);
    }
    var pc := 0;
    var found := false;
    while !found
      invariant pc < |code|
      invariant forall k :: 0 <= k < pc ==> !IsBl(code[k])
      invariant found ==> IsBl(code[pc])
      decreases |code| - pc, !found
    {
      var inst := code[pc];
      found := IsBl(inst);
      if !found {
        pc := pc + 1;
      }
    }
    index := pc;
    DecodesSignedImmediate(code[pc]);
    target := (start + 4 * pc + DecodeBlOffset(code[pc])) % TWO64;
  }
}
