/** Instruction words by their fields, and the cycles of each. */
module Opcodes {
  import opened Words
  import opened Machine

  /** The word with these fields, from the least significant bits up. */
  function Encoding(opcode: nat, rd: nat, funct3: nat, rs1: nat, rs2: nat, funct7: nat): u32
    requires opcode < 0x80 && rd < 0x20 && funct3 < 8 && rs1 < 0x20 && rs2 < 0x20 && funct7 < 0x80
  {
    opcode + 0x80 * rd + 0x1000 * funct3 + 0x8000 * rs1 + 0x10_0000 * rs2 + 0x200_0000 * funct7
  }

  /** Every word has fields, and the model reads them off. */
  lemma EveryWordHasFields(insn: u32) returns (rd: nat, rs1: nat)
    ensures rd < 0x20 && rs1 < 0x20
    ensures insn == Encoding(OpcodeOf(insn), rd, Funct3Of(insn), rs1, Rs2Of(insn), Funct7Of(insn))
  {
    rd, rs1 := insn / 0x80 % 0x20, insn / 0x8000 % 0x20;
    var q := insn / 0x80;
    assert insn == 0x80 * q + OpcodeOf(insn);
    var q1 := q / 0x20;
    assert q == 0x20 * q1 + rd && q1 == insn / 0x1000;
    var q2 := q1 / 8;
    assert q1 == 8 * q2 + Funct3Of(insn) && q2 == insn / 0x8000;
    var q3 := q2 / 0x20;
    assert q2 == 0x20 * q3 + rs1 && q3 == insn / 0x10_0000;
    assert q3 == 0x20 * (q3 / 0x20) + Rs2Of(insn) && q3 / 0x20 == Funct7Of(insn);
  }

  lemma FieldsOf(opcode: nat, rd: nat, funct3: nat, rs1: nat, rs2: nat, funct7: nat)
    requires opcode < 0x80 && rd < 0x20 && funct3 < 8 && rs1 < 0x20 && rs2 < 0x20 && funct7 < 0x80
    ensures var insn := Encoding(opcode, rd, funct3, rs1, rs2, funct7);
            && OpcodeOf(insn) == opcode && Funct3Of(insn) == funct3 && Rs2Of(insn) == rs2 && Funct7Of(insn) == funct7
  {
    var insn := Encoding(opcode, rd, funct3, rs1, rs2, funct7);
    var q3 := rs2 + 0x20 * funct7;
    var q2 := rs1 + 0x20 * q3;
    var q1 := funct3 + 8 * q2;
    var q := rd + 0x20 * q1;
    assert insn == opcode + 0x80 * q && insn / 0x80 == q;
    assert insn / 0x1000 == q / 0x20 == q1;
    assert insn / 0x8000 == q1 / 8 == q2;
    assert insn / 0x10_0000 == q2 / 0x20 == q3;
    assert insn / 0x200_0000 == q3 / 0x20 == funct7;
  }

  /** Loads, AUIPC, stores, LUI, branches, JALR, JAL and system instructions. */
  const PLAIN: set<nat> := {0x03, 0x17, 0x23, 0x37, 0x63, 0x67, 0x6F, 0x73}

  /** By (funct3, funct7): ADD, SUB, SLL, SLT, SLTU, MUL, MULH, MULHSU, MULHU. */
  const FAST: set<(nat, nat)> :=
    {(0, 0x00), (0, 0x20), (1, 0x00), (2, 0x00), (3, 0x00), (0, 0x01), (1, 0x01), (2, 0x01), (3, 0x01)}

  /** XOR, SRL, SRA, OR, AND, DIV, DIVU, REM, REMU. */
  const SLOW: set<(nat, nat)> :=
    {(4, 0x00), (5, 0x00), (5, 0x20), (6, 0x00), (7, 0x00), (4, 0x01), (5, 0x01), (6, 0x01), (7, 0x01)}

  /** The cycles of every instruction word: two for XORI, the right shifts by an immediate, ORI and
      ANDI and for the register forms in `SLOW`; one for the other listed words; none elsewhere. */
  lemma CycleTable(opcode: nat, rd: nat, funct3: nat, rs1: nat, rs2: nat, funct7: nat)
    requires opcode < 0x80 && rd < 0x20 && funct3 < 8 && rs1 < 0x20 && rs2 < 0x20 && funct7 < 0x80
    ensures var cycles := OpcodeCycle(Encoding(opcode, rd, funct3, rs1, rs2, funct7));
            && (cycles == Some(2) <==>
                  || (opcode == 0x13 && funct3 in {4, 5, 6, 7})
                  || (opcode == 0x33 && (funct3, funct7) in SLOW))
            && (cycles == Some(1) <==>
                  || opcode in PLAIN
                  || (opcode == 0x13 && funct3 in {0, 1, 2, 3})
                  || (opcode == 0x33 && (funct3, funct7) in FAST))
            && (cycles == None <==>
                  || (opcode !in PLAIN && opcode != 0x13 && opcode != 0x33)
                  || (opcode == 0x33 && (funct3, funct7) !in FAST + SLOW))
  {
    FieldsOf(opcode, rd, funct3, rs1, rs2, funct7);
    hide Encoding, OpcodeOf, Funct3Of, Rs2Of, Funct7Of;
  }

  /** The environment calls are ECALL and EBREAK, whatever their fields rd and rs1 hold. */
  lemma EcallWords(opcode: nat, rd: nat, funct3: nat, rs1: nat, rs2: nat, funct7: nat)
    requires opcode < 0x80 && rd < 0x20 && funct3 < 8 && rs1 < 0x20 && rs2 < 0x20 && funct7 < 0x80
    ensures IsEcall(Encoding(opcode, rd, funct3, rs1, rs2, funct7))
       <==> opcode == 0x73 && funct3 == 0 && rs2 in {0, 1} && funct7 == 0
  {
    FieldsOf(opcode, rd, funct3, rs1, rs2, funct7);
    hide Encoding, OpcodeOf, Funct3Of, Rs2Of, Funct7Of;
  }
}
