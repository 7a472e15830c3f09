/**
 * The value-level logic of the packet translator (`translate.c`): how a
 * 32-bit word is classified by its parse and iclass bits, the immediate a
 * constant extender carries, how a duplex word is split into two
 * sub-instructions, how an instruction's register effects are folded into
 * the packet (`regs_append`), and which register moves the packet end
 * emits.
 *
 * The generated decoder (`decode`, `sub_decode`, `execute`, `sub_execute`,
 * the `endloop*` bodies) and guest memory are not part of this model; they
 * are the `Backend` the translator is given. What an executed instruction
 * does to the translator's state is described by an `Effect`: the ops it
 * emits, and the register-effect macros it runs, in order.
 */
module Packet {
  import opened Wrappers
  import opened Bits
  import opened Fields
  import opened Registers
  import opened OpLog

  /** `trap0(#0)`: the word that always closes a block. */
  const TRAP0: nat := 0x5400c000

  /** Sub-instruction types of the first (slot 1) and last (slot 0) halves of a duplex, by iclass. */
  const FIRST_SUB_TYPE: seq<nat> := [0, 0, 1, 4, 4, 4, 4, 4, 0, 1, 2, 2, 0, 1, 3]
  const LAST_SUB_TYPE: seq<nat> := [0, 1, 1, 4, 0, 1, 2, 3, 2, 2, 2, 3, 3, 3, 3]

  // ---------------------------------------------------------------------
  // Word classification
  // ---------------------------------------------------------------------

  /** Bits 14..15: 1 inside a packet, 2 marks an end of loop, 3 ends the packet, 0 a duplex (also ending it). */
  function ParseBits(ir: nat): nat
  {
    ExtractField(ir, 14, 15)
  }

  /** Bits 28..31, the instruction class. */
  function Iclass(ir: nat): nat
  {
    ExtractField(ir, 28, 31)
  }

  /** A word that ends its packet: parse bits 3, or 0 for a duplex. */
  predicate EndsPacket(ir: nat)
  {
    ParseBits(ir) == 3 || ParseBits(ir) == 0
  }

  /** A constant extender: iclass 0 in a word that is not a duplex. */
  predicate IsExtender(ir: nat)
  {
    ParseBits(ir) != 0 && Iclass(ir) == 0
  }

  /** The parse bits are one of the four values the translator distinguishes. */
  lemma ParseBitsRange(ir: nat)
    ensures ParseBits(ir) < 4
  {
    ExtractFieldBits(ir, 14, 15);
  }

  /** `const_ext`: bits 0..13 and 16..27 of the extender, joined and shifted up by 6. */
  function ConstExt(ir: nat): nat
  {
    Shl(ExtractField2(ir, 0, 13, 16, 27), 6)
  }

  /**
   * The extender carries the upper 26 bits of a 32-bit immediate: its own
   * bits 0..13 land in bits 6..19, bits 16..27 in bits 20..31, and the low
   * 6 bits are clear for the instruction's own immediate.
   */
  lemma ConstExtBits(ir: nat)
    ensures forall k: nat {:trigger Bit(ConstExt(ir), k)} ::
      Bit(ConstExt(ir), k) ==
        (if k < 6 then false
         else if k < 20 then Bit(ir, k - 6)
         else k < 32 && Bit(ir, k - 4))
    ensures ConstExt(ir) < Pow2(32)
  {
    var f := ExtractField2(ir, 0, 13, 16, 27);
    ExtractField2Bits(ir, 0, 13, 16, 27);
    ShlBits(f, 6);
    forall k: nat | k >= 32 ensures !Bit(ConstExt(ir), k) {
      assert Bit(ConstExt(ir), k) == Bit(f, k - 6);
    }
    HighClear(ConstExt(ir), 32);
  }

  /** The iclass of a duplex: bits 29..31 above bit 13. */
  function DuplexIclass(ir: nat): nat
  {
    ExtractField2(ir, 13, 13, 29, 31)
  }

  lemma DuplexIclassBits(ir: nat)
    ensures DuplexIclass(ir) < 16
    ensures forall k: nat {:trigger Bit(DuplexIclass(ir), k)} ::
      Bit(DuplexIclass(ir), k) ==
        (if k == 0 then Bit(ir, 13) else k < 4 && Bit(ir, 28 + k))
  {
    ExtractField2Bits(ir, 13, 13, 29, 31);
    assert Pow2(4) == 16;
  }

  /** The slot-1 sub-instruction: bits 16..28 of the word, with its type in bits 13 and up. */
  function FirstSub(ir: nat): nat
    requires DuplexIclass(ir) < 15
  {
    Or(ExtractField(ir, 16, 28), Shl(FIRST_SUB_TYPE[DuplexIclass(ir)], 13))
  }

  /** The slot-0 sub-instruction: bits 0..12 of the word, with its type in bits 13 and up. */
  function LastSub(ir: nat): nat
    requires DuplexIclass(ir) < 15
  {
    Or(ExtractField(ir, 0, 12), Shl(LAST_SUB_TYPE[DuplexIclass(ir)], 13))
  }

  /**
   * A duplex word holds two 13-bit sub-instructions, the first in its upper
   * half and the last in its lower half; each gets the type the tables give
   * for the duplex iclass. This is the first.
   */
  lemma FirstSubBits(ir: nat)
    requires DuplexIclass(ir) < 15
    ensures forall k: nat {:trigger Bit(FirstSub(ir), k)} ::
      Bit(FirstSub(ir), k) ==
        if k < 13 then Bit(ir, 16 + k) else Bit(FIRST_SUB_TYPE[DuplexIclass(ir)], k - 13)
  {
    ExtractFieldBits(ir, 16, 28);
    WithType(ExtractField(ir, 16, 28), FIRST_SUB_TYPE[DuplexIclass(ir)]);
  }

  /** The last sub-instruction: the lower half of the word, with its table type. */
  lemma LastSubBits(ir: nat)
    requires DuplexIclass(ir) < 15
    ensures forall k: nat {:trigger Bit(LastSub(ir), k)} ::
      Bit(LastSub(ir), k) ==
        if k < 13 then Bit(ir, k) else Bit(LAST_SUB_TYPE[DuplexIclass(ir)], k - 13)
  {
    ExtractFieldBits(ir, 0, 12);
    WithType(ExtractField(ir, 0, 12), LAST_SUB_TYPE[DuplexIclass(ir)]);
  }

  /** A sub-instruction field with its type placed from bit 13 up. */
  lemma WithType(field: nat, t: nat)
    ensures forall k: nat {:trigger Bit(Or(field, Shl(t, 13)), k)} ::
      Bit(Or(field, Shl(t, 13)), k) == (Bit(field, k) || (k >= 13 && Bit(t, k - 13)))
  {
    ShlBits(t, 13);
    OrBits(field, Shl(t, 13));
  }

  // ---------------------------------------------------------------------
  // Register moves at the packet end
  // ---------------------------------------------------------------------

  /** The moves of one phase for the general registers below n whose bit is set, ascending. */
  function GprMoves(mask: nat, phase: Phase, n: nat): seq<OpKind>
  {
    if n == 0 then []
    else GprMoves(mask, phase, n - 1) + (if Bit(mask, n - 1) then [Move(phase, Gpr, n - 1)] else [])
  }

  /** Control register r is moved: its bit 32 + r is set and it is not the PC. */
  predicate CrMoved(mask: nat, r: nat)
  {
    r != CR_PC && Bit(mask, 32 + r)
  }

  /** The same for the control registers below n. */
  function CrMoves(mask: nat, phase: Phase, n: nat): seq<OpKind>
  {
    if n == 0 then []
    else CrMoves(mask, phase, n - 1) + (if CrMoved(mask, n - 1) then [Move(phase, Cr, n - 1)] else [])
  }

  /** The moves the packet end emits for one phase of a 64-bit register mask. */
  function Moves(mask: nat, phase: Phase): seq<OpKind>
  {
    GprMoves(mask, phase, 32) + CrMoves(mask, phase, 32)
  }

  /**
   * Where a move stands in the order the packet end emits moves: general
   * registers first, then control registers, each by number.
   */
  function MoveKey(x: OpKind): int
  {
    if !x.Move? then -1 else if x.file == Gpr then x.reg else 32 + x.reg
  }

  /** The keys of s rise strictly, so no move occurs twice. */
  predicate Ascending(s: seq<OpKind>)
  {
    forall a, b :: 0 <= a < b < |s| ==> MoveKey(s[a]) < MoveKey(s[b])
  }

  lemma {:induction false} GprMovesMembers(mask: nat, phase: Phase, n: nat, x: OpKind)
    ensures x in GprMoves(mask, phase, n) <==>
      x.Move? && x.phase == phase && x.file == Gpr && x.reg < n && Bit(mask, x.reg)
  {
    if n > 0 {
      GprMovesMembers(mask, phase, n - 1, x);
    }
  }

  lemma {:induction false} CrMovesMembers(mask: nat, phase: Phase, n: nat, x: OpKind)
    ensures x in CrMoves(mask, phase, n) <==>
      x.Move? && x.phase == phase && x.file == Cr && x.reg < n && CrMoved(mask, x.reg)
  {
    if n > 0 {
      CrMovesMembers(mask, phase, n - 1, x);
    }
  }

  lemma {:induction false} GprMovesAscending(mask: nat, phase: Phase, n: nat)
    ensures Ascending(GprMoves(mask, phase, n))
  {
    if n > 0 {
      var prev := GprMoves(mask, phase, n - 1);
      GprMovesAscending(mask, phase, n - 1);
      if Bit(mask, n - 1) {
        forall a | 0 <= a < |prev| ensures MoveKey(prev[a]) < n - 1 {
          GprMovesMembers(mask, phase, n - 1, prev[a]);
        }
      }
    }
  }

  lemma {:induction false} CrMovesAscending(mask: nat, phase: Phase, n: nat)
    ensures Ascending(CrMoves(mask, phase, n))
  {
    if n > 0 {
      var prev := CrMoves(mask, phase, n - 1);
      CrMovesAscending(mask, phase, n - 1);
      if CrMoved(mask, n - 1) {
        forall a | 0 <= a < |prev| ensures MoveKey(prev[a]) < 32 + n - 1 {
          CrMovesMembers(mask, phase, n - 1, prev[a]);
        }
      }
    }
  }

  /**
   * The packet end moves general register r iff bit r of the mask is set,
   * control register r iff bit 32 + r is set and r is not the PC, and
   * nothing else in that phase.
   */
  lemma MovesMembers(mask: nat, phase: Phase, x: OpKind)
    ensures x in Moves(mask, phase) <==>
      x.Move? && x.phase == phase && x.reg < 32 &&
      (if x.file == Gpr then Bit(mask, x.reg) else CrMoved(mask, x.reg))
  {
    GprMovesMembers(mask, phase, 32, x);
    CrMovesMembers(mask, phase, 32, x);
  }

  /**
   * Each of those moves is emitted once, general registers first and each
   * file by ascending number.
   */
  lemma MovesAscending(mask: nat, phase: Phase)
    ensures Ascending(Moves(mask, phase))
  {
    var gpr, cr := GprMoves(mask, phase, 32), CrMoves(mask, phase, 32);
    GprMovesAscending(mask, phase, 32);
    CrMovesAscending(mask, phase, 32);
    forall a | 0 <= a < |gpr| ensures MoveKey(gpr[a]) < 32 {
      GprMovesMembers(mask, phase, 32, gpr[a]);
    }
    forall b | 0 <= b < |cr| ensures MoveKey(cr[b]) >= 32 {
      CrMovesMembers(mask, phase, 32, cr[b]);
    }
  }

  /** The moves listed are all of the phase asked for. */
  lemma MovesPhase(mask: nat, phase: Phase)
    ensures forall j :: 0 <= j < |Moves(mask, phase)| ==>
      Moves(mask, phase)[j].Move? && Moves(mask, phase)[j].phase == phase
  {
    forall j | 0 <= j < |Moves(mask, phase)|
      ensures Moves(mask, phase)[j].Move? && Moves(mask, phase)[j].phase == phase
    {
      MovesMembers(mask, phase, Moves(mask, phase)[j]);
    }
  }

  /** The runtime fallback: unless the packet wrote the PC, it continues at the next word. */
  function Fallback(instructionPc: nat): seq<OpKind>
  {
    [PcFallback((instructionPc + 4) % 0x1_0000_0000), ClearPcWritten]
  }

  // ---------------------------------------------------------------------
  // regs_append
  // ---------------------------------------------------------------------

  /**
   * `regs_append`: the packet's masks absorb the instruction's; a
   * conditionally written register counts as written too; the packet's
   * destination list gains the instruction's most recent destination, or
   * -1 if it has none.
   */
  function AppendRegs(packet: Regs, insn: Regs): Regs
  {
    var own := if insn.destination == [] then PushDestination(insn.destination, -1) else insn.destination;
    Regs(Or(Or(packet.written, insn.written), insn.conditional),
         Or(packet.conditional, insn.conditional),
         [own[0]] + packet.destination)
  }

  /** What `regs_append` does to each mask bit and to the destination list. */
  lemma AppendRegsBits(packet: Regs, insn: Regs)
    ensures var r := AppendRegs(packet, insn);
      (forall k: nat {:trigger Bit(r.written, k)} ::
         Bit(r.written, k) == (Bit(packet.written, k) || Bit(insn.written, k) || Bit(insn.conditional, k))) &&
      (forall k: nat {:trigger Bit(r.conditional, k)} ::
         Bit(r.conditional, k) == (Bit(packet.conditional, k) || Bit(insn.conditional, k))) &&
      r.destination == [if insn.destination == [] then -1 else insn.destination[0]] + packet.destination
  {
    OrBits(packet.written, insn.written);
    OrBits(Or(packet.written, insn.written), insn.conditional);
    OrBits(packet.conditional, insn.conditional);
  }

  // ---------------------------------------------------------------------
  // What generated code does to the translator
  // ---------------------------------------------------------------------

  type RegIndex = r: nat | r < 64
  type PredIndex = p: nat | p < 8

  /** One register-effect macro, as the generated code runs it. */
  datatype Action =
    | UseReg(reg: RegIndex, conditional: bool)   // SET_USED_REG, inside or outside a conditional section
    | WritePre(pred: PredIndex)                  // SET_WRITTEN_PRE
    | ReadPre(pred: PredIndex)                   // SET_READ_PRE
    | Jump                                       // SET_JUMP_FLAG

  /** The instruction's own `regs_t`, its slot's dependency masks, and the block's jump count. */
  datatype SlotState = SlotState(regs: Regs, dep: Dep, jumps: nat)

  /** One macro; None when `SET_JUMP_FLAG` fails its assertion. */
  function Perform(s: SlotState, a: Action): Option<SlotState>
  {
    match a
    case UseReg(r, c) => Some(s.(regs := SetUsedReg(s.regs, r, c)))
    case WritePre(p) => Some(s.(dep := SetWrittenPre(s.dep, p)))
    case ReadPre(p) => Some(s.(dep := SetReadPre(s.dep, p)))
    case Jump =>
      match SetJumpFlag(s.dep, s.jumps)
      case Jumped(d, c) => Some(s.(dep := d, jumps := c))
      case TooManyJumps => None
  }

  /** The macros in order, stopping at a failed assertion. */
  function PerformAll(s: SlotState, actions: seq<Action>): Option<SlotState>
  {
    if actions == [] then Some(s)
    else match PerformAll(s, actions[..|actions| - 1])
      case None => None
      case Some(t) => Perform(t, actions[|actions| - 1])
  }

  function JumpCount(actions: seq<Action>): nat
  {
    if actions == [] then 0
    else JumpCount(actions[..|actions| - 1]) + (if actions[|actions| - 1].Jump? then 1 else 0)
  }

  /**
   * The macros run to the end iff no jump is taken with two jumps already
   * counted in the block; the count then goes up by the number of jumps,
   * and the slot's op range is never touched.
   */
  lemma {:induction false} PerformAllJumps(s: SlotState, actions: seq<Action>)
    ensures PerformAll(s, actions).Some? <==> JumpCount(actions) == 0 || s.jumps + JumpCount(actions) <= 2
    ensures PerformAll(s, actions).Some? ==>
      PerformAll(s, actions).value.jumps == s.jumps + JumpCount(actions) &&
      PerformAll(s, actions).value.dep.begin == s.dep.begin &&
      PerformAll(s, actions).value.dep.end == s.dep.end
  {
    if actions != [] {
      PerformAllJumps(s, actions[..|actions| - 1]);
    }
  }

  /** The action is `SET_USED_REG` of register k, inside a conditional section or not. */
  predicate UsesReg(a: Action, k: nat, conditional: bool)
  {
    a.UseReg? && a.reg == k && a.conditional == conditional
  }

  /** Some action of the list is `SET_USED_REG` of register k. */
  predicate AnyUses(actions: seq<Action>, k: nat, conditional: bool)
  {
    exists j :: 0 <= j < |actions| && UsesReg(actions[j], k, conditional)
  }

  lemma AnyUsesSnoc(actions: seq<Action>, k: nat, conditional: bool)
    requires actions != []
    ensures AnyUses(actions, k, conditional) ==
      (AnyUses(actions[..|actions| - 1], k, conditional) || UsesReg(actions[|actions| - 1], k, conditional))
  {
    var init := actions[..|actions| - 1];
    if AnyUses(init, k, conditional) {
      var j :| 0 <= j < |init| && UsesReg(init[j], k, conditional);
      assert actions[j] == init[j];
    }
    if AnyUses(actions, k, conditional) {
      var j :| 0 <= j < |actions| && UsesReg(actions[j], k, conditional);
      if j < |init| { assert init[j] == actions[j]; }
    }
  }

  /**
   * The instruction's `regs_t` gains exactly the registers it names with
   * `SET_USED_REG`: in `written` those named outside a conditional section,
   * in `conditional` those named inside one.
   */
  lemma {:induction false} PerformAllRegs(s: SlotState, actions: seq<Action>)
    requires PerformAll(s, actions).Some?
    ensures var t := PerformAll(s, actions).value;
      (forall k: nat {:trigger Bit(t.regs.written, k)} ::
         Bit(t.regs.written, k) == (Bit(s.regs.written, k) || AnyUses(actions, k, false))) &&
      (forall k: nat {:trigger Bit(t.regs.conditional, k)} ::
         Bit(t.regs.conditional, k) == (Bit(s.regs.conditional, k) || AnyUses(actions, k, true)))
  {
    if actions != [] {
      var init, a := actions[..|actions| - 1], actions[|actions| - 1];
      PerformAllRegs(s, init);
      var u := PerformAll(s, init).value;
      if a.UseReg? {
        SetUsedRegBits(u.regs, a.reg, a.conditional);
      }
      forall k: nat
        ensures AnyUses(actions, k, false) == (AnyUses(init, k, false) || UsesReg(a, k, false))
        ensures AnyUses(actions, k, true) == (AnyUses(init, k, true) || UsesReg(a, k, true))
      {
        AnyUsesSnoc(actions, k, false);
        AnyUsesSnoc(actions, k, true);
      }
    }
  }

  /**
   * The slot's dependency masks gain exactly the predicates the macros name:
   * `written` those of `SET_WRITTEN_PRE` and the jump flag if a first jump
   * of the block is taken here, `read` those of `SET_READ_PRE` and the jump
   * flag if a second one is.
   */
  lemma {:induction false} PerformAllDep(s: SlotState, actions: seq<Action>)
    requires PerformAll(s, actions).Some?
    ensures var t := PerformAll(s, actions).value;
      (forall b: nat {:trigger Bit(t.dep.written, b)} ::
         Bit(t.dep.written, b) ==
           (Bit(s.dep.written, b) || (b < 8 && WritePre(b) in actions) ||
            (b == JUMP_FLAG && s.jumps == 0 && JumpCount(actions) >= 1))) &&
      (forall b: nat {:trigger Bit(t.dep.read, b)} ::
         Bit(t.dep.read, b) ==
           (Bit(s.dep.read, b) || (b < 8 && ReadPre(b) in actions) ||
            (b == JUMP_FLAG && s.jumps <= 1 && s.jumps + JumpCount(actions) >= 2)))
  {
    if actions != [] {
      var init, a := actions[..|actions| - 1], actions[|actions| - 1];
      assert actions == init + [a];
      PerformAllDep(s, init);
      PerformAllJumps(s, init);
      var u := PerformAll(s, init).value;
      SetBit(u.dep.written, if a.WritePre? then a.pred else JUMP_FLAG);
      SetBit(u.dep.read, if a.ReadPre? then a.pred else JUMP_FLAG);
    }
  }

  /** What the generated code of one instruction can see of the translator. */
  datatype ExecEnv = ExecEnv(
    ir: nat,                 // dc->ir: the word, or the sub-instruction of a duplex
    extenderPresent: bool,
    constExt: nat,
    slot: nat,               // dc->i
    written: seq<nat>,       // the `written` masks of the four slots
    destination: seq<int>,   // the packet's destination list, most recent first
    pc: nat,
    npc: nat,
    instructionPc: nat,
    isPreWritten: bool)

  /**
   * What executing one instruction does: the ops its semantics emit (tags of
   * opaque TCG ops), the register-effect macros it runs, and whether its
   * operand code contains the constant-extender fix-up.
   */
  datatype Effect = Effect(ops: seq<nat>, actions: seq<Action>, extendable: bool)

  type Word = w: nat | w < 0x1_0000_0000

  /**
   * The code the translator calls but that is not part of this model: guest
   * memory, the generated decoders and executors, and the bodies of the
   * hardware-loop helpers.
   */
  datatype Backend = Backend(
    fetch: nat -> Word,
    decode: nat -> nat,
    subDecode: nat -> nat,
    execute: (nat, ExecEnv) -> Effect,
    subExecute: (nat, ExecEnv) -> Effect,
    endloop0: seq<nat>,
    endloop1: seq<nat>,
    endloop01: seq<nat>)

  function SemOps(tags: seq<nat>): (r: seq<OpKind>)
    ensures |r| == |tags| && forall k :: 0 <= k < |tags| ==> r[k] == Sem(tags[k])
  {
    seq(|tags|, k requires 0 <= k < |tags| => Sem(tags[k]))
  }

  /**
   * The ops the hardware-loop epilogue emits: the helper for both loops,
   * loop 0 or loop 1, then the runtime PC fallback; nothing without an
   * endloop flag.
   */
  function EndloopOps(be: Backend, e0: bool, e1: bool, instructionPc: nat): (r: seq<OpKind>)
    ensures !e0 && !e1 <==> r == []
  {
    if e0 && e1 then SemOps(be.endloop01) + Fallback(instructionPc)
    else if e0 then SemOps(be.endloop0) + Fallback(instructionPc)
    else if e1 then SemOps(be.endloop1) + Fallback(instructionPc)
    else []
  }
}
