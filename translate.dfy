/**
 * The packet translator of `translate.c`: the `DisasContext` a block is
 * translated with, the packet state machine of `decode_packet`, the
 * dependency resolver and op reordering run at every packet end, the
 * register commit of `handle_packet_end`, and the block loop of
 * `gen_intermediate_code`.
 *
 * The slots' dependency records, the `original`/`ordered` pointer arrays
 * and the `endloop` flags are the fixed-size arrays of the C context; a
 * pointer to `deps[k]` is the index k, and NULL is -1. Two ghost fields
 * record how the op list is laid out: `prefix` holds the ops emitted before
 * the open packet, `ranges[k]` the ops of slot k, from its `PC_trace` op
 * (`deps[k].begin`) to its last op (`deps[k].end`).
 */
module Translate {
  import opened Wrappers
  import opened Bits
  import opened Registers
  import opened OpLog
  import opened Resolver
  import opened Packet

  /** The NULL entry of `original` and `ordered`. */
  const NULL: int := -1

  /** Ways a packet can stop the translation instead of completing. */
  datatype Status =
    | Decoded
    | IllegalDuplexIclass   // the duplex iclass assertion fails
    | ThirdJump             // SET_JUMP_FLAG asserts on a third jump
    | Unresolvable          // solve_dependencies would loop forever
    | SlotOverflow          // a fifth word in one packet: deps[4] is outside the array
    | NoPacketEnd           // the lookahead finds no word that ends a packet and never returns

  /** The address of the next word: guest addresses are 32 bits wide. */
  function NextAddress(a: nat): (r: Word)
    ensures r == (a + 4) % 0x1_0000_0000
  {
    (a + 4) % 0x1_0000_0000
  }

  /** The generated code of one instruction: `execute`, or `sub_execute` for half of a duplex. */
  function Exec(be: Backend, insn: nat, sub: bool, env: ExecEnv): Effect
  {
    if sub then be.subExecute(insn, env) else be.execute(insn, env)
  }

  /** The runs gathered in their own order are the runs. */
  lemma GatherInOrder(rs: seq<seq<Op>>)
    ensures Below(Iota(|rs|), |rs|) && Gather(rs, Iota(|rs|)) == rs
  {
  }

  /** Without ordering needed, the slots' runs stay in program order. */
  lemma KeptOrder(deps: seq<Dep>, rs: seq<seq<Op>>)
    requires |rs| == |deps| && Order(deps).Some? && !OrderingNeeded(deps)
    ensures Below(Order(deps).value, |rs|) && Gather(rs, Order(deps).value) == rs
  {
    OrderingNeededIff(deps);
    IndependentKeepsOrder(deps);
    GatherInOrder(rs);
  }

  /** The ops `handle_packet_end` appends for a write to the PC: the runtime fallback. */
  function PcWriteOps(written: nat, instructionPc: nat): (r: seq<OpKind>)
    ensures r != [] <==> Bit(written, CR_PC + 32)
  {
    if Bit(written, CR_PC + 32) then Fallback(instructionPc) else []
  }

  /** A PC write already in a packet's written mask is still there afterwards. */
  predicate KeepsPcWrite(before: nat, after: nat)
  {
    Bit(before, CR_PC + 32) ==> Bit(after, CR_PC + 32)
  }

  /** What `handle_packet_end` emits after the packet's own ops: commits, resets and the PC fallback. */
  function ClosingOps(written: nat, instructionPc: nat): seq<OpKind>
  {
    Moves(written, Commit) + Moves(written, Reset) + PcWriteOps(written, instructionPc)
  }

  /**
   * The op list `handle_packet_end` leaves: the ops before the packet, the
   * moves priming the `_new` copies of conditionally written registers,
   * the slots' runs in their resolved order, the commits, resets and PC
   * fallback, and the hardware-loop epilogue. The packet end emits its ops
   * numbered from `start`: closing ops first, then the priming moves (which
   * it then moves to the packet's start), then the epilogue.
   */
  function PacketEndOps(prefix: seq<Op>, body: seq<Op>, regs: Regs, instructionPc: nat,
                        epilogue: seq<OpKind>, start: nat): seq<Op>
  {
    prefix +
    Fresh(Moves(regs.conditional, Prime), start + |ClosingOps(regs.written, instructionPc)|) +
    body +
    Fresh(ClosingOps(regs.written, instructionPc), start) +
    Fresh(epilogue, start + |ClosingOps(regs.written, instructionPc)| + |Moves(regs.conditional, Prime)|)
  }

  /**
   * What a packet end produces, read kind by kind: the priming moves come
   * before every op of the packet, and every commit, reset and fallback
   * after all of them.
   */
  lemma PacketEndKinds(prefix: seq<Op>, body: seq<Op>, regs: Regs, instructionPc: nat,
                       epilogue: seq<OpKind>, start: nat)
    ensures Kinds(PacketEndOps(prefix, body, regs, instructionPc, epilogue, start)) ==
      Kinds(prefix) + Moves(regs.conditional, Prime) + Kinds(body) +
      ClosingOps(regs.written, instructionPc) + epilogue
  {
    var prime := Fresh(Moves(regs.conditional, Prime), start + |ClosingOps(regs.written, instructionPc)|);
    var closing := Fresh(ClosingOps(regs.written, instructionPc), start);
    var epi := Fresh(epilogue, start + |ClosingOps(regs.written, instructionPc)| + |Moves(regs.conditional, Prime)|);
    KindsAppend(prefix, prime);
    KindsAppend(prefix + prime, body);
    KindsAppend(prefix + prime + body, closing);
    KindsAppend(prefix + prime + body + closing, epi);
  }

  /** The number of `insn_start` kinds in a list of kinds. */
  function StartCount(kinds: seq<OpKind>): nat
  {
    if kinds == [] then 0
    else StartCount(kinds[..|kinds| - 1]) + (if kinds[|kinds| - 1].InsnStart? then 1 else 0)
  }

  /** The number of `insn_start` ops in an op list. */
  function InsnStarts(s: seq<Op>): nat
  {
    StartCount(Kinds(s))
  }

  lemma {:induction false} StartCountAppend(a: seq<OpKind>, b: seq<OpKind>)
    ensures StartCount(a + b) == StartCount(a) + StartCount(b)
    decreases |b|
  {
    if b == [] {
      assert a + b == a;
    } else {
      assert (a + b)[..|a + b| - 1] == a + b[..|b| - 1];
      StartCountAppend(a, b[..|b| - 1]);
    }
  }

  lemma InsnStartsAppend(a: seq<Op>, b: seq<Op>)
    ensures InsnStarts(a + b) == InsnStarts(a) + InsnStarts(b)
  {
    KindsAppend(a, b);
    StartCountAppend(Kinds(a), Kinds(b));
  }

  /** No kind of the list is `insn_start`. */
  predicate NoStart(kinds: seq<OpKind>)
  {
    forall k :: 0 <= k < |kinds| ==> !kinds[k].InsnStart?
  }

  /** No op of the list is an `insn_start`. */
  predicate NoStartOps(s: seq<Op>)
  {
    forall k :: 0 <= k < |s| ==> !s[k].kind.InsnStart?
  }

  lemma {:induction false} NoStartCount(kinds: seq<OpKind>)
    requires NoStart(kinds)
    ensures StartCount(kinds) == 0
    decreases |kinds|
  {
    if kinds != [] {
      NoStartCount(kinds[..|kinds| - 1]);
    }
  }

  lemma NoStartOpsCount(s: seq<Op>)
    requires NoStartOps(s)
    ensures InsnStarts(s) == 0
  {
    NoStartCount(Kinds(s));
  }

  /** Ops emitted for kinds none of which is `insn_start` count none. */
  lemma FreshNoStart(kinds: seq<OpKind>, start: nat)
    requires NoStart(kinds)
    ensures InsnStarts(Fresh(kinds, start)) == 0
  {
    NoStartCount(kinds);
  }

  /** The moves of a packet end hold no `insn_start`. */
  lemma MovesNoStart(mask: nat, phase: Phase)
    ensures NoStart(Moves(mask, phase))
  {
    var m := Moves(mask, phase);
    forall k | 0 <= k < |m|
      ensures m[k].Move?
    {
      MovesMembers(mask, phase, m[k]);
    }
  }

  /** Nor do its commits, resets and PC fallback. */
  lemma ClosingNoStart(written: nat, instructionPc: nat)
    ensures NoStart(ClosingOps(written, instructionPc))
  {
    MovesNoStart(written, Commit);
    MovesNoStart(written, Reset);
  }

  /** Nor does the hardware-loop epilogue. */
  lemma EndloopNoStart(be: Backend, e0: bool, e1: bool, instructionPc: nat)
    ensures NoStart(EndloopOps(be, e0, e1, instructionPc))
  {
  }

  /**
   * A packet end adds no `insn_start`: the list it leaves counts those
   * before the packet, when the packet's ops and the epilogue hold none.
   */
  lemma PacketEndStarts(prefix: seq<Op>, body: seq<Op>, regs: Regs, instructionPc: nat,
                        epilogue: seq<OpKind>, start: nat)
    requires InsnStarts(body) == 0 && NoStart(epilogue)
    ensures InsnStarts(PacketEndOps(prefix, body, regs, instructionPc, epilogue, start)) == InsnStarts(prefix)
  {
    PacketEndKinds(prefix, body, regs, instructionPc, epilogue, start);
    var m, c := Moves(regs.conditional, Prime), ClosingOps(regs.written, instructionPc);
    MovesNoStart(regs.conditional, Prime);
    ClosingNoStart(regs.written, instructionPc);
    NoStartCount(m);
    NoStartCount(c);
    NoStartCount(epilogue);
    StartCountAppend(Kinds(prefix), m);
    StartCountAppend(Kinds(prefix) + m, Kinds(body));
    StartCountAppend(Kinds(prefix) + m + Kinds(body), c);
    StartCountAppend(Kinds(prefix) + m + Kinds(body) + c, epilogue);
  }

  /** The list a packet end leaves begins with the ops before the packet. */
  lemma PacketEndExtends(prefix: seq<Op>, body: seq<Op>, regs: Regs, instructionPc: nat,
                         epilogue: seq<OpKind>, start: nat)
    ensures prefix <= PacketEndOps(prefix, body, regs, instructionPc, epilogue, start)
  {
  }

  /** A `PC_trace` op added as a new run adds no `insn_start`. */
  lemma TraceNoStarts(rs: seq<seq<Op>>, first: Op)
    requires NoStartOps(Flatten(rs)) && first.kind.PcTrace?
    ensures NoStartOps(Flatten(rs + [[first]]))
  {
    FlattenSnoc(rs, [first]);
  }

  /** An instruction's generated ops added to the last run add no `insn_start`. */
  lemma GrowNoStarts(rs: seq<seq<Op>>, tags: seq<nat>, start: nat)
    requires rs != [] && NoStartOps(Flatten(rs))
    ensures NoStartOps(Flatten(rs[..|rs| - 1] + [rs[|rs| - 1] + Fresh(SemOps(tags), start)]))
  {
    var added := Fresh(SemOps(tags), start);
    FlattenGrowLast(rs, added);
    forall k | 0 <= k < |added|
      ensures added[k].kind.Sem?
    {
      assert Kinds(added)[k] == added[k].kind;
    }
  }

  /** An `insn_start` op counts one more. */
  lemma OneStart(s: seq<Op>, op: Op)
    requires op.kind.InsnStart?
    ensures InsnStarts(s + [op]) == InsnStarts(s) + 1
  {
    InsnStartsAppend(s, [op]);
    assert Kinds([op]) == [op.kind];
    assert StartCount([op.kind]) == 1 by {
      assert [op.kind][..0] == [];
    }
  }

  /** An op lies in consecutive runs iff it lies in one of them. */
  lemma {:induction false} FlattenIn(rs: seq<seq<Op>>, x: Op)
    ensures x in Flatten(rs) <==> exists k :: 0 <= k < |rs| && x in rs[k]
    decreases |rs|
  {
    if rs != [] {
      var init := rs[..|rs| - 1];
      FlattenIn(init, x);
      assert forall k :: 0 <= k < |init| ==> init[k] == rs[k];
    }
  }

  /** The runs gathered in any order hold no `insn_start` when the runs hold none. */
  lemma GatherNoStarts(rs: seq<seq<Op>>, o: seq<nat>)
    requires Below(o, |rs|) && NoStartOps(Flatten(rs))
    ensures NoStartOps(Flatten(Gather(rs, o)))
  {
    var g := Gather(rs, o);
    forall j | 0 <= j < |Flatten(g)|
      ensures !Flatten(g)[j].kind.InsnStart?
    {
      var x := Flatten(g)[j];
      FlattenIn(g, x);
      var k :| 0 <= k < |g| && x in g[k];
      FlattenIn(rs, x);
      assert x in rs[o[k]];
      var m :| 0 <= m < |Flatten(rs)| && Flatten(rs)[m] == x;
    }
  }


  /** The general-register loop grows by its register r's move iff r's bit is set. */
  lemma GprStep(mask: nat, phase: Phase, r: nat, start: nat)
    ensures Fresh(GprMoves(mask, phase, r + 1), start) ==
      Fresh(GprMoves(mask, phase, r), start) +
      (if Bit(mask, r) then [Op(start + |GprMoves(mask, phase, r)|, Move(phase, Gpr, r))] else [])
    ensures |GprMoves(mask, phase, r + 1)| == |GprMoves(mask, phase, r)| + (if Bit(mask, r) then 1 else 0)
    ensures GprMoves(mask, phase, r + 1) == [] <==> GprMoves(mask, phase, r) == [] && !Bit(mask, r)
  {
    FreshSnoc(GprMoves(mask, phase, r), Move(phase, Gpr, r), start);
  }

  /** The same for the control-register loop, after the general registers' moves. */
  lemma CrStep(mask: nat, phase: Phase, r: nat, start: nat)
    ensures Fresh(CrMoves(mask, phase, r + 1), start) ==
      Fresh(CrMoves(mask, phase, r), start) +
      (if CrMoved(mask, r) then [Op(start + |CrMoves(mask, phase, r)|, Move(phase, Cr, r))] else [])
    ensures |CrMoves(mask, phase, r + 1)| == |CrMoves(mask, phase, r)| + (if CrMoved(mask, r) then 1 else 0)
  {
    FreshSnoc(CrMoves(mask, phase, r), Move(phase, Cr, r), start);
  }

  /**
   * One iteration of a register loop of `handle_packet_end`: the move is
   * emitted if its register is used, and the first op emitted is kept.
   */
  method EmitMove(log: Log, used: bool, kind: OpKind, firstMove: bool, first: nat)
    returns (stillFirst: bool, newFirst: nat)
    requires log.Valid()
    modifies log
    ensures log.Valid()
    ensures log.ops == old(log.ops) + (if used then [Op(old(log.nextId), kind)] else [])
    ensures log.nextId == old(log.nextId) + (if used then 1 else 0)
    ensures stillFirst == (firstMove && !used) && newFirst == if firstMove && used then old(log.nextId) else first
  {
    stillFirst, newFirst := firstMove, first;
    if used {
      log.Emit(kind);
      if firstMove {
        newFirst := log.LastOp();
        stillFirst := false;
      }
    }
  }

  /**
   * The general-register loop of `handle_packet_end` for one phase: the
   * move of every register whose bit is set in `mask`, ascending. `first`
   * is the first op emitted, or NULL (0) when none is.
   */
  method EmitGprMoves(log: Log, mask: nat, phase: Phase) returns (first: nat)
    requires log.Valid()
    modifies log
    ensures log.Valid()
    ensures log.ops == old(log.ops) + Fresh(GprMoves(mask, phase, 32), old(log.nextId))
    ensures log.nextId == old(log.nextId) + |GprMoves(mask, phase, 32)|
    ensures first == if GprMoves(mask, phase, 32) == [] then 0 else old(log.nextId)
  {
    ghost var start := log.nextId;
    var firstMove := true;
    first := 0;
    var r := 0;
    while r < 32
      invariant 0 <= r <= 32 && log.Valid()
      invariant log.ops == old(log.ops) + Fresh(GprMoves(mask, phase, r), start)
      invariant log.nextId == start + |GprMoves(mask, phase, r)|
      invariant firstMove == (GprMoves(mask, phase, r) == []) && first == if firstMove then 0 else start
    {
      GprStep(mask, phase, r, start);
      firstMove, first := EmitMove(log, Bit(mask, r), Move(phase, Gpr, r), firstMove, first);
      r := r + 1;
    }
  }

  /**
   * The control-register loop that follows it: the move of every control
   * register but the PC whose bit 32 + r is set. `first` is passed on from
   * the general-register loop and set if that emitted nothing.
   */
  method EmitCrMoves(log: Log, mask: nat, phase: Phase, ghost gpr: seq<OpKind>, ghost start: nat, first0: nat)
    returns (first: nat)
    requires log.Valid() && 0 < start == log.nextId - |gpr|
    requires first0 == if gpr == [] then 0 else start
    modifies log
    ensures log.Valid()
    ensures log.ops == old(log.ops) + Fresh(CrMoves(mask, phase, 32), old(log.nextId))
    ensures log.nextId == old(log.nextId) + |CrMoves(mask, phase, 32)|
    ensures first == if gpr == [] && CrMoves(mask, phase, 32) == [] then 0 else start
  {
    var firstMove := first0 == 0;
    first := first0;
    var r := 0;
    while r < 32
      invariant 0 <= r <= 32 && log.Valid()
      invariant log.ops == old(log.ops) + Fresh(CrMoves(mask, phase, r), old(log.nextId))
      invariant log.nextId == old(log.nextId) + |CrMoves(mask, phase, r)|
      invariant firstMove == (gpr == [] && CrMoves(mask, phase, r) == []) && first == if firstMove then 0 else start
    {
      CrStep(mask, phase, r, old(log.nextId));
      firstMove, first := EmitMove(log, r != CR_PC && Bit(mask, r + 32), Move(phase, Cr, r), firstMove, first);
      r := r + 1;
    }
  }

  /**
   * The register loops of `handle_packet_end` for one phase: general
   * registers, then control registers. `first` is the first op emitted, or
   * NULL (0) when none is.
   */
  method EmitMoves(log: Log, mask: nat, phase: Phase) returns (first: nat)
    requires log.Valid()
    modifies log
    ensures log.Valid()
    ensures log.ops == old(log.ops) + Fresh(Moves(mask, phase), old(log.nextId))
    ensures log.nextId == old(log.nextId) + |Moves(mask, phase)|
    ensures first == if Moves(mask, phase) == [] then 0 else old(log.nextId)
  {
    ghost var start, before := log.nextId, log.ops;
    ghost var gpr, cr := GprMoves(mask, phase, 32), CrMoves(mask, phase, 32);
    first := EmitGprMoves(log, mask, phase);
    first := EmitCrMoves(log, mask, phase, gpr, start, first);
    FreshAppend(gpr, cr, start);
    Regroup(before, Fresh(gpr, start), Fresh(cr, start + |gpr|));
    assert |Moves(mask, phase)| == |gpr| + |cr|;
  }

  /** The commit and reset loops of `handle_packet_end`, over the written mask. */
  method EmitCommits(log: Log, written: nat)
    requires log.Valid()
    modifies log
    ensures log.Valid()
    ensures log.ops == old(log.ops) + Fresh(Moves(written, Commit) + Moves(written, Reset), old(log.nextId))
    ensures log.nextId == old(log.nextId) + |Moves(written, Commit)| + |Moves(written, Reset)|
  {
    ghost var start := log.nextId;
    var commitFirst := EmitMoves(log, written, Commit);
    var resetFirst := EmitMoves(log, written, Reset);
    FreshAppend(Moves(written, Commit), Moves(written, Reset), start);
  }

  /**
   * The priming loop and move of `handle_packet_end`, on the op list
   * `prefix + rest` where `anchor` is the last op of `prefix`: the moves
   * are emitted at the end and their run is then moved right after
   * `anchor`.
   */
  method EmitPrimes(log: Log, mask: nat, ghost prefix: seq<Op>, ghost rest: seq<Op>, anchor: nat)
    requires log.Valid() && prefix != [] && Last(prefix).id == anchor && log.ops == prefix + rest
    modifies log
    ensures log.Valid()
    ensures log.ops == prefix + Fresh(Moves(mask, Prime), old(log.nextId)) + rest
    ensures log.nextId == old(log.nextId) + |Moves(mask, Prime)|
  {
    ghost var run := Fresh(Moves(mask, Prime), log.nextId);
    var beginOp := EmitMoves(log, mask, Prime);
    var endOp := log.LastOp();
    if beginOp != 0 {
      MoveBack(log, prefix, rest, run, beginOp, endOp, anchor);
    }
  }

  /** `run`, emitted last from `begin` to `end`, is moved right after `anchor`, the last op of `prefix`. */
  method MoveBack(log: Log, ghost prefix: seq<Op>, ghost rest: seq<Op>, ghost run: seq<Op>, begin: nat, end: nat, anchor: nat)
    requires log.Valid() && prefix != [] && run != [] && log.ops == prefix + rest + run
    requires begin == run[0].id && end == Last(log.ops).id && anchor == Last(prefix).id
    modifies log
    ensures log.Valid() && log.nextId == old(log.nextId)
    ensures log.ops == prefix + run + rest
  {
    LastAppend(prefix + rest, run);
    MoveBackShape(prefix, rest, run, log.ops, begin, end, anchor);
    log.MoveRangeAfter(begin, end, anchor);
  }

  // ---------------------------------------------------------------------
  // The lookahead of gen_intermediate_code
  // ---------------------------------------------------------------------

  /** The number of 4-byte words in the 32-bit address space. */
  const ADDRESS_WORDS: nat := 0x4000_0000

  /** The address n words after a, wrapping at 32 bits. */
  function Addr(a: nat, n: nat): Word
  {
    if n == 0 then a % 0x1_0000_0000 else NextAddress(Addr(a, n - 1))
  }

  /** One step of 4 bytes past a 32-bit address, as arithmetic modulo 2^32. */
  lemma ModStep(x: nat)
    ensures (x % 0x1_0000_0000 + 4) % 0x1_0000_0000 == (x + 4) % 0x1_0000_0000
  {
    var m := 0x1_0000_0000;
    assert x % m + 4 == (x + 4) - m * (x / m);
  }

  /** Stepping n words is adding 4n modulo 2^32. */
  lemma {:induction false} AddrClosed(a: nat, n: nat)
    ensures Addr(a, n) == (a + 4 * n) % 0x1_0000_0000
  {
    if n > 0 {
      AddrClosed(a, n - 1);
      ModStep(a + 4 * (n - 1));
    }
  }

  /** The word n words after a. */
  function WordAt(be: Backend, a: nat, n: nat): Word
  {
    be.fetch(Addr(a, n))
  }

  /**
   * The index of the first word, among words j to n - 1 counted from `a`,
   * whose parse bits end a packet.
   */
  function FirstEnd(be: Backend, a: nat, j: nat, n: nat): Option<nat>
    decreases n - j
  {
    if j >= n then None
    else if EndsPacket(WordAt(be, a, j)) then Some(j)
    else FirstEnd(be, a, j + 1, n)
  }

  /** `FirstEnd` finds k exactly when word k ends a packet and no word from j before it does. */
  lemma {:induction false} FirstEndIff(be: Backend, a: nat, j: nat, n: nat, k: nat)
    ensures FirstEnd(be, a, j, n) == Some(k) <==>
      j <= k < n && EndsPacket(WordAt(be, a, k)) &&
      forall m :: j <= m < k ==> !EndsPacket(WordAt(be, a, m))
    decreases n - j
  {
    if j < n && !EndsPacket(WordAt(be, a, j)) {
      FirstEndIff(be, a, j + 1, n, k);
    }
  }

  /** No word from j on ends a packet exactly when `FirstEnd` finds none. */
  lemma {:induction false} FirstEndNone(be: Backend, a: nat, j: nat, n: nat)
    ensures FirstEnd(be, a, j, n) == None <==>
      forall m :: j <= m < n ==> !EndsPacket(WordAt(be, a, m))
    decreases n - j
  {
    if j < n {
      FirstEndNone(be, a, j + 1, n);
    }
  }

  /**
   * `npc` when the first word ending the packet is word k: the address
   * right after it, unless that is the packet's own address again (only
   * after wrapping around the whole address space), where the C code
   * steps one more word.
   */
  function PastEnd(start: Word, k: nat): Word
  {
    if Addr(start, k + 1) == start then Addr(start, 1) else Addr(start, k + 1)
  }

  /** Short of a full wrap, `npc` is simply the address after the ending word. */
  lemma PastEndNoWrap(start: Word, k: nat)
    requires k + 1 < ADDRESS_WORDS
    ensures PastEnd(start, k) == Addr(start, k + 1)
  {
    AddrClosed(start, k + 1);
    var m := 0x1_0000_0000;
    var d := 4 * (k + 1);
    assert 0 < d < m;
    if start + d >= m {
      assert Addr(start, k + 1) == start + d - m;
    }
  }

  /** The alignment test on the block's first address. */
  lemma AndThree(x: nat)
    ensures And(x, 3) == x % 4
  {
    assert And(x, 3) == 2 * And(x / 2, 1) + B2N(x % 2 == 1);
    assert And(x / 2, 1) == 2 * And(x / 4, 0) + B2N((x / 2) % 2 == 1);
  }

  /**
   * The lookahead loop: from `start`, words are read until one ends a
   * packet, k words on; the loop reads the first word twice and leaves the
   * address after the ending word.
   */
  method ScanPacket(be: Backend, start: Word, ghost k: nat) returns (npc: Word)
    requires FirstEnd(be, start, 0, ADDRESS_WORDS) == Some(k)
    ensures npc == PastEnd(start, k)
  {
    var pcIter: Word := start;
    var insn := be.fetch(pcIter);
    var parse := ParseBits(insn);
    ghost var n: nat := 0;
    while parse != 3 && parse != 0
      invariant n <= k + 1 && pcIter == Addr(start, n)
      invariant parse == ParseBits(WordAt(be, start, if n == 0 then 0 else n - 1))
      decreases k + 1 - n
    {
      BeforeFirstEnd(be, start, k, if n == 0 then 0 else n - 1);
      insn := be.fetch(pcIter);
      parse := ParseBits(insn);
      pcIter := NextAddress(pcIter);
      n := n + 1;
    }
    AtFirstEnd(be, start, k, if n == 0 then 0 else n - 1);
    if pcIter == start {
      pcIter := NextAddress(pcIter);
    }
    npc := pcIter;
  }

  /** A word up to the first ending one that does not end a packet comes before it. */
  lemma BeforeFirstEnd(be: Backend, start: Word, k: nat, m: nat)
    requires FirstEnd(be, start, 0, ADDRESS_WORDS) == Some(k) && m <= k
    requires !EndsPacket(WordAt(be, start, m))
    ensures m < k
  {
    FirstEndIff(be, start, 0, ADDRESS_WORDS, k);
  }

  /** A word up to the first ending one that ends a packet is that one. */
  lemma AtFirstEnd(be: Backend, start: Word, k: nat, m: nat)
    requires FirstEnd(be, start, 0, ADDRESS_WORDS) == Some(k) && m <= k
    requires EndsPacket(WordAt(be, start, m))
    ensures m == k
  {
    FirstEndIff(be, start, 0, ADDRESS_WORDS, k);
  }

  class DisasContext {
    const be: Backend
    const log: Log
    const deps: array<Dep>
    const original: array<int>
    const ordered: array<int>
    const endloop: array<bool>

    var pc: nat
    var oldPc: nat
    var instructionPc: nat
    var npc: nat
    var i: int
    var ir: nat
    var newPacket: bool
    var blockEnd: bool
    var extenderPresent: bool
    var constExt: nat
    var pcWritten: bool
    var duplex: bool
    var isPreWritten: bool
    var packetFirstOp: nat
    var jumpCount: nat
    var regs: Regs

    ghost var prefix: seq<Op>
    ghost var ranges: seq<seq<Op>>

    /** The arrays have their C sizes and are distinct objects. */
    ghost predicate Arrays()
    {
      deps.Length == 4 && original.Length == 4 && ordered.Length == 4 && endloop.Length == 2 &&
      original != ordered
    }

    /** The op list is the ops before the packet followed by the slots' runs, one per slot so far. */
    ghost predicate Layout()
      reads this`i, this`ranges, this`prefix, this`packetFirstOp, log
    {
      log.Valid() && -1 <= i <= 3 && |ranges| == i + 1 &&
      log.ops == prefix + Flatten(ranges) && prefix != [] &&
      (i >= 0 ==> Last(prefix).id == packetFirstOp)
    }

    /**
     * Every slot so far starts at its own `PC_trace` op, every slot before
     * the current one ends where its record says, later records are empty,
     * and no pointer is left in `original` or `ordered`.
     */
    ghost predicate Slots()
      reads this`i, this`ranges, deps, original, ordered
      requires Arrays() && |ranges| == i + 1 && i <= 3
    {
      (forall k :: 0 <= k <= i ==> ranges[k] != [] && ranges[k][0].id == deps[k].begin) &&
      (forall k :: 0 <= k < i ==> Last(ranges[k]).id == deps[k].end) &&
      (forall k :: i < k < 4 ==> deps[k] == NoDep) &&
      (forall k :: 0 <= k < 4 ==> original[k] == NULL && ordered[k] == NULL)
    }

    /** What holds of the packet-wide state between words. */
    ghost predicate PacketState()
      reads this`isPreWritten, this`regs, this`jumpCount, this`i, this`extenderPresent, endloop
      requires Arrays()
    {
      Tracked() && (i == -1 ==> regs == NoRegs && !endloop[0] && !endloop[1] && !extenderPresent)
    }

    /** The cached "predicates written" flag follows the written mask, and at most two jumps are counted. */
    ghost predicate Tracked()
      reads this`isPreWritten, this`regs, this`jumpCount
    {
      isPreWritten == Bit(regs.written, CR_P + 32) && jumpCount <= 2
    }

    /** Everything but the end of the current slot and the per-word flags. */
    ghost predicate Shape()
      reads this`i, this`ranges, this`prefix, this`packetFirstOp, this`isPreWritten, this`regs
      reads this`jumpCount, this`extenderPresent, log, deps, original, ordered, endloop
    {
      Arrays() && Layout() && Slots() && PacketState() && NoStartsInSlots()
    }

    /** No slot's run holds an `insn_start` op: those all lie before the packet. */
    ghost predicate NoStartsInSlots()
      reads this`ranges
    {
      NoStartOps(Flatten(ranges))
    }

    /** The `insn_start` ops emitted so far are those before the packet. */
    lemma StartsBeforePacket()
      requires Shape()
      ensures InsnStarts(log.ops) == InsnStarts(prefix)
    {
      NoStartOpsCount(Flatten(ranges));
      InsnStartsAppend(prefix, Flatten(ranges));
    }

    /** No packet is open: every op emitted so far lies before the next packet. */
    ghost predicate Idle()
      reads this`i, this`ranges, this`prefix, this`packetFirstOp, this`isPreWritten, this`regs
      reads this`jumpCount, this`extenderPresent, log, deps, original, ordered, endloop
    {
      Shape() && i == -1 && prefix == log.ops
    }

    /** The current slot ends with the last op emitted. */
    ghost predicate Closed()
      reads this`i, this`ranges, this`prefix, this`packetFirstOp, log, deps
      requires Arrays() && Layout()
    {
      i >= 0 ==> ranges[i] != [] && Last(ranges[i]).id == deps[i].end
    }

    /** Every slot of the packet is a nonempty run from its record's `begin` to its `end`. */
    ghost predicate Runs()
      reads this`i, this`ranges, deps
      requires Arrays() && |ranges| == i + 1 && i <= 3
    {
      forall k :: 0 <= k <= i ==>
        ranges[k] != [] && ranges[k][0].id == deps[k].begin && Last(ranges[k]).id == deps[k].end
    }

    /** A closed slot completes the slots before it into runs. */
    lemma RunsOfShape()
      requires Shape() && Closed() && 0 <= i
      ensures Runs()
    {
      forall k | 0 <= k <= i
        ensures ranges[k] != [] && ranges[k][0].id == deps[k].begin && Last(ranges[k]).id == deps[k].end
      {
        if k == i {
          assert Closed();
        }
      }
    }

    /** The context between two words of the block. */
    ghost predicate Valid()
      reads this`i, this`ranges, this`prefix, this`packetFirstOp, this`isPreWritten, this`regs
      reads this`jumpCount, this`extenderPresent, this`newPacket, this`pcWritten, this`duplex
      reads log, deps, original, ordered, endloop
    {
      Shape() && Closed() && (newPacket <==> i == -1) && !pcWritten && !duplex
    }

    /**
     * The zeroed context `gen_intermediate_code` starts from, at the block's
     * first address, waiting for a new packet.
     */
    constructor (be: Backend, pcStart: Word)
      ensures this.be == be && fresh(log) && fresh(deps) && fresh(original) && fresh(ordered) && fresh(endloop)
      ensures Arrays() && log.Valid() && log.ops == []
      ensures pc == pcStart && oldPc == pcStart && instructionPc == pcStart && npc == 0
      ensures i == -1 && newPacket && !blockEnd && !extenderPresent && constExt == 0
      ensures !pcWritten && !duplex && !isPreWritten && packetFirstOp == 0 && jumpCount == 0 && regs == NoRegs
      ensures forall k :: 0 <= k < 4 ==> deps[k] == NoDep && original[k] == NULL && ordered[k] == NULL
      ensures !endloop[0] && !endloop[1]
    {
      this.be := be;
      log := new Log();
      deps := new Dep[4](_ => NoDep);
      original := new int[4](_ => NULL);
      ordered := new int[4](_ => NULL);
      endloop := new bool[2](_ => false);
      pc, oldPc, instructionPc, npc := pcStart, pcStart, pcStart, 0;
      i := -1;
      ir := 0;
      newPacket, blockEnd, extenderPresent, pcWritten, duplex, isPreWritten := true, false, false, false, false, false;
      constExt, packetFirstOp, jumpCount := 0, 0, 0;
      regs := NoRegs;
      prefix, ranges := [], [];
    }

    /** `gen_tb_start`: the block's first op, after which the context is valid. */
    method GenTbStart()
      requires Arrays() && log.Valid() && log.ops == [] && i == -1 && newPacket && !blockEnd
      requires !pcWritten && !duplex && !isPreWritten && !extenderPresent && jumpCount == 0 && regs == NoRegs
      requires forall k :: 0 <= k < 4 ==> deps[k] == NoDep && original[k] == NULL && ordered[k] == NULL
      requires !endloop[0] && !endloop[1]
      modifies this, log
      ensures Valid() && log.ops == [Op(old(log.nextId), TbStart)] && unchanged(this`pc, this`instructionPc)
      ensures i == -1 && !blockEnd && jumpCount == 0 && InsnStarts(log.ops) == 0
    {
      log.Emit(TbStart);
      NoStartOpsCount(log.ops);
      prefix, ranges := log.ops, [];
      ZeroBit(CR_P + 32);
      assert Layout() && Slots() && PacketState();
    }

    /** The pointers `original` holds for the slots still unplaced. */
    static ghost function Pointers(un: seq<bool>): (r: seq<int>)
      ensures |r| == |un| && forall k :: 0 <= k < |un| ==> r[k] == if un[k] then k else NULL
    {
      seq(|un|, k requires 0 <= k < |un| => if un[k] then k else NULL)
    }

    /** The records of the packet's slots. */
    ghost function Packet(): seq<Dep>
      reads this`i, deps
      requires Arrays() && -1 <= i <= 3
    {
      deps[..i + 1]
    }

    /**
     * `compute_collapse(dc, placed)`: the OR of `written` over the first
     * `placed` entries of `ordered`, which hold the slots of `order`.
     */
    method ComputeCollapse(placed: nat, ghost order: seq<nat>) returns (w: nat)
      requires Arrays() && 0 <= i <= 3 && placed <= 4 && |order| == placed
      requires Below(order, i + 1) && forall j :: 0 <= j < placed ==> ordered[j] == order[j]
      ensures w == Collapse(Packet(), order)
    {
      w := 0;
      var k := 0;
      while k < placed
        invariant 0 <= k <= placed
        invariant w == Collapse(Packet(), order[..k])
      {
        w := Or(w, deps[ordered[k]].written);
        assert order[..k + 1][..k] == order[..k];
        k := k + 1;
      }
      assert order[..placed] == order;
    }

    /**
     * One iteration of `add_solved_deps`: slot k, if still in `original` and
     * ready against `w`, is appended to `ordered` at `placed` and nulled in
     * `original`.
     */
    method PlaceIfReady(k: nat, w: nat, placed: nat, ghost unplaced: bool) returns (newPlaced: nat)
      requires Arrays() && k < 4 && original[k] == if unplaced then k else NULL
      requires unplaced && Ready(deps[k], w) ==> placed < 4
      modifies original, ordered
      ensures var moved := unplaced && Ready(deps[k], w);
        newPlaced == (if moved then placed + 1 else placed) &&
        original[k] == (if unplaced && !moved then k else NULL) &&
        (moved ==> ordered[placed] == k) &&
        (forall j :: 0 <= j < 4 && j != k ==> original[j] == old(original[j])) &&
        (forall j :: 0 <= j < 4 && j != placed ==> ordered[j] == old(ordered[j]))
    {
      newPlaced := placed;
      if original[k] != NULL {
        var needed := And(deps[original[k]].read, Not(deps[original[k]].written, 8));
        if And(needed, w) == needed {
          ordered[newPlaced] := original[k];
          newPlaced := newPlaced + 1;
          original[k] := NULL;
        }
      }
    }

    /**
     * `add_solved_deps`: one pass over the slots in program order that moves
     * every slot still in `original` whose needed bits are all in `w` to the
     * end of `ordered`. The flags `un` mark the slots still in `original`.
     * The pass returns `dc->i` whatever it placed.
     */
    method AddSolvedDeps(placed: nat, w: nat, ghost D: seq<Dep>, ghost un: seq<bool>, ghost order: seq<nat>)
      returns (newPlaced: nat, last: int)
      requires Arrays() && 0 <= i <= 3 && D == deps[..i + 1]
      requires |un| == i + 1 && |order| == placed && placed + Count(un) == i + 1
      requires forall j :: 0 <= j < placed ==> ordered[j] == order[j]
      requires forall k :: 0 <= k <= i ==> original[k] == if un[k] then k else NULL
      modifies original, ordered
      ensures newPlaced == placed + |Picked(D, un, w, i + 1)| <= i + 1
      ensures forall j :: 0 <= j < newPlaced ==> ordered[j] == (order + Picked(D, un, w, i + 1))[j]
      ensures forall k :: 0 <= k <= i ==> original[k] == if Placed(D, un, w)[k] then k else NULL
      ensures last == i
    {
      ghost var picked: seq<nat> := [];
      ghost var still := Placed(D, un, w);
      newPlaced := placed;
      var k := 0;
      while k <= i
        invariant 0 <= k <= i + 1 && picked == Picked(D, un, w, k)
        invariant newPlaced == placed + |picked| <= i + 1
        invariant forall j :: 0 <= j < newPlaced ==> ordered[j] == (order + picked)[j]
        invariant forall j :: 0 <= j < k ==> original[j] == if still[j] then j else NULL
        invariant forall j :: k <= j <= i ==> original[j] == if un[j] then j else NULL
      {
        PickedCount(D, un, w, k + 1);
        assert D[k] == deps[k];
        newPlaced := PlaceIfReady(k, w, newPlaced, un[k]);
        picked := picked + (if un[k] && Ready(D[k], w) then [k] else []);
        k := k + 1;
      }
      last := k - 1;
    }

    /** The slots' runs and an order `o` of them, which `ordered` holds. */
    ghost predicate Reorderable(o: seq<nat>)
      reads this`i, this`ranges, this`prefix, deps, ordered
    {
      Arrays() && 0 <= i <= 3 && |ranges| == i + 1 && prefix != [] && Runs() &&
      |o| == i + 1 && Unique(o) && Below(o, i + 1) && forall j :: 0 <= j <= i ==> ordered[j] == o[j]
    }

    /**
     * `reorder_ops` after k steps: the runs `o[..k]` follow the ops before
     * the packet, in that order, and `pos` is the last op placed.
     */
    ghost predicate ArrangedTo(o: seq<nat>, k: nat, pos: nat)
      reads this`i, this`ranges, this`prefix, deps, ordered, log
    {
      Reorderable(o) && k <= i + 1 && log.Valid() &&
      log.ops == Arranged(prefix, ranges, o, k) && pos == Last(Front(prefix, ranges, o, k)).id
    }

    /** One step of `reorder_ops`: the run of slot `ordered[k]` goes right after `pos`. */
    method MoveRun(ghost o: seq<nat>, k: nat, pos: nat) returns (newPos: nat)
      requires ArrangedTo(o, k, pos) && k <= i
      modifies log
      ensures ArrangedTo(o, k + 1, newPos) && log.nextId == old(log.nextId)
    {
      var x := ordered[k];
      NotBefore(o, k);
      MoveNextRun(prefix, ranges, o, k, log.ops, deps[x].begin, deps[x].end, pos);
      log.MoveRangeAfter(deps[x].begin, deps[x].end, pos);
      newPos := deps[x].end;
    }

    /**
     * `reorder_ops`: walking `ordered`, each slot's run is moved right after
     * the last op placed so far, starting from `packet_first_op`; the slots'
     * runs end up after the ops before the packet in the order `o`.
     */
    method ReorderOps(ghost o: seq<nat>)
      requires Reorderable(o) && forall j :: 0 <= j <= i ==> j in o
      requires log.Valid() && log.ops == prefix + Flatten(ranges) && Last(prefix).id == packetFirstOp
      modifies log
      ensures log.Valid() && log.nextId == old(log.nextId)
      ensures log.ops == prefix + Flatten(Gather(ranges, o))
    {
      var pos := packetFirstOp;
      var k := 0;
      ArrangedNone(prefix, ranges, o);
      while k <= i
        invariant ArrangedTo(o, k, pos) && log.nextId == old(log.nextId)
        decreases i + 1 - k
      {
        pos := MoveRun(o, k, pos);
        k := k + 1;
      }
      ArrangedAll(prefix, ranges, o);
    }

    /**
     * One iteration of the `solve_dependencies` loop: the collapse of the
     * slots placed so far, a pass of `add_solved_deps` against it, and the
     * flag raised when the pass does not end on the last slot placed. A
     * pass that places nothing means the packet has no order.
     */
    method RunPass(placed: nat, needed: bool, ghost D: seq<Dep>, ghost un: seq<bool>, ghost o: seq<nat>)
      returns (newPlaced: nat, newNeeded: bool, ghost newUn: seq<bool>, ghost newO: seq<nat>)
      requires Arrays() && 0 <= i <= 3 && D == deps[..i + 1]
      requires Progress(D, un, o, needed) && placed == |o| <= i
      requires forall j :: 0 <= j < placed ==> ordered[j] == o[j]
      requires forall k :: 0 <= k <= i ==> original[k] == if un[k] then k else NULL
      modifies original, ordered
      ensures newPlaced == placed ==> Order(D) == None
      ensures newPlaced != placed ==> Progress(D, newUn, newO, newNeeded) && placed < newPlaced
      ensures newPlaced == |newO| && |newUn| == i + 1
      ensures forall j :: 0 <= j < newPlaced ==> ordered[j] == newO[j]
      ensures forall k :: 0 <= k <= i ==> original[k] == if newUn[k] then k else NULL
    {
      var w := ComputeCollapse(placed, o);
      var last;
      newPlaced, last := AddSolvedDeps(placed, w, D, un, o);
      ghost var p := Picked(D, un, w, i + 1);
      PassStep(D, un, o, needed, w, p);
      newNeeded := needed || last != newPlaced - 1;
      newUn, newO := Placed(D, un, w), o + p;
    }

    /** Before the first pass every slot of the packet is unplaced. */
    method InitOriginal()
      requires Arrays() && 0 <= i <= 3
      modifies original
      ensures forall j :: 0 <= j <= i ==> original[j] == j
    {
      var k := 0;
      while k <= i
        invariant 0 <= k <= i + 1
        invariant forall j :: 0 <= j < k ==> original[j] == j
      {
        original[k] := k;
        k := k + 1;
      }
    }

    /**
     * The loop of `solve_dependencies`: `original` starts with every slot,
     * and passes run until all are placed. `solved` is false when a pass
     * places nothing, where the C loop never ends. `orderingNeeded` is
     * raised when a pass ends with a slot unplaced.
     */
    method ResolveOrder() returns (solved: bool, orderingNeeded: bool, ghost o: seq<nat>)
      requires Arrays() && 0 <= i <= 3
      modifies original, ordered
      ensures solved <==> Order(Packet()).Some?
      ensures solved ==> Order(Packet()) == Some(o) && |o| == i + 1
      ensures solved ==> forall j :: 0 <= j <= i ==> ordered[j] == o[j]
      ensures solved ==> orderingNeeded == OrderingNeeded(Packet())
    {
      InitOriginal();
      ghost var D := Packet();
      ghost var un := AllUnplaced(i + 1);
      o := [];
      ProgressStart(D);
      var placed := 0;
      orderingNeeded := false;
      while placed <= i
        invariant Progress(D, un, o, orderingNeeded) && placed == |o|
        invariant forall j :: 0 <= j < placed ==> ordered[j] == o[j]
        invariant forall j :: 0 <= j <= i ==> original[j] == if un[j] then j else NULL
        decreases i + 1 - placed
      {
        var newPlaced, needed, newUn, newO := RunPass(placed, orderingNeeded, D, un, o);
        if newPlaced == placed {
          return false, orderingNeeded, o;
        }
        orderingNeeded, un, o, placed := needed, newUn, newO, newPlaced;
      }
      ProgressDone(D, un, o, orderingNeeded);
      return true, orderingNeeded, o;
    }

    /**
     * `solve_dependencies`: the slots' runs end up in the resolver's order,
     * moved only when ordering is needed. Unsolved, the op list is left
     * as it was.
     */
    method SolveDependencies() returns (solved: bool, orderingNeeded: bool)
      requires Arrays() && 0 <= i <= 3 && Layout() && Runs()
      modifies original, ordered, log
      ensures log.Valid() && log.nextId == old(log.nextId)
      ensures solved <==> Order(Packet()).Some?
      ensures !solved ==> log.ops == old(log.ops)
      ensures solved ==>
        Below(Order(Packet()).value, i + 1) && log.ops == prefix + Flatten(Gather(ranges, Order(Packet()).value))
      ensures solved ==> orderingNeeded == OrderingNeeded(Packet())
    {
      ghost var o;
      solved, orderingNeeded, o := ResolveOrder();
      if solved {
        OrderSound(Packet());
        if orderingNeeded {
          ReorderOps(o);
        } else {
          KeptOrder(Packet(), ranges);
        }
      }
    }

    /**
     * The commit part of `handle_packet_end`: every register the packet
     * wrote is copied from its `_new` copy, every `_new` copy is then
     * cleared, and a write to the PC gets the runtime fallback and marks the
     * PC written.
     */
    method CommitPacket()
      requires log.Valid()
      modifies this`pcWritten, log
      ensures log.Valid()
      ensures log.ops == old(log.ops) + Fresh(ClosingOps(regs.written, instructionPc), old(log.nextId))
      ensures log.nextId == old(log.nextId) + |ClosingOps(regs.written, instructionPc)|
      ensures pcWritten == (old(pcWritten) || Bit(regs.written, CR_PC + 32))
    {
      var written := regs.written;
      ghost var start := log.nextId;
      EmitCommits(log, written);
      WritePc(written);
      FreshAppend(Moves(written, Commit) + Moves(written, Reset), PcWriteOps(written, instructionPc), start);
    }

    /** A written PC bit marks the PC written and emits the runtime fallback. */
    method WritePc(written: nat)
      requires log.Valid()
      modifies this`pcWritten, log
      ensures log.Valid()
      ensures log.ops == old(log.ops) + Fresh(PcWriteOps(written, instructionPc), old(log.nextId))
      ensures log.nextId == old(log.nextId) + |PcWriteOps(written, instructionPc)|
      ensures pcWritten == (old(pcWritten) || Bit(written, CR_PC + 32))
    {
      if Bit(written, CR_PC + 32) {
        pcWritten := true;
        log.EmitAll(Fallback(instructionPc));
      }
    }

    /**
     * The priming part of `handle_packet_end`: the `_new` copy of every
     * conditionally written register is loaded from the register, and the
     * run of those moves goes right after `packet_first_op`, ahead of the
     * packet's own ops.
     */
    method PrimeConditionals(ghost rest: seq<Op>)
      requires log.Valid() && prefix != [] && Last(prefix).id == packetFirstOp
      requires log.ops == prefix + rest
      modifies log
      ensures log.Valid()
      ensures log.ops == prefix + Fresh(Moves(regs.conditional, Prime), old(log.nextId)) + rest
      ensures log.nextId == old(log.nextId) + |Moves(regs.conditional, Prime)|
    {
      EmitPrimes(log, regs.conditional, prefix, rest, packetFirstOp);
    }

    /**
     * The resets of `handle_packet_end`: the packet's registers and
     * destination list, its slot records and both pointer arrays are
     * zeroed, and no slot is open.
     */
    method ResetPacket()
      requires Arrays()
      modifies this`regs, this`isPreWritten, this`i, deps, original, ordered
      ensures regs == NoRegs && !isPreWritten && i == -1
      ensures forall k :: 0 <= k < 4 ==> deps[k] == NoDep && original[k] == NULL && ordered[k] == NULL
    {
      regs := NoRegs;
      forall k | 0 <= k < 4 {
        deps[k] := NoDep;
      }
      forall k | 0 <= k < 4 {
        original[k] := NULL;
      }
      forall k | 0 <= k < 4 {
        ordered[k] := NULL;
      }
      isPreWritten := false;
      i := -1;
    }

    /**
     * The hardware-loop part of `handle_packet_end`: with an endloop flag
     * raised, the helper of the loops that end and the runtime PC fallback
     * are emitted and the PC counts as written; both flags are then cleared.
     */
    method EndLoops()
      requires Arrays() && log.Valid()
      modifies this`pcWritten, log, endloop
      ensures log.Valid()
      ensures log.ops == old(log.ops) + Fresh(EndloopOps(be, old(endloop[0]), old(endloop[1]), instructionPc), old(log.nextId))
      ensures log.nextId == old(log.nextId) + |EndloopOps(be, old(endloop[0]), old(endloop[1]), instructionPc)|
      ensures pcWritten == (old(pcWritten) || old(endloop[0]) || old(endloop[1]))
      ensures !endloop[0] && !endloop[1]
      ensures InsnStarts(log.ops) == old(InsnStarts(log.ops))
    {
      var e0, e1 := endloop[0], endloop[1];
      EndloopNoStart(be, e0, e1, instructionPc);
      FreshNoStart(EndloopOps(be, e0, e1, instructionPc), log.nextId);
      InsnStartsAppend(log.ops, Fresh(EndloopOps(be, e0, e1, instructionPc), log.nextId));
      if e0 || e1 {
        var tags := if e0 && e1 then be.endloop01 else if e0 then be.endloop0 else be.endloop1;
        pcWritten := true;
        log.EmitAll(SemOps(tags) + Fallback(instructionPc));
      }
      endloop[0] := false;
      endloop[1] := false;
    }

    /**
     * The first half of `handle_packet_end`: the slots' runs are put in the
     * resolved order, the registers committed, and conditionally written
     * registers primed at the packet's start.
     */
    method ClosePacket() returns (solved: bool, ghost o: seq<nat>)
      requires Arrays() && Layout() && Runs() && NoStartsInSlots() && 0 <= i
      modifies this`pcWritten, log, original, ordered
      ensures log.Valid() && (!solved || log.ops != [])
      ensures solved <==> old(Order(Packet())).Some?
      ensures !solved || (old(Order(Packet())) == Some(o) && Below(o, |ranges|))
      ensures solved ==> pcWritten == (old(pcWritten) || Bit(regs.written, CR_PC + 32))
      ensures solved ==>
        log.ops == PacketEndOps(prefix, Flatten(Gather(ranges, o)), regs, instructionPc, [], old(log.nextId))
      ensures solved ==>
        log.nextId == old(log.nextId) + |ClosingOps(regs.written, instructionPc)| + |Moves(regs.conditional, Prime)|
      ensures solved ==> InsnStarts(log.ops) == InsnStarts(prefix)
    {
      var orderingNeeded;
      ghost var start := log.nextId;
      solved, orderingNeeded := SolveDependencies();
      if !solved {
        return solved, [];
      }
      o := Order(Packet()).value;
      EmitPacketEnd(Flatten(Gather(ranges, o)));
      GatherNoStarts(ranges, o);
      NoStartOpsCount(Flatten(Gather(ranges, o)));
      PacketEndStarts(prefix, Flatten(Gather(ranges, o)), regs, instructionPc, [], start);
    }

    /** Commits and primes around the already ordered slot runs `body`. */
    method EmitPacketEnd(ghost body: seq<Op>)
      requires log.Valid() && prefix != [] && Last(prefix).id == packetFirstOp
      requires log.ops == prefix + body
      modifies this`pcWritten, log
      ensures log.Valid() && log.ops != []
      ensures pcWritten == (old(pcWritten) || Bit(regs.written, CR_PC + 32))
      ensures log.ops == PacketEndOps(prefix, body, regs, instructionPc, [], old(log.nextId))
      ensures log.nextId == old(log.nextId) + |ClosingOps(regs.written, instructionPc)| + |Moves(regs.conditional, Prime)|
    {
      ghost var start := log.nextId;
      CommitPacket();
      ghost var closing := Fresh(ClosingOps(regs.written, instructionPc), start);
      PrimeConditionals(body + closing);
      ghost var primes := Fresh(Moves(regs.conditional, Prime), start + |ClosingOps(regs.written, instructionPc)|);
      Regroup(prefix + primes, body, closing);
    }

    /**
     * The second half of `handle_packet_end`: the packet state is reset and
     * the hardware-loop epilogue emitted; every op so far now lies before
     * the next packet.
     */
    method FinishPacket()
      requires Arrays() && log.Valid() && log.ops != [] && jumpCount <= 2 && !extenderPresent
      modifies this`pcWritten, this`regs, this`isPreWritten, this`i, this`prefix, this`ranges
      modifies log, deps, original, ordered, endloop
      ensures Idle()
      ensures pcWritten == (old(pcWritten) || old(endloop[0]) || old(endloop[1]))
      ensures log.ops == old(log.ops) + Fresh(EndloopOps(be, old(endloop[0]), old(endloop[1]), instructionPc), old(log.nextId))
      ensures log.nextId == old(log.nextId) + |EndloopOps(be, old(endloop[0]), old(endloop[1]), instructionPc)|
      ensures InsnStarts(log.ops) == old(InsnStarts(log.ops))
    {
      ResetPacket();
      EndLoops();
      prefix, ranges := log.ops, [];
      ZeroBit(CR_P + 32);
    }

    /**
     * `handle_packet_end`: the slots' runs are put in the resolved order,
     * the registers are committed, conditionally written registers primed
     * at the packet's start, the packet state reset and the hardware-loop
     * epilogue emitted; the ops emitted so far then all lie before the next
     * packet. When the slots have no order the C code never returns.
     */
    method HandlePacketEnd() returns (status: Status, ghost o: seq<nat>)
      requires Shape() && Closed() && 0 <= i && !extenderPresent
      modifies this`pcWritten, this`regs, this`isPreWritten, this`i, this`prefix, this`ranges
      modifies log, deps, original, ordered, endloop
      ensures status == Decoded || status == Unresolvable
      ensures status == Unresolvable <==> old(Order(Packet())) == None
      ensures status == Decoded ==> old(Order(Packet())) == Some(o)
      ensures status != Decoded || Idle()
      ensures status == Decoded ==>
        pcWritten == (old(pcWritten) || Bit(old(regs).written, CR_PC + 32) || old(endloop[0]) || old(endloop[1]))
      ensures status == Decoded ==> old(prefix) <= log.ops
      ensures status == Decoded ==> InsnStarts(prefix) == old(InsnStarts(prefix))
    {
      assert jumpCount <= 2;
      RunsOfShape();
      var solved;
      solved, o := ClosePacket();
      if !solved {
        return Unresolvable, o;
      }
      ghost var closed := log.ops;
      PacketEndExtends(prefix, Flatten(Gather(ranges, o)), regs, instructionPc, [], old(log.nextId));
      FinishPacket();
      assert closed <= log.ops;
      status := Decoded;
    }

    // -------------------------------------------------------------------
    // decode_packet
    // -------------------------------------------------------------------

    /** What the generated code of the current instruction can see of the context. */
    function Env(): ExecEnv
      reads this`ir, this`extenderPresent, this`constExt, this`i, this`regs, this`pc, this`npc
      reads this`instructionPc, this`isPreWritten, deps
      requires Arrays() && 0 <= i
    {
      ExecEnv(ir, extenderPresent, constExt, i,
              [deps[0].written, deps[1].written, deps[2].written, deps[3].written],
              regs.destination, pc, npc, instructionPc, isPreWritten)
    }

    /**
     * The start of every word: a new packet remembers the last op before
     * it, the word's `PC_trace` op is emitted, and the next slot opens with
     * that op as its `begin`.
     */
    method BeginSlot(word: Word)
      requires Valid() && i < 3
      modifies this`packetFirstOp, this`i, this`ir, this`ranges, log, deps
      ensures Shape() && i == old(i) + 1 && ir == word
      ensures log.ops == old(log.ops) + [Op(old(log.nextId), PcTrace(instructionPc))]
      ensures log.nextId == old(log.nextId) + 1
      ensures deps[i] == NoDep.(begin := old(log.nextId))
      ensures ranges == old(ranges) + [[Op(old(log.nextId), PcTrace(instructionPc))]]
      ensures old(newPacket) ==> packetFirstOp == Last(old(log.ops)).id
    {
      MarkPacketStart();
      OpenTraceSlot();
      ir := word;
    }

    /** The word's `PC_trace` op is emitted and opens the next slot. */
    method OpenTraceSlot()
      requires Shape() && Closed() && i < 3 && Last(prefix).id == packetFirstOp
      modifies this`i, this`ranges, log, deps
      ensures Shape() && i == old(i) + 1
      ensures log.ops == old(log.ops) + [Op(old(log.nextId), PcTrace(instructionPc))]
      ensures log.nextId == old(log.nextId) + 1
      ensures deps[i] == NoDep.(begin := old(log.nextId))
      ensures ranges == old(ranges) + [[Op(old(log.nextId), PcTrace(instructionPc))]]
    {
      log.Emit(PcTrace(instructionPc));
      var first := Op(log.LastOp(), PcTrace(instructionPc));
      assert first == Op(old(log.nextId), PcTrace(instructionPc)) && log.ops == old(log.ops) + [first];
      OpenRun(first);
    }

    /** The op just emitted opens the next slot as its run. */
    method OpenRun(first: Op)
      requires Arrays() && -1 <= i < 3 && |ranges| == i + 1 && Slots() && PacketState()
      requires i >= 0 ==> ranges[i] != [] && Last(ranges[i]).id == deps[i].end
      requires log.Valid() && log.ops == prefix + Flatten(ranges) + [first] && first.kind.PcTrace?
      requires prefix != [] && Last(prefix).id == packetFirstOp && NoStartOps(Flatten(ranges))
      modifies this`i, this`ranges, deps
      ensures Shape() && i == old(i) + 1 && ranges == old(ranges) + [[first]]
      ensures deps[i] == NoDep.(begin := first.id)
    {
      FlattenSnoc(ranges, [first]);
      TraceNoStarts(ranges, first);
      OpenSlot(first);
    }

    /** A new packet remembers the last op before it as `packet_first_op`. */
    method MarkPacketStart()
      requires Shape() && (newPacket <==> i == -1)
      modifies this`packetFirstOp
      ensures Shape() && Last(prefix).id == packetFirstOp
      ensures old(newPacket) ==> packetFirstOp == Last(log.ops).id
    {
      if newPacket {
        assert Flatten(ranges) == [];
        packetFirstOp := log.LastOp();
      }
    }

    /** The next slot opens with the run of its first op. */
    method OpenSlot(first: Op)
      requires Arrays() && -1 <= i < 3 && |ranges| == i + 1 && Slots()
      requires i >= 0 ==> ranges[i] != [] && Last(ranges[i]).id == deps[i].end
      modifies this`i, this`ranges, deps
      ensures i == old(i) + 1 && ranges == old(ranges) + [[first]] && Slots()
      ensures deps[i] == NoDep.(begin := first.id)
    {
      ghost var rs := ranges;
      i := i + 1;
      deps[i] := deps[i].(begin := first.id);
      ranges := ranges + [[first]];
      assert forall k :: 0 <= k < 4 && k != i ==> deps[k] == old(deps[k]);
      assert forall k :: 0 <= k < i ==> ranges[k] == rs[k];
    }

    /**
     * The parse bits of the word: 2 marks the end of a hardware loop when
     * it is the packet's first or second word, 3 ends the packet, 0 ends it
     * as a duplex, 1 does nothing.
     */
    method ReadParseBits(word: Word) returns (packetEnd: bool)
      requires Shape() && 0 <= i
      modifies this`duplex, endloop
      ensures Shape()
      ensures packetEnd <==> EndsPacket(word)
      ensures duplex == (old(duplex) || ParseBits(word) == 0)
      ensures endloop[0] == (old(endloop[0]) || (ParseBits(word) == 2 && i == 0))
      ensures endloop[1] == (old(endloop[1]) || (ParseBits(word) == 2 && i == 1))
    {
      var parse := ParseBits(word);
      packetEnd := false;
      if parse == 2 {
        if i == 0 {
          endloop[0] := true;
        }
        if i == 1 {
          endloop[1] := true;
        }
      } else if parse == 3 {
        packetEnd := true;
      } else if parse == 0 {
        duplex := true;
        packetEnd := true;
      }
    }

    /**
     * A constant extender: its immediate is kept for the next instruction,
     * the packet is open, and the slot closes right after its `PC_trace`
     * op with nothing recorded in its masks.
     */
    method ExtenderWord(word: Word)
      requires Shape() && 0 <= i
      modifies this`extenderPresent, this`constExt, this`newPacket, deps
      ensures Shape() && Closed()
      ensures extenderPresent && constExt == ConstExt(word) && !newPacket
      ensures deps[i] == old(deps[i]).(end := Last(log.ops).id)
    {
      extenderPresent := true;
      constExt := ConstExt(word);
      if newPacket {
        newPacket := false;
      }
      EndSlot();
    }

    /** The current slot ends with the last op emitted. */
    method EndSlot()
      requires Shape() && 0 <= i
      modifies deps
      ensures Shape() && Closed()
      ensures deps[i] == old(deps[i]).(end := Last(log.ops).id)
      ensures forall k :: 0 <= k < 4 && k != i ==> deps[k] == old(deps[k])
    {
      LastFlatten(prefix, ranges);
      deps[i] := deps[i].(end := log.LastOp());
    }

    /** The ops of the current instruction, tagged `tags`, grow the current slot's run. */
    method EmitInSlot(tags: seq<nat>)
      requires Shape() && 0 <= i
      modifies this`ranges, log
      ensures Shape()
      ensures log.ops == old(log.ops) + Fresh(SemOps(tags), old(log.nextId)) && log.nextId == old(log.nextId) + |tags|
      ensures ranges == old(ranges[..i]) + [old(ranges[i]) + Fresh(SemOps(tags), old(log.nextId))]
    {
      ghost var added := Fresh(SemOps(tags), log.nextId);
      log.EmitAll(SemOps(tags));
      FlattenGrowLast(ranges, added);
      GrowNoStarts(ranges, tags, old(log.nextId));
      ranges := ranges[..i] + [ranges[i] + added];
      assert Layout();
      assert Slots() by {
        assert forall k :: 0 <= k < i ==> ranges[k] == old(ranges[k]);
      }
    }

    /**
     * `regs_append`: the instruction's `regs_t` is folded into the
     * packet's, and a written predicate register is noted.
     */
    method RegsAppend(insn: Regs)
      requires isPreWritten == Bit(regs.written, CR_P + 32)
      modifies this`regs, this`isPreWritten
      ensures regs == AppendRegs(old(regs), insn)
      ensures isPreWritten == Bit(regs.written, CR_P + 32)
      ensures KeepsPcWrite(old(regs).written, regs.written)
    {
      AppendRegsBits(regs, insn);
      regs := AppendRegs(regs, insn);
      if Bit(regs.written, CR_P + 32) {
        isPreWritten := true;
      }
    }

    /**
     * The register-effect macros of one instruction, run on a zeroed
     * `regs_t` and the current slot's record, then `regs_append`. They fail
     * when `SET_JUMP_FLAG` counts a third jump in the block.
     */
    method Account(actions: seq<Action>) returns (ok: bool)
      requires Shape() && 0 <= i
      modifies this`regs, this`jumpCount, this`isPreWritten, deps
      ensures ok == PerformAll(SlotState(NoRegs, old(deps[i]), old(jumpCount)), actions).Some?
      ensures ok ==> Shape()
      ensures ok ==> var t := PerformAll(SlotState(NoRegs, old(deps[i]), old(jumpCount)), actions).value;
        regs == AppendRegs(old(regs), t.regs) && deps[i] == t.dep && jumpCount == t.jumps
      ensures ok ==> KeepsPcWrite(old(regs).written, regs.written)
    {
      var r := PerformAll(SlotState(NoRegs, deps[i], jumpCount), actions);
      if r.None? {
        return false;
      }
      PerformAllJumps(SlotState(NoRegs, deps[i], jumpCount), actions);
      deps[i] := r.value.dep;
      jumpCount := r.value.jumps;
      RegsAppend(r.value.regs);
      ok := true;
      assert Slots();
    }

    /**
     * One instruction's generated code, once it has read the context: its
     * ops grow the current slot and its macros run on the slot's record.
     */
    method Run(e: Effect) returns (ok: bool)
      requires Shape() && 0 <= i
      modifies this`regs, this`jumpCount, this`isPreWritten, this`ranges, log, deps
      ensures ok == PerformAll(SlotState(NoRegs, old(deps[i]), old(jumpCount)), e.actions).Some?
      ensures ok ==> Shape()
      ensures ok ==> log.ops == old(log.ops) + Fresh(SemOps(e.ops), old(log.nextId))
      ensures ok ==> var t := PerformAll(SlotState(NoRegs, old(deps[i]), old(jumpCount)), e.actions).value;
        regs == AppendRegs(old(regs), t.regs) && deps[i] == t.dep && jumpCount == t.jumps
      ensures ok ==> KeepsPcWrite(old(regs).written, regs.written)
    {
      EmitInSlot(e.ops);
      ok := Account(e.actions);
    }

    /**
     * The extender fix-up `sub_execute` emits: a sub-instruction with an
     * extendable immediate consumes a present extender.
     */
    method ConsumeExtender(e: Effect)
      modifies this`extenderPresent, this`constExt
      ensures if e.extendable && old(extenderPresent) then !extenderPresent && constExt == 0
              else extenderPresent == old(extenderPresent) && constExt == old(constExt)
    {
      if e.extendable && extenderPresent {
        extenderPresent := false;
        constExt := 0;
      }
    }

    /** A word holding one instruction: decoded, then executed in the current slot. */
    method ExecuteSingle(word: Word) returns (ok: bool)
      requires Shape() && 0 <= i && ir == word
      modifies this`regs, this`jumpCount, this`isPreWritten, this`newPacket, this`ranges, log, deps
      ensures ok == PerformAll(SlotState(NoRegs, old(deps[i]), old(jumpCount)),
                               be.execute(be.decode(word), old(Env())).actions).Some?
      ensures ok ==> Shape() && !newPacket && KeepsPcWrite(old(regs).written, regs.written)
    {
      var insn := be.decode(word);
      newPacket := false;
      var e := be.execute(insn, Env());
      ok := Run(e);
    }

    /** One half of a duplex: `sub_execute` of the sub-instruction, which may consume the extender. */
    method ExecuteSub(sub: nat, insn: nat) returns (ok: bool)
      requires Shape() && 0 <= i
      modifies this`ir, this`extenderPresent, this`constExt, this`regs, this`jumpCount
      modifies this`isPreWritten, this`ranges, log, deps
      ensures ir == sub && (!old(extenderPresent) ==> !extenderPresent)
      ensures ok ==> Shape() && KeepsPcWrite(old(regs).written, regs.written)
    {
      ir := sub;
      var e := be.subExecute(insn, Env());
      ConsumeExtender(e);
      ok := Run(e);
    }

    /**
     * The two halves of a duplex in turn: both are decoded first, then
     * each runs; the extender is dropped between them.
     */
    method ExecuteBoth(word: Word) returns (ok: bool)
      requires Shape() && 0 <= i && DuplexIclass(word) < 15
      modifies this`ir, this`extenderPresent, this`constExt, this`regs, this`jumpCount
      modifies this`isPreWritten, this`newPacket, this`ranges, log, deps
      ensures ok ==> Shape() && !extenderPresent && ir == LastSub(word) && !newPacket
      ensures ok ==> KeepsPcWrite(old(regs).written, regs.written)
    {
      var firstSub, lastSub := FirstSub(word), LastSub(word);
      var firstInsn, lastInsn := be.subDecode(firstSub), be.subDecode(lastSub);
      newPacket := false;
      ok := ExecuteSub(firstSub, firstInsn);
      if !ok {
        return;
      }
      extenderPresent := false;
      ok := ExecuteSub(lastSub, lastInsn);
    }

    /**
     * A duplex: both sub-instructions are decoded, then the first (slot 1,
     * the upper half) runs and the second (slot 0) runs after it. The
     * extender, if any, is dropped before the second runs, so only the
     * first can use it. An iclass of 15 fails the assertion.
     */
    method ExecuteDuplex(word: Word) returns (status: Status)
      requires Shape() && 0 <= i
      modifies this`extenderPresent, this`constExt, this`regs, this`jumpCount, this`isPreWritten
      modifies this`newPacket, this`ir, this`duplex, this`ranges, log, deps
      ensures status == Decoded || status == IllegalDuplexIclass || status == ThirdJump
      ensures status == IllegalDuplexIclass <==> DuplexIclass(word) == 15
      ensures status == Decoded ==> Shape() && !newPacket && !duplex && !extenderPresent
      ensures status == Decoded ==> DuplexIclass(word) < 15 && ir == LastSub(word)
      ensures status == Decoded ==> KeepsPcWrite(old(regs).written, regs.written)
    {
      DuplexIclassBits(word);
      if DuplexIclass(word) >= 15 {
        return IllegalDuplexIclass;
      }
      var ok := ExecuteBoth(word);
      if !ok {
        return ThirdJump;
      }
      duplex := false;
      status := Decoded;
    }
  
    /**
     * The instruction of a word that is not an extender: a duplex or a
     * single instruction runs in the open slot, a leftover extender is
     * dropped (so an extender only reaches the word after it) and the slot
     * closes.
     */
    method DecodeInstruction(word: Word) returns (status: Status)
      requires Shape() && 0 <= i && ir == word && duplex == (ParseBits(word) == 0)
      modifies this`ir, this`duplex, this`extenderPresent, this`constExt, this`newPacket
      modifies this`regs, this`jumpCount, this`isPreWritten, this`ranges, log, deps
      ensures status == Decoded || status == IllegalDuplexIclass || status == ThirdJump
      ensures status == IllegalDuplexIclass <==> ParseBits(word) == 0 && DuplexIclass(word) == 15
      ensures status != Decoded || (Shape() && Closed() && !newPacket && !duplex && !extenderPresent)
      ensures status != Decoded || KeepsPcWrite(old(regs).written, regs.written)
    {
      if duplex {
        status := ExecuteDuplex(word);
        if status != Decoded {
          return;
        }
      } else {
        var ok := ExecuteSingle(word);
        if !ok {
          return ThirdJump;
        }
        status := Decoded;
      }
      CloseInstruction();
    }

    /** After an instruction a leftover extender is dropped and the slot closes. */
    method CloseInstruction()
      requires Shape() && 0 <= i
      modifies this`extenderPresent, this`constExt, deps
      ensures Shape() && Closed() && !extenderPresent
    {
      if extenderPresent {
        extenderPresent := false;
        constExt := 0;
      }
      EndSlot();
    }

    /** The start of every word: its slot opens and its parse bits are read. */
    method OpenWord(word: Word)
      requires Valid() && i < 3
      modifies this`packetFirstOp, this`i, this`ir, this`ranges, this`duplex, log, deps, endloop
      ensures Shape() && i == old(i) + 1 && ir == word && duplex == (ParseBits(word) == 0)
      ensures endloop[0] == (old(endloop[0]) || (ParseBits(word) == 2 && old(i) == -1))
      ensures endloop[1] == (old(endloop[1]) || (ParseBits(word) == 2 && old(i) == 0))
    {
      BeginSlot(word);
      var packetEnd := ReadParseBits(word);
    }

    /**
     * One word of `decode_packet` up to the close of its slot: the slot
     * opens, the parse bits are read, then the word is a constant extender
     * or an instruction.
     */
    method DecodeWord(word: Word) returns (status: Status)
      requires Valid() && i < 3
      modifies this`packetFirstOp, this`i, this`ir, this`ranges, this`duplex, this`extenderPresent
      modifies this`constExt, this`newPacket, this`regs, this`jumpCount, this`isPreWritten
      modifies log, deps, endloop
      ensures status == Decoded || status == IllegalDuplexIclass || status == ThirdJump
      ensures status == IllegalDuplexIclass <==> ParseBits(word) == 0 && DuplexIclass(word) == 15
      ensures status == ThirdJump ==> !IsExtender(word)
      ensures endloop[0] == (old(endloop[0]) || (ParseBits(word) == 2 && old(i) == -1))
      ensures endloop[1] == (old(endloop[1]) || (ParseBits(word) == 2 && old(i) == 0))
      ensures status != Decoded || (Shape() && Closed() && i == old(i) + 1 && !newPacket && !duplex)
      ensures status != Decoded || !IsExtender(word) || (extenderPresent && constExt == ConstExt(word))
      ensures status != Decoded || IsExtender(word) || !extenderPresent
      ensures status != Decoded || KeepsPcWrite(old(regs).written, regs.written)
    {
      OpenWord(word);
      if IsExtender(word) {
        ExtenderWord(word);
        return Decoded;
      }
      status := DecodeInstruction(word);
    }

    /**
     * The end of a packet in `decode_packet`: `handle_packet_end`, after
     * which the translator waits for a new packet.
     */
    method EndPacket() returns (status: Status)
      requires Shape() && Closed() && 0 <= i && !extenderPresent && !pcWritten && !duplex
      modifies this`pcWritten, this`regs, this`isPreWritten, this`i, this`prefix, this`ranges
      modifies this`newPacket, log, deps, original, ordered, endloop
      ensures status == Decoded || status == Unresolvable
      ensures status == Unresolvable <==> old(Order(Packet())) == None
      ensures status != Decoded || (Shape() && Closed() && newPacket && i == -1 && !duplex)
      ensures status != Decoded ||
        pcWritten == (Bit(old(regs).written, CR_PC + 32) || old(endloop[0]) || old(endloop[1]))
      ensures status != Decoded || InsnStarts(prefix) == old(InsnStarts(prefix))
    {
      ghost var o;
      status, o := HandlePacketEnd();
      if status != Decoded {
        return;
      }
      newPacket := true;
    }

    /**
     * The rest of `decode_packet` after an instruction's slot closed: a
     * packet end runs `handle_packet_end`, and the block ends at a `trap0`
     * word or once the packet end wrote the PC.
     */
    method FinishWord(word: Word) returns (status: Status, ghost wrotePc: bool)
      requires Shape() && Closed() && 0 <= i && !newPacket && !duplex && !extenderPresent && !pcWritten
      modifies this`pcWritten, this`regs, this`isPreWritten, this`i, this`prefix, this`ranges
      modifies this`newPacket, this`blockEnd, log, deps, original, ordered, endloop
      ensures status == Decoded || status == Unresolvable
      ensures status == Unresolvable ==> EndsPacket(word)
      ensures wrotePc ==> EndsPacket(word)
      ensures !EndsPacket(word) ==> regs == old(regs)
      ensures status != Decoded ||
        wrotePc == (EndsPacket(word) && (Bit(old(regs).written, CR_PC + 32) || old(endloop[0]) || old(endloop[1])))
      ensures status != Decoded || (Valid() && (newPacket <==> EndsPacket(word)))
      ensures status != Decoded || blockEnd == (old(blockEnd) || word == TRAP0 || wrotePc)
      ensures status != Decoded || InsnStarts(prefix) == old(InsnStarts(prefix))
    {
      wrotePc := false;
      status := Decoded;
      if EndsPacket(word) {
        status := EndPacket();
        if status != Decoded {
          return;
        }
        wrotePc := pcWritten;
      }
      if word == TRAP0 || pcWritten {
        blockEnd := true;
        pcWritten := false;
      }
    }

    /**
     * `decode_packet`: one word of the block. An extender returns before
     * any packet-end handling, even when its parse bits end the packet. The
     * C code checks neither the slot count nor that the packet has an
     * order: a fifth word and an unresolvable packet stop here with their
     * own status.
     */
    method DecodePacket(word: Word) returns (status: Status, ghost wrotePc: bool, ghost written: nat)
      requires Valid()
      modifies this`packetFirstOp, this`i, this`ir, this`ranges, this`prefix, this`duplex
      modifies this`extenderPresent, this`constExt, this`newPacket, this`regs, this`jumpCount
      modifies this`isPreWritten, this`pcWritten, this`blockEnd
      modifies log, deps, original, ordered, endloop
      ensures status != NoPacketEnd
      ensures status == SlotOverflow <==> old(i) == 3
      ensures status == IllegalDuplexIclass <==> old(i) < 3 && ParseBits(word) == 0 && DuplexIclass(word) == 15
      ensures status == Unresolvable ==> old(i) < 3 && EndsPacket(word) && !IsExtender(word)
      ensures wrotePc ==> EndsPacket(word) && !IsExtender(word)
      ensures status != Decoded || KeepsPcWrite(old(regs).written, written)
      ensures status != Decoded || (EndsPacket(word) && !IsExtender(word)) || written == regs.written
      ensures status != Decoded || wrotePc == (EndsPacket(word) && !IsExtender(word) &&
        (Bit(written, CR_PC + 32) || old(endloop[0]) || old(endloop[1])))
      ensures status != Decoded || Valid()
      ensures status != Decoded || (newPacket <==> EndsPacket(word) && !IsExtender(word))
      ensures status != Decoded || !IsExtender(word) || (extenderPresent && constExt == ConstExt(word))
      ensures status != Decoded || IsExtender(word) || !extenderPresent
      ensures status != Decoded || blockEnd == (old(blockEnd) || (!IsExtender(word) && (word == TRAP0 || wrotePc)))
      ensures status != Decoded || InsnStarts(prefix) == old(InsnStarts(prefix))
    {
      if i == 3 {
        return SlotOverflow, false, regs.written;
      }
      status, wrotePc, written := DecodeNextWord(word);
    }

    /** A word with a slot free for it: decoded, then the slot and the packet are finished unless it is an extender. */
    method DecodeNextWord(word: Word) returns (status: Status, ghost wrotePc: bool, ghost written: nat)
      requires Valid() && i < 3
      modifies this`packetFirstOp, this`i, this`ir, this`ranges, this`prefix, this`duplex
      modifies this`extenderPresent, this`constExt, this`newPacket, this`regs, this`jumpCount
      modifies this`isPreWritten, this`pcWritten, this`blockEnd
      modifies log, deps, original, ordered, endloop
      ensures status != NoPacketEnd && status != SlotOverflow
      ensures status == IllegalDuplexIclass <==> ParseBits(word) == 0 && DuplexIclass(word) == 15
      ensures status == Unresolvable ==> EndsPacket(word) && !IsExtender(word)
      ensures wrotePc ==> EndsPacket(word) && !IsExtender(word)
      ensures status != Decoded || KeepsPcWrite(old(regs).written, written)
      ensures status != Decoded || (EndsPacket(word) && !IsExtender(word)) || written == regs.written
      ensures status != Decoded || wrotePc == (EndsPacket(word) && !IsExtender(word) &&
        (Bit(written, CR_PC + 32) || old(endloop[0]) || old(endloop[1])))
      ensures status != Decoded || Valid()
      ensures status != Decoded || (newPacket <==> EndsPacket(word) && !IsExtender(word))
      ensures status != Decoded || !IsExtender(word) || (extenderPresent && constExt == ConstExt(word))
      ensures status != Decoded || IsExtender(word) || !extenderPresent
      ensures status != Decoded || blockEnd == (old(blockEnd) || (!IsExtender(word) && (word == TRAP0 || wrotePc)))
      ensures status != Decoded || InsnStarts(prefix) == old(InsnStarts(prefix))
    {
      wrotePc := false;
      status := DecodeWord(word);
      written := regs.written;
      if status != Decoded || IsExtender(word) {
        return;
      }
      status, wrotePc := FinishWord(word);
    }

    // -------------------------------------------------------------------
    // The loop of gen_intermediate_code
    // -------------------------------------------------------------------

    /**
     * The lookahead at a new packet: words are read from `instruction_pc`
     * on until one ends a packet, and `npc` is the address after it. When
     * no word of the address space ends a packet the C loop never returns.
     */
    method Lookahead() returns (found: bool)
      requires instructionPc < 0x1_0000_0000
      modifies this`npc
      ensures found <==> FirstEnd(be, instructionPc, 0, ADDRESS_WORDS).Some?
      ensures found ==> npc == PastEnd(instructionPc, FirstEnd(be, instructionPc, 0, ADDRESS_WORDS).value)
    {
      var first := FirstEnd(be, instructionPc, 0, ADDRESS_WORDS);
      if first.None? {
        return false;
      }
      npc := ScanPacket(be, instructionPc, first.value);
      found := true;
    }

    /**
     * A new packet in the block loop: the lookahead sets `npc`, the
     * packet's `insn_start` op is emitted with `pc` as it still is (the
     * previous packet's address), and only then does `pc` become the new
     * packet's address.
     */
    method StartPacket() returns (found: bool)
      requires Valid() && newPacket && instructionPc < 0x1_0000_0000
      modifies this`npc, this`pc, this`prefix, log
      ensures found <==> FirstEnd(be, instructionPc, 0, ADDRESS_WORDS).Some?
      ensures found ==> npc == PastEnd(instructionPc, FirstEnd(be, instructionPc, 0, ADDRESS_WORDS).value)
      ensures found ==> Valid() && pc == instructionPc
      ensures found ==> log.ops == old(log.ops) + [Op(old(log.nextId), InsnStart(old(pc)))]
      ensures found ==> InsnStarts(prefix) == old(InsnStarts(prefix)) + 1
    {
      found := Lookahead();
      if !found {
        return;
      }
      InsnStartOp();
      pc := instructionPc;
    }

    /** `tcg_gen_insn_start(pc)`: the packet's `insn_start` op, after which it lies before the packet. */
    method InsnStartOp()
      requires Valid() && newPacket
      modifies this`prefix, log
      ensures Valid() && log.ops == old(log.ops) + [Op(old(log.nextId), InsnStart(pc))]
      ensures InsnStarts(prefix) == old(InsnStarts(prefix)) + 1
    {
      assert log.ops == prefix by {
        assert ranges == [];
      }
      OneStart(prefix, Op(log.nextId, InsnStart(pc)));
      log.Emit(InsnStart(pc));
      prefix := log.ops;
    }

    /**
     * One turn of the `do ... while (!block_end)` loop: a new packet is
     * started, then the word at `instruction_pc` is fetched and decoded,
     * and `instruction_pc` moves on by one word.
     */
    method TranslateWord() returns (status: Status, ghost wrotePc: bool, ghost written: nat)
      requires Valid() && instructionPc < 0x1_0000_0000 && !blockEnd
      modifies this`packetFirstOp, this`i, this`ir, this`ranges, this`prefix, this`duplex
      modifies this`extenderPresent, this`constExt, this`newPacket, this`regs, this`jumpCount
      modifies this`isPreWritten, this`pcWritten, this`blockEnd, this`npc, this`pc
      modifies this`oldPc, this`instructionPc, log, deps, original, ordered, endloop
      ensures status == NoPacketEnd ==> old(newPacket) && FirstEnd(be, old(instructionPc), 0, ADDRESS_WORDS) == None
      ensures status != Decoded || (Valid() && oldPc == old(instructionPc) && instructionPc == NextAddress(old(instructionPc)))
      ensures status != Decoded || (blockEnd <==>
        !IsExtender(be.fetch(old(instructionPc))) && (be.fetch(old(instructionPc)) == TRAP0 || wrotePc))
      ensures status != Decoded || InsnStarts(prefix) == old(InsnStarts(prefix)) + (if old(newPacket) then 1 else 0)
      ensures status != Decoded || KeepsPcWrite(old(regs).written, written)
      ensures status != Decoded || wrotePc == (EndsPacket(be.fetch(old(instructionPc))) && !IsExtender(be.fetch(old(instructionPc))) &&
        (Bit(written, CR_PC + 32) || old(endloop[0]) || old(endloop[1])))
    {
      wrotePc, written := false, regs.written;
      if newPacket {
        var found := StartPacket();
        if !found {
          return NoPacketEnd, wrotePc, written;
        }
      }
      var word := be.fetch(instructionPc);
      status, wrotePc, written := DecodePacket(word);
      if status != Decoded {
        return;
      }
      oldPc := instructionPc;
      instructionPc := NextAddress(instructionPc);
    }

    /**
     * The `do ... while (!block_end)` loop: words are translated from
     * `pc_start` on, and `num_insns` counts the packets begun. It ends at
     * the word that ends the block, at a word that stops the translator
     * (whose address is `at`), or after `fuel` words.
     */
    method TranslateBlock(pcStart: Word, fuel: nat) returns (status: Status, words: nat, icount: nat, at: nat)
      requires Valid() && newPacket && !blockEnd && instructionPc == pcStart
      modifies this`packetFirstOp, this`i, this`ir, this`ranges, this`prefix, this`duplex
      modifies this`extenderPresent, this`constExt, this`newPacket, this`regs, this`jumpCount
      modifies this`isPreWritten, this`pcWritten, this`blockEnd, this`npc, this`pc
      modifies this`oldPc, this`instructionPc, log, deps, original, ordered, endloop
      ensures status != Decoded || (Valid() && words <= fuel && instructionPc == Addr(pcStart, words))
      ensures status != Decoded || blockEnd || words == fuel
      ensures status != Decoded || !blockEnd || (1 <= icount <= words && !IsExtender(WordAt(be, pcStart, words - 1)))
      ensures status != Decoded || InsnStarts(log.ops) == old(InsnStarts(log.ops)) + icount
    {
      status, words, icount, at := Decoded, 0, 0, pcStart;
      StartsBeforePacket();
      ghost var before := InsnStarts(prefix);
      while words < fuel && !blockEnd
        invariant Valid() && words <= fuel && instructionPc == Addr(pcStart, words) && icount <= words
        invariant InsnStarts(prefix) == before + icount
        invariant words == 0 ==> newPacket && !blockEnd
        invariant words > 0 ==> icount >= 1
        invariant blockEnd ==> words > 0 && !IsExtender(WordAt(be, pcStart, words - 1))
      {
        var began := newPacket;
        at := instructionPc;
        ghost var wrotePc, written;
        status, wrotePc, written := TranslateWord();
        if status != Decoded {
          return;
        }
        words := words + 1;
        if began {
          icount := icount + 1;
        }
      }
      StartsBeforePacket();
    }

    /** `tcg_gen_exit_tb` and `gen_tb_end`: the block's last two ops, the second with its packet count. */
    method EndBlock(icount: nat)
      requires log.Valid()
      modifies log
      ensures |log.ops| >= 2 && log.ops[|log.ops| - 2].kind == ExitTb && log.ops[|log.ops| - 1].kind == TbEnd(icount)
      ensures InsnStarts(log.ops) == old(InsnStarts(log.ops))
    {
      var tail := [Op(log.nextId, ExitTb), Op(log.nextId + 1, TbEnd(icount))];
      InsnStartsAppend(log.ops, tail);
      NoStartOpsCount(tail);
      log.Emit(ExitTb);
      log.Emit(TbEnd(icount));
      assert log.ops == old(log.ops) + tail;
    }
  }

  /** What translating one block yields. */
  datatype Block =
    | Translated(ops: seq<Op>, size: nat, icount: nat, words: nat)
    | Unaligned                          // `pc_start & 3` is not zero: cpu_abort
    | Stopped(status: Status, pc: nat)   // the word at pc stopped the translator
    | Unfinished                         // no block end within the words allowed

  /** A block of w words starting at p is 4w bytes long, in 32-bit arithmetic. */
  lemma SizeOfWords(p: Word, w: nat)
    ensures (Addr(p, w) - p) % 0x1_0000_0000 == (4 * w) % 0x1_0000_0000
  {
    var m := 0x1_0000_0000;
    AddrClosed(p, w);
    var q := (p + 4 * w) / m;
    assert Addr(p, w) - p == 4 * w - m * q;
    assert (4 * w - m * q) % m == (4 * w) % m by {
      assert 4 * w == m * ((4 * w) / m) + (4 * w) % m;
      assert 4 * w - m * q == m * ((4 * w) / m - q) + (4 * w) % m;
    }
  }

  /**
   * `gen_intermediate_code`: after the alignment check and `gen_tb_start`,
   * words are translated one after another until a word ends the block;
   * the block closes with `exit_tb` and `gen_tb_end` and its size is the
   * distance from its first address to the word after the last one. The C
   * loop has no bound of its own (the guest code ends it), so the model
   * takes at most `fuel` words.
   */
  method GenIntermediateCode(be: Backend, pcStart: Word, fuel: nat) returns (b: Block)
    ensures b == Unaligned <==> pcStart % 4 != 0
    ensures b.Stopped? ==> b.status != Decoded
    ensures b.Translated? ==> 1 <= b.icount <= b.words <= fuel
    ensures b.Translated? ==> b.size == (4 * b.words) % 0x1_0000_0000
    ensures b.Translated? ==> !IsExtender(WordAt(be, pcStart, b.words - 1))
    ensures b.Translated? ==>
      |b.ops| >= 2 && b.ops[|b.ops| - 2].kind == ExitTb && b.ops[|b.ops| - 1].kind == TbEnd(b.icount)
    ensures b.Translated? ==> InsnStarts(b.ops) == b.icount
  {
    AndThree(pcStart);
    if And(pcStart, 3) != 0 {
      return Unaligned;
    }
    b := TranslateAligned(be, pcStart, fuel);
  }

  /** An aligned block: a zeroed context, `gen_tb_start`, the word loop, and the block's last two ops. */
  method TranslateAligned(be: Backend, pcStart: Word, fuel: nat) returns (b: Block)
    ensures !b.Unaligned?
    ensures b.Stopped? ==> b.status != Decoded
    ensures b.Translated? ==> 1 <= b.icount <= b.words <= fuel
    ensures b.Translated? ==> b.size == (4 * b.words) % 0x1_0000_0000
    ensures b.Translated? ==> !IsExtender(WordAt(be, pcStart, b.words - 1))
    ensures b.Translated? ==>
      |b.ops| >= 2 && b.ops[|b.ops| - 2].kind == ExitTb && b.ops[|b.ops| - 1].kind == TbEnd(b.icount)
    ensures b.Translated? ==> InsnStarts(b.ops) == b.icount
  {
    var dc := new DisasContext(be, pcStart);
    dc.GenTbStart();
    var status, words, icount, at := dc.TranslateBlock(pcStart, fuel);
    if status != Decoded {
      return Stopped(status, at);
    }
    if !dc.blockEnd {
      return Unfinished;
    }
    SizeOfWords(pcStart, words);
    var size := (dc.instructionPc - pcStart) % 0x1_0000_0000;
    assert 1 <= icount <= words <= fuel && size == (4 * words) % 0x1_0000_0000;
    assert !IsExtender(WordAt(be, pcStart, words - 1));
    dc.EndBlock(icount);
    b := Translated(dc.log.ops, size, icount, words);
  }
}
