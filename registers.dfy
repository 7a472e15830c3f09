/**
 * The C helpers the decoder generator emits into every generated decoder:
 * the register-effect macros (`SET_USED_REG`, `SET_WRITTEN_PRE`,
 * `SET_READ_PRE`, `SET_JUMP_FLAG`), the destination-register list
 * (`push_destination_reg`, `get_destination_reg`) and `ADD_IF_ZERO`.
 *
 * A `regs_t` becomes the value `Regs`. Its 64-bit `written` and
 * `conditional` masks hold general registers in bits 0..31 and control
 * registers in bits 32..63. Its linked destination list becomes a sequence,
 * most recent destination first. A `deps_t` becomes `Dep`, whose
 * `begin`/`end` op pointers are op ids (0 stands for NULL). Its 8-bit
 * `written`/`read` masks hold predicate indices and the jump flag (bit 4).
 */
module Registers {
  import opened Bits

  /** `CR_P`, the predicate control register. */
  const CR_P: nat := 4
  /** `CR_PC`, the program counter control register. */
  const CR_PC: nat := 9
  /** The dependency-mask bit `SET_JUMP_FLAG` uses. */
  const JUMP_FLAG: nat := 4

  datatype Regs = Regs(written: nat, conditional: nat, destination: seq<int>)

  const NoRegs := Regs(0, 0, [])

  datatype Dep = Dep(begin: nat, end: nat, written: nat, read: nat)

  const NoDep := Dep(0, 0, 0, 0)

  /** The stack pointer, frame pointer and link register are never recorded. */
  predicate Ignored(index: int)
  {
    index == 29 || index == 30 || index == 31
  }

  /** No two neighbouring entries of the list are equal. */
  predicate NoRepeats(list: seq<int>)
  {
    forall j :: 0 < j < |list| ==> list[j - 1] != list[j]
  }

  /**
   * `push_destination_reg`: prepend `index` unless it is r29..r31 or already
   * the head. The head is then `index`, the rest of the list is untouched,
   * and a list without neighbouring repeats keeps none.
   */
  function PushDestination(list: seq<int>, index: int): (r: seq<int>)
    ensures Ignored(index) ==> r == list
    ensures !Ignored(index) ==> r != [] && r[0] == index && (r == list || r[1..] == list)
    ensures NoRepeats(list) ==> NoRepeats(r)
    ensures (forall j :: 0 <= j < |list| ==> !Ignored(list[j])) ==>
              forall j :: 0 <= j < |r| ==> !Ignored(r[j])
  {
    if Ignored(index) || (list != [] && list[0] == index) then list else [index] + list
  }

  datatype Lookup = Found(index: int) | InvalidReference | NullDereference

  /**
   * `get_destination_reg(regs, t)` as written: walk t - 1 nodes down the
   * list, asserting before each step that the current node exists, then
   * read the node reached. The last node reached is never checked, so asking
   * for one past the end reads through a NULL pointer.
   */
  method GetDestinationRegAsWritten(list: seq<int>, t: int) returns (r: Lookup)
    ensures list == [] ==> r == InvalidReference
    ensures list != [] && t <= |list| ==> r == Found(list[if t < 1 then 0 else t - 1])
    ensures list != [] && t == |list| + 1 ==> r == NullDereference
    ensures list != [] && t > |list| + 1 ==> r == InvalidReference
  {
    if list == [] {
      return InvalidReference;
    }
    var node := 0;
    var i := 1;
    while i < t
      invariant 1 <= i && node == i - 1 && node <= |list|
      invariant if t >= 1 then i <= t else i == 1
    {
      if node == |list| {
        return InvalidReference;
      }
      node := node + 1;
      i := i + 1;
    }
    if node == |list| {
      return NullDereference;
    }
    return Found(list[node]);
  }

  /**
   * `get_destination_reg` with the existence check also made after the
   * walk: the t-th most recent destination (t below 1 reads the head), and
   * an invalid reference exactly when there is no such destination.
   */
  method GetDestinationReg(list: seq<int>, t: int) returns (r: Lookup)
    ensures r.Found? <==> list != [] && t <= |list|
    ensures r.Found? ==> r.index == list[if t < 1 then 0 else t - 1]
    ensures !r.Found? ==> r == InvalidReference
  {
    if list == [] {
      return InvalidReference;
    }
    var node := 0;
    var i := 1;
    while i < t
      invariant 1 <= i && node == i - 1 && node <= |list|
      invariant if t >= 1 then i <= t else i == 1
    {
      if node == |list| {
        return InvalidReference;
      }
      node := node + 1;
      i := i + 1;
    }
    if node == |list| {
      return InvalidReference;
    }
    return Found(list[node]);
  }

  /**
   * `SET_USED_REG(regs, reg)` with the generated code's `is_conditional`
   * flag: sets bit `reg` of `conditional` inside a conditional section and
   * of `written` otherwise; a general register is also pushed on the
   * destination list.
   */
  function SetUsedReg(regs: Regs, reg: nat, isConditional: bool): (r: Regs)
    requires reg < 64
    ensures isConditional ==> r.written == regs.written
    ensures !isConditional ==> r.conditional == regs.conditional
    ensures r.destination == if reg < 32 then PushDestination(regs.destination, reg) else regs.destination
  {
    var d := if reg < 32 then PushDestination(regs.destination, reg) else regs.destination;
    if isConditional then Regs(regs.written, Or(regs.conditional, Shl(1, reg)), d)
    else Regs(Or(regs.written, Shl(1, reg)), regs.conditional, d)
  }

  /** One more register bit, and no other bit, is set by `SET_USED_REG`. */
  lemma SetUsedRegBits(regs: Regs, reg: nat, isConditional: bool)
    requires reg < 64
    ensures var r := SetUsedReg(regs, reg, isConditional);
      (forall k: nat {:trigger Bit(r.written, k)} ::
         Bit(r.written, k) == (Bit(regs.written, k) || (!isConditional && k == reg))) &&
      (forall k: nat {:trigger Bit(r.conditional, k)} ::
         Bit(r.conditional, k) == (Bit(regs.conditional, k) || (isConditional && k == reg)))
  {
    SetBit(regs.written, reg);
    SetBit(regs.conditional, reg);
  }

  /**
   * `SET_WRITTEN_PRE(dc, i)` on the current slot. The C masks are
   * `uint8_t`; every caller sets a bit below 8 (a predicate register or
   * the jump flag), where the 8-bit cast changes nothing, so the model
   * keeps the masks unbounded.
   */
  function SetWrittenPre(d: Dep, index: nat): Dep
  {
    d.(written := Or(d.written, Shl(1, index)))
  }

  /** `SET_READ_PRE(dc, i)` on the current slot, with the same 8-bit caveat. */
  function SetReadPre(d: Dep, index: nat): Dep
  {
    d.(read := Or(d.read, Shl(1, index)))
  }

  datatype JumpOutcome = Jumped(dep: Dep, count: nat) | TooManyJumps

  /**
   * `SET_JUMP_FLAG(dc)`: the first jump marks the slot as writing the jump
   * flag, the second as reading it (so that it is placed after the first),
   * a third fails the assertion. The jump count goes up by one.
   */
  function SetJumpFlag(d: Dep, jumpCount: nat): (r: JumpOutcome)
    ensures r.Jumped? <==> jumpCount <= 1
    ensures r.Jumped? ==> r.count == jumpCount + 1 && r.dep.begin == d.begin && r.dep.end == d.end
    ensures r.Jumped? && jumpCount == 0 ==> r.dep.read == d.read && Bit(r.dep.written, JUMP_FLAG)
    ensures r.Jumped? && jumpCount == 1 ==> r.dep.written == d.written && Bit(r.dep.read, JUMP_FLAG)
  {
    SetBit(d.written, JUMP_FLAG);
    SetBit(d.read, JUMP_FLAG);
    if jumpCount == 0 then Jumped(SetWrittenPre(d, JUMP_FLAG), 1)
    else if jumpCount == 1 then Jumped(SetReadPre(d, JUMP_FLAG), 2)
    else TooManyJumps
  }

  datatype Sum = Total(value: nat) | Overlapping

  /** `ADD_IF_ZERO(x, y)`: adds y to x, asserting that one of them is zero. */
  function AddIfZero(x: nat, y: nat): (r: Sum)
    ensures r.Total? <==> x == 0 || y == 0
    ensures r.Total? ==> r.value == x + y && (r.value == x || r.value == y)
  {
    if x == 0 || y == 0 then Total(x + y) else Overlapping
  }
}
