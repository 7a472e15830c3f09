# Hexagon packet translation, modelled in Dafny

This project models the packet translation core of a QEMU target for the
Hexagon DSP, and proves properties of that model. It covers three parts.

- **The packet engine** (`target/hexagon/translate.c`) is modelled as a
  `DisasContext` class in module `Translate`.
  - It classifies each 32-bit word by its parse bits and iclass.
  - It captures constant extenders and splits duplex words into their two
    sub-instructions.
  - It folds each instruction's register effects into the packet masks.
  - At packet end it orders the (at most four) slots by their predicate
    dependencies and splices their op ranges into that order.
  - It emits the commit, reset, PC-fallback and conditional-priming moves,
    with the priming moves placed at the front of the packet.
  - It runs the block loop, including the lookahead for the packet end.
- **Emitted op list.** The ops emitted so far are an `OpLog.Log` object.
  It holds a sequence of ops with unique ids, which stand for the `TCGOp`
  pointers. Moving a range of ops after another op is removing the
  inclusive run and reinserting it after the anchor.
- **The decoder generator** (`target/hexagon/generator/decoder_gen.py`) is
  modelled in modules `Fields`, `Registers` and `Decoder`. They cover:
  - the C helpers it emits: field extractors, bit gatherers, register-effect
    macros and the destination-register list;
  - its operand-placeholder parsers;
  - the run-length grouping of encoding strings into bit ranges;
  - the operand fix-ups the generated `execute` and `sub_execute` apply: sign
    extension, scaling, constant extension and register renumbering;
  - the candidate matching of a decode-tree leaf.
- **The decode-tree search** (`target/hexagon/generator/best-decoding.c`)
  is modelled in modules `BestDecoding` and `BestDecodingInput`. They cover:
  - `extractBits`;
  - the compatible-instruction filter and the choosable-bit list;
  - stepping through k-combinations;
  - the integer match counts behind the score;
  - each child's masked value and each leaf's list in `go`;
  - the argument checks and the instruction-table tokenizer of `main`.

Words and masks are unbounded naturals. The C bit operators are defined bit
by bit in module `Bits`. Where C arithmetic wraps at 32 bits, the model
reduces modulo 2^32 explicitly.

The generated `decode`, `sub_decode`, `execute`, `sub_execute` and
`endloop*` bodies are not part of this model. They are the `Packet.Backend`
parameter: functions from a word to an instruction id, and from an
instruction to the ops it emits and the register-effect macros it runs.
Guest memory (`cpu_ldl_code`) is part of that parameter too.

## Model

| member | source | states |
|---|---|---|
| Fields.ExtractFieldBits | target/hexagon/translate.c:43-44 | `EXTRACT_FIELD(src,s,e)` holds bits s..e of src at bits 0..e-s and nothing above |
| Fields.ExtractField2Bits | target/hexagon/translate.c:45-47 | `EXTRACT_FIELD_2` puts the second range directly above the first; the result is below 2^(total width) |
| Fields.ExtrReads | target/hexagon/generator/decoder_gen.py:119-120 | `EXTR` numbers bits from the MSB: it reads positions start..end (bit 31-p of src for position p), first position highest |
| Fields.EmittedRawReads | target/hexagon/generator/decoder_gen.py:119-130 | the `EXTR`..`EXTR_4` call emitted for 1 to 4 ranges reads their positions in order, the first range in the highest bits |
| Fields.EmittedRaw | target/hexagon/generator/decoder_gen.py:421-452 | an extraction is emitted exactly when an operand has 1 to 4 ranges |
| Fields.ReadFieldBits | target/hexagon/generator/decoder_gen.py:119-130 | bit k of a read field is MSB-numbered position `ps[len-1-k]` of the source, and no bit is set at or above the field's width |
| Fields.GatherBitsBits | target/hexagon/generator/decoder_gen.py:131-142 | gathering puts LSB-numbered bit `cs[k]` of the source at bit k, and the result is below 2^len |
| Fields.ExtrBitsGather | target/hexagon/generator/decoder_gen.py:131-142 | `EXTR_BITS_2`..`EXTR_BITS_6` are the gather of their bit list, b0 lowest |
| Fields.ExtrBitGather | target/hexagon/generator/decoder_gen.py:131-132 | `EXTR_BITS` of one bit is the gather of that bit |
| Fields.GatherAppend | target/hexagon/generator/decoder_gen.py:131-142 | gathering a concatenated bit list puts the second list's bits above the first's |
| Registers.PushDestination | target/hexagon/generator/decoder_gen.py:236-245 | registers 29..31 are ignored; an index equal to the head is not pushed again; anything else becomes the new head; the list never gains a repeat or an ignored register |
| Registers.GetDestinationRegAsWritten | target/hexagon/generator/decoder_gen.py:225-234 | as written: the t-th node for t up to the length (the head for t below 1), an assertion on an empty list or when the walk runs off the list, and a NULL read for t = length + 1 |
| Registers.GetDestinationReg | target/hexagon/generator/decoder_gen.py:225-234 | a destination is found exactly when the list is non-empty and t is at most its length, and it is the t-th most recent one; otherwise the invalid-reference assertion |
| Registers.SetUsedReg | target/hexagon/generator/decoder_gen.py:66-73 | a conditional use leaves `written` alone and an unconditional one `conditional`; a destination is pushed only for a general register (below 32) |
| Registers.SetUsedRegBits | target/hexagon/generator/decoder_gen.py:66-73 | `SET_USED_REG` sets bit reg in `conditional` inside a conditional section, in `written` outside one, and no other bit |
| Registers.SetJumpFlag | target/hexagon/generator/decoder_gen.py:103-110 | the first jump sets written bit 4, the second sets read bit 4, both bump the count; a third jump fails |
| Registers.AddIfZero | target/hexagon/generator/decoder_gen.py:111-114 | the sum is taken exactly when one of the two is zero, and is then the other; otherwise the overlap assertion fails |
| Decoder.FindInteger | target/hexagon/generator/decoder_gen.py:256-260 | the index of the first non-digit, or the length: everything before it is a digit |
| Decoder.DecimalNumeral | target/hexagon/generator/decoder_gen.py:256-260 | reading back the decimal numeral of n gives n |
| Decoder.DigitRunOf | target/hexagon/generator/decoder_gen.py:256-260 | a digit string followed by a non-digit is found whole |
| Decoder.ExtractConst | target/hexagon/generator/decoder_gen.py:272-308 | no operand exactly when the second character is '-' or a digit; a constant needs a kind letter and a digit after it; identifier 'j' iff the kind letter is lower case, else 'I'; u/U unsigned, r/R PC-relative; the scale is at least 1 |
| Decoder.ExtractConstText | target/hexagon/generator/decoder_gen.py:272-308 | a placeholder `#<kind><bits>[:<shift>]` parses back to its kind, width and scale 2^shift (1 without a shift) |
| Decoder.ExtractReg | target/hexagon/generator/decoder_gen.py:312-340 | it raises exactly on inputs shorter than two characters that start like a register; a parsed register takes its identifier from the second character, is 32 or 64 bits, is a predicate iff the file is P, and a `.new` register is an N with a valid name |
| Decoder.ExtractRegText | target/hexagon/generator/decoder_gen.py:312-340 | a register placeholder parses back to its file, name and width (doubled name = 64 bits) |
| Decoder.ExtractNewRegText | target/hexagon/generator/decoder_gen.py:312-340 | `N<name>` parses to a 32-bit `.new` register |
| Decoder.RunsGrouped | target/hexagon/generator/decoder_gen.py:386-401 | the ranges of a letter are its maximal runs in the encoding, left to right, disjoint and separated |
| Decoder.RunsCover | target/hexagon/generator/decoder_gen.py:386-401 | every occurrence of the letter lies in one of its ranges |
| Decoder.RunsWidth | target/hexagon/generator/decoder_gen.py:404-409 | the widths of a letter's ranges add up to the number of times it occurs |
| Decoder.GroupRanges | target/hexagon/generator/decoder_gen.py:386-401 | the grouping loop gives every identifier exactly its runs |
| Decoder.Shorten | target/hexagon/generator/decoder_gen.py:412-415 | the `.new` patch shortens the last range by one and keeps the others |
| Decoder.ExtractRanges | target/hexagon/generator/decoder_gen.py:386-415 | extraction succeeds exactly when every constant other than N has runs adding up to its width and every `.new` register has a last range ending past position 0 of the encoding; each operand then gets its runs, with the last range of a `.new` register shortened |
| Decoder.ExtractedWidths | target/hexagon/generator/decoder_gen.py:404-409 | after a successful extraction a constant's width is the count of its letter (and 0 for a repeated operand) |
| Decoder.SignExtendBits | target/hexagon/generator/decoder_gen.py:453-460 | sign extension keeps the field and fills bits width..31 with its top bit |
| Decoder.SignExtendValue | target/hexagon/generator/decoder_gen.py:453-460 | the sign-extended field is the 32-bit two's complement encoding of the field's signed value |
| Decoder.UnextendedImmediate | target/hexagon/generator/decoder_gen.py:453-493 | without an extender the immediate is the field's value times its scale, in 32-bit arithmetic |
| Decoder.ExtendedImmediate | target/hexagon/generator/decoder_gen.py:545-552 | with an extender, bits 0..5 come from the unscaled field and bits 6..31 from the extender word's bits 0..13 and 16..27 |
| Decoder.SubExtended | target/hexagon/generator/decoder_gen.py:947-956 | `sub_execute` applies the same fix-up and clears the extender exactly when it used it |
| Decoder.ExecuteNewRegister | target/hexagon/generator/decoder_gen.py:533-536 | with the corrected `get_destination_reg` of the Findings table: a `.new` operand names the destination its field counts back to, newest first (0 and 1 both name the newest); a field past the list is an invalid reference |
| Decoder.ExecuteRegisterOneRange | target/hexagon/generator/decoder_gen.py:537-543 | a register field of five bits or more is used as is; a narrower field maps 8..15 to r16..r23 |
| Decoder.ExecuteRegisterTwoRanges | target/hexagon/generator/decoder_gen.py:537-543 | a field split over two ranges gets one `+= 8` per range whose running width is still below 5: a field of at most four bits in two pieces maps 8..15 to r24..r31 |
| Decoder.SubRegisterMap | target/hexagon/generator/decoder_gen.py:940-945 | sub-instruction registers land in r0..r7 or r16..r23, one to one; a 64-bit pair lands on an even register |
| Decoder.MatchesIff | target/hexagon/generator/decoder_gen.py:682-698 | `((ir & mask) ^ value) == 0` holds exactly when the masked word is the value |
| Decoder.AccumulateIff | target/hexagon/generator/decoder_gen.py:682-698 | the chain of `ADD_IF_ZERO` survives exactly when at most one candidate with a non-zero id matches, and it then yields that id (or 0) |
| Decoder.PatternMatch | target/hexagon/generator/decoder_gen.py:682-698 | no candidate is an invalid encoding; a single one is chosen without a mask test |
| Decoder.PatternMatchHits | target/hexagon/generator/decoder_gen.py:682-698 | with several candidates: one match is chosen, two or more are exactly the overlap assertion, none gives 0 |
| Packet.ParseBitsRange | target/hexagon/translate.c:364 | the parse bits are one of 0..3, so the switch has no other case |
| Packet.ConstExtBits | target/hexagon/translate.c:392-395 | `const_ext` has bits 0..5 clear, the extender's bits 0..13 at 6..19 and 16..27 at 20..31, and fits 32 bits |
| Packet.DuplexIclassBits | target/hexagon/translate.c:407 | the duplex iclass is bit 13 below bits 29..31 |
| Packet.FirstSubBits | target/hexagon/translate.c:406-418 | the first sub-instruction is bits 16..28 of the word, with its table type from bit 13 up |
| Packet.LastSubBits | target/hexagon/translate.c:406-418 | the last sub-instruction is bits 0..12 of the word, with its table type from bit 13 up |
| Packet.AppendRegsBits | target/hexagon/translate.c:148-159 | `regs_append`: written gains the instruction's written and conditional bits, conditional gains its conditional bits, and the destination list gains its newest destination or -1 |
| Packet.PerformAllJumps | target/hexagon/generator/decoder_gen.py:103-110 | an instruction's macros run to the end exactly when at most two jumps have been taken in the block so far, counting its own (`jump_count` is zeroed only when the block starts) |
| Packet.PerformAllRegs | target/hexagon/generator/decoder_gen.py:66-73 | the instruction's masks gain exactly the registers it names, in written or conditional by section |
| Packet.PerformAllDep | target/hexagon/generator/decoder_gen.py:74-110 | the slot's masks gain exactly the predicates named by `SET_WRITTEN_PRE` / `SET_READ_PRE`, and the jump flag for a first or second jump |
| Packet.MovesMembers | target/hexagon/translate.c:252-269 | each phase moves GPR r iff bit r is set, and CR r iff bit 32+r is set and r is not the PC |
| Packet.MovesAscending | target/hexagon/translate.c:252-269 | those moves come once each, general registers first, by ascending number |
| Packet.EndloopOps | target/hexagon/translate.c:321-343 | the hardware-loop epilogue emits nothing exactly when neither endloop flag is set |
| OpLog.Log.Emit | target/hexagon/translate.c:354 | emitting appends one op with a fresh id and keeps the ids distinct |
| OpLog.Log.MoveRangeAfter | target/hexagon/translate.c:197-213 | moving the run b..e after p removes the run and reinserts it right after p, ids untouched |
| OpLog.MoveAfterPermutes | target/hexagon/translate.c:197-213 | such a move keeps the same ops, still distinct |
| OpLog.MoveNextRun | target/hexagon/translate.c:208-212 | moving the next ordered slot's run after the cursor extends the arranged prefix by that run, and the cursor becomes the run's end |
| Resolver.CollapseBits | target/hexagon/translate.c:161-166 | the collapse has bit b exactly when a placed slot writes predicate b |
| Resolver.PickedExactly | target/hexagon/translate.c:168-185 | one pass places exactly the unplaced slots whose needed predicates are all in the collapse, in ascending slot order |
| Resolver.OrderSound | target/hexagon/translate.c:215-231 | when the placement ends, the order is a permutation of the slots in which each slot's needed predicates are written by slots placed in an earlier pass |
| Resolver.ProgressDone | target/hexagon/translate.c:223-231 | after the last pass the order found is the resolver's order, and `ordering_needed` is its value |
| Resolver.PassStep | target/hexagon/translate.c:223-231 | a pass that places nothing means no order exists (the C loop would spin); otherwise progress is kept |
| Resolver.EndsOnlyIfSupplied | target/hexagon/translate.c:223-231 | an order exists only if every needed predicate is written by some other slot |
| Resolver.OrderingNeededIff | target/hexagon/translate.c:174-185 | reordering is needed exactly when some slot needs a predicate, i.e. the first pass leaves a slot out |
| Resolver.IndependentKeepsOrder | target/hexagon/translate.c:215-236 | with no needed predicates the order is program order and no reordering happens |
| Translate.KeptOrder | target/hexagon/translate.c:233-236 | when no reordering is needed, the ranges already are in the resolver's order |
| Translate.NextAddress | target/hexagon/translate.c:546 | the next word's address wraps at 2^32 |
| Translate.AddrClosed | target/hexagon/translate.c:546 | n steps from a are at (a + 4n) mod 2^32 |
| Translate.PcWriteOps | target/hexagon/translate.c:272-282 | the PC fallback is emitted exactly when the packet wrote the PC (bit 32+9) |
| Translate.EmitMoves | target/hexagon/translate.c:252-259 | one phase of moves appends exactly `Moves(mask, phase)`, and reports the first move emitted, if any |
| Translate.EmitCommits | target/hexagon/translate.c:252-269 | the commit moves and then the reset moves are appended |
| Translate.EmitPrimes | target/hexagon/translate.c:285-310 | the priming moves end up directly after the packet's first op, the rest of the list in its old order after them |
| Translate.ScanPacket | target/hexagon/translate.c:519-531 | the lookahead stops just past the first word whose parse bits end a packet |
| Translate.FirstEndIff | target/hexagon/translate.c:524-528 | the first packet end is at word k exactly when word k ends a packet and none before it does |
| Translate.DisasContext.constructor | target/hexagon/translate.c:494-501 | a fresh context starts a new packet at `pc_start` with no slot, no registers and no dependencies |
| Translate.DisasContext.GenTbStart | target/hexagon/translate.c:516 | the block's op list starts with the `gen_tb_start` op, and holds no `insn_start` yet |
| Translate.DisasContext.ComputeCollapse | target/hexagon/translate.c:161-166 | the loop computes the collapse of the slots placed so far |
| Translate.DisasContext.AddSolvedDeps | target/hexagon/translate.c:168-185 | one pass appends exactly the picked slots to `ordered` and nulls them in `original`, and returns `dc->i` |
| Translate.DisasContext.ResolveOrder | target/hexagon/translate.c:215-231 | the placement loop succeeds exactly when an order exists; `ordered` then holds it and `ordering_needed` is set as the resolver says |
| Translate.DisasContext.MoveRun | target/hexagon/translate.c:208-211 | one step of the move loop: the runs of `ordered[0..k]` follow the ops before the packet in that order, and `pos` is the last op placed |
| Translate.DisasContext.ReorderOps | target/hexagon/translate.c:197-213 | the op list becomes the packet prefix followed by the slot ranges in resolved order |
| Translate.DisasContext.SolveDependencies | target/hexagon/translate.c:215-237 | the ops are reordered only when needed, and always into dependency order; an unresolvable packet changes nothing |
| Translate.DisasContext.CommitPacket | target/hexagon/translate.c:252-282 | the commits, resets and PC fallback are appended, and `pc_written` is set iff the PC was written |
| Translate.DisasContext.PrimeConditionals | target/hexagon/translate.c:285-310 | the priming moves are spliced directly after `packet_first_op` |
| Translate.DisasContext.ResetPacket | target/hexagon/translate.c:312-318 | registers, dependencies, `original`, `ordered` and `is_pre_written` are cleared and `i` is -1 |
| Translate.DisasContext.EndLoops | target/hexagon/translate.c:321-343 | the endloop epilogue is appended, `pc_written` is forced by either flag, and both flags are cleared |
| Translate.DisasContext.ClosePacket | target/hexagon/translate.c:247-310 | a resolvable packet ends with its op list as prefix, primes, reordered body, commits, resets and fallback |
| Translate.DisasContext.HandlePacketEnd | target/hexagon/translate.c:245-344 | packet end succeeds exactly when the dependencies resolve; the context is then idle and `pc_written` records a PC write or an endloop |
| Translate.DisasContext.MarkPacketStart | target/hexagon/translate.c:348-351 | at a packet's first word `packet_first_op` becomes the last op before the packet; the op list keeps its layout |
| Translate.DisasContext.OpenTraceSlot | target/hexagon/translate.c:353-358 | the `PC_trace` op is appended and opens the next slot as its `begin`; the op list stays the prefix followed by the slots' runs |
| Translate.DisasContext.OpenRun | target/hexagon/translate.c:353-358 | the op just emitted becomes the next slot's run and `begin`, and the slots still hold no `insn_start` |
| Translate.PacketEndStarts | target/hexagon/translate.c:245-344 | the ops a packet end emits (primes, commits, resets, fallback, endloop epilogue) and the reordered slot runs add no `insn_start` |
| Translate.DisasContext.BeginSlot | target/hexagon/translate.c:348-358 | a new slot starts with its `PC_trace` op as `begin`; `packet_first_op` is set at a packet's first word |
| Translate.DisasContext.ReadParseBits | target/hexagon/translate.c:364-391 | parse bits 3 and 0 end the packet, 0 also marks a duplex, and 2 sets endloop 0 or 1 only in slot 0 or 1 |
| Translate.DisasContext.ExtenderWord | target/hexagon/translate.c:392-405 | an extender records `const_ext`, closes its own slot and starts the packet |
| Translate.DisasContext.RegsAppend | target/hexagon/translate.c:148-159 | the packet registers absorb the instruction's, and `is_pre_written` tracks bit 32+4 |
| Translate.DisasContext.Run | target/hexagon/translate.c:441-444 | executing an instruction appends its ops to the log and to its slot, and performs its macros; it fails exactly on a third jump |
| Translate.DisasContext.ExecuteDuplex | target/hexagon/translate.c:406-440 | a duplex fails exactly on iclass 15 or a third jump; otherwise both halves run, the extender is consumed and `duplex` is cleared |
| Translate.DisasContext.DecodeWord | target/hexagon/translate.c:346-465 | per word: the endloop flags, the illegal-iclass case, an extender recorded exactly for an extender word, and a PC write already in the packet's written mask stays there |
| Translate.DisasContext.FinishWord | target/hexagon/translate.c:465-476 | at a packet end the packet closes; the block ends exactly on trap0 or a packet end whose packet wrote the PC (bit 32+9 of its written mask) or set an endloop flag |
| Translate.DisasContext.DecodePacket | target/hexagon/translate.c:346-479 | `decode_packet`: a fifth word overflows; iclass 15 fails; a new packet starts exactly after a non-extender packet end; an extender is kept for the next word only; the block ends exactly on a non-extender trap0, or at a non-extender packet end whose written mask (which keeps every earlier PC write of the packet) has the PC bit or whose packet set an endloop flag |
| Translate.DisasContext.DecodeNextWord | target/hexagon/translate.c:346-479 | a word with a slot free: iclass 15 fails; an extender is kept for the next word only; otherwise the slot closes, and a packet end starts a new packet; the block ends exactly on trap0, or at a packet end whose written mask (which keeps every earlier PC write of the packet) has the PC bit or whose packet set an endloop flag |
| Translate.DisasContext.Lookahead | target/hexagon/translate.c:519-531 | `npc` is set past the first packet end ahead, when there is one |
| Translate.DisasContext.StartPacket | target/hexagon/translate.c:519-536 | a packet start sets `npc`, emits one `insn_start` (with the previous `dc->pc`) and sets `dc->pc` to the packet's address; the ops before the packet then hold one more `insn_start` |
| Translate.DisasContext.InsnStartOp | target/hexagon/translate.c:534-535 | `tcg_gen_insn_start` appends one `insn_start` op, which then lies before the packet, so the count of `insn_start` ops there grows by one, as `num_insns` does |
| Translate.DisasContext.TranslateWord | target/hexagon/translate.c:517-547 | one loop iteration moves `old_pc` and `instruction_pc` on by one word and ends the block exactly on a non-extender trap0 or at a non-extender packet end that wrote the PC or set an endloop flag; it adds one `insn_start` exactly when it starts a packet |
| Translate.DisasContext.TranslateBlock | target/hexagon/translate.c:517-547 | the loop translates words from `pc_start` until the block ends; the last word is not an extender; `icount` (`num_insns`) equals the number of `insn_start` ops it emitted |
| Translate.DisasContext.EndBlock | target/hexagon/translate.c:550-551 | the block ends with `exit_tb` and then `gen_tb_end` with the instruction count, adding no `insn_start` |
| Translate.SizeOfWords | target/hexagon/translate.c:553 | the block size is four bytes per word, in 32-bit arithmetic |
| Translate.GenIntermediateCode | target/hexagon/translate.c:482-555 | an unaligned start aborts; a translated block's `icount` is at least one and equals the number of `insn_start` ops in its op list; its size is 4 bytes per word, it does not end on an extender, and it ends with `exit_tb` and `gen_tb_end` |
| Translate.TranslateAligned | target/hexagon/translate.c:494-555 | an aligned block: the same promises as `GenIntermediateCode`, `icount` equal to the `insn_start` ops emitted |
| BestDecoding.ExtractBits | target/hexagon/generator/best-decoding.c:84-89 | bit `Choice[I]` of the value becomes bit I of the result, nothing else is set, and the result is below 2^Size |
| BestDecoding.QuickTest | target/hexagon/generator/best-decoding.c:91-99 | the four asserted examples hold |
| BestDecoding.FilterMembers | target/hexagon/generator/best-decoding.c:113-120 | the filter keeps exactly the instructions compatible with the fixed bits |
| BestDecoding.SelectTargets | target/hexagon/generator/best-decoding.c:113-120 | the compatible instructions are copied to the front of the target buffer in table order, and the count is theirs |
| BestDecoding.ClearBitsAscending | target/hexagon/generator/best-decoding.c:122-127 | the choosable positions are exactly the positions below 32 the mask leaves clear, ascending |
| BestDecoding.Choosable | target/hexagon/generator/best-decoding.c:122-127 | the loop lists those positions |
| BestDecoding.InitCombination | target/hexagon/generator/best-decoding.c:129-132 | the first combination is 0..Bits-1 |
| BestDecoding.FirstCombination | target/hexagon/generator/best-decoding.c:129-132 | the first combination is one, and no combination comes before it |
| BestDecoding.NextCombination | target/hexagon/generator/best-decoding.c:176-187 | the step yields the successor combination, or reports the last one with K = -1 |
| BestDecoding.SuccessorAfter | target/hexagon/generator/best-decoding.c:176-187 | the successor is a combination and comes after the current one |
| BestDecoding.SuccessorIsNext | target/hexagon/generator/best-decoding.c:176-187 | no combination lies strictly between a combination and its successor |
| BestDecoding.LastCombination | target/hexagon/generator/best-decoding.c:176-187 | when no index can move, no combination comes after |
| BestDecoding.RankUp | target/hexagon/generator/best-decoding.c:134-189 | each step raises the combination's rank, which stays below n^Bits: the search ends |
| BestDecoding.RealChoiceClear | target/hexagon/generator/best-decoding.c:137-140 | a combination stands for strictly ascending positions below 32 that the mask leaves clear |
| BestDecoding.KeepChosenBits | target/hexagon/generator/best-decoding.c:142-150 | every candidate's value and mask are gathered at the chosen positions |
| BestDecoding.CountMatches | target/hexagon/generator/best-decoding.c:152-167 | `TotalMatches` is the number of agreeing (pattern, candidate) pairs modulo 2^32, as the `unsigned` counter wraps, and `Options` is 2^Bits less the patterns no candidate agrees with |
| BestDecoding.ScoreExact | target/hexagon/generator/best-decoding.c:152-163 | while 2^Bits times the number of candidates is below 2^32, the score's `TotalMatches` is the exact count |
| BestDecoding.AllFreeCount | target/hexagon/generator/best-decoding.c:154-163 | candidates that fix no bit agree with every pattern, so each pattern adds one match per candidate |
| BestDecoding.ScoreWraps | target/hexagon/generator/best-decoding.c:152-163 | four candidates that fix no bit, on 30 chosen bits, agree 2^32 times and the `unsigned` count ends at 0 |
| BestDecoding.CountBounds | target/hexagon/generator/best-decoding.c:152-167 | every pattern some candidate agrees with adds at least one match, and none adds more than one per candidate |
| BestDecoding.Search | target/hexagon/generator/best-decoding.c:134-189 | the search visits the first combination and then each successor up to the last one, and counts the matches of each (modulo 2^32) |
| BestDecoding.ChildMask | target/hexagon/generator/best-decoding.c:227-229 | a child fixes the parent's bits and the chosen ones |
| BestDecoding.ChildValue | target/hexagon/generator/best-decoding.c:237-240 | a child's value is the parent's with chosen bit i set where bit i of L is |
| BestDecoding.ChildRoundTrip | target/hexagon/generator/best-decoding.c:227-240 | reading a child's value back at the chosen bits gives L, and a child sets no bit outside its mask |
| BestDecoding.LeafIsFilter | target/hexagon/generator/best-decoding.c:275-285 | a leaf lists exactly the compatible instructions, in table order, as the filter would keep them |
| BestDecoding.LeafInstructions | target/hexagon/generator/best-decoding.c:275-285 | the leaf loop lists the indices of the compatible instructions |
| BestDecodingInput.CheckArguments | target/hexagon/generator/best-decoding.c:316-339 | usage below three arguments; an assertion at 32 accesses or more; an error naming the first access whose bits are not in 1..32; otherwise the bits, whose total is checked to be below 32 |
| BestDecodingInput.ReadInstructions | target/hexagon/generator/best-decoding.c:353-415 | the reading loop keeps what the character-by-character reader keeps |
| BestDecodingInput.TokenLine | target/hexagon/generator/best-decoding.c:398-414 | 32 single-character tokens, each ended by a separator, fill 32 bits from bit 31 down: '0'/'1' fix a bit and '1' sets it |
| BestDecodingInput.TableLine | target/hexagon/generator/best-decoding.c:368-393 | a well-formed table line adds exactly one instruction with those bits |
| BestDecodingInput.AdjacentTokensDropLine | target/hexagon/generator/best-decoding.c:395-414 | two non-separators in a row corrupt the line, which then adds nothing |
| BestDecodingInput.LastTokenNeedsSeparator | target/hexagon/generator/best-decoding.c:368-414 | a line whose last token meets the newline directly has only 31 bits and adds nothing |

## Left out

- Floating point: the score of a combination and the choice of the best one (`BestScore`, `BestChoice` and their `memcpy`). The model keeps the integer counts the score is computed from.
- `go`'s recursion and the JSON output of `best-decoding.c`: `printWithColors`, the `Colors` assertion, the `print*` helpers and the final dump. Their value, mask and leaf computations are modelled. `compareInstructions` only serves output.
- File and argument I/O: `fopen` and its failure, `realloc` of the buffer, and `atoi` itself. The arguments are given as the numbers `atoi` makes; the file is given as its characters.
- `parse_op`, `extract_shift`, `find_op`'s lookup, `to_regex`, `to_extender_regex`, `extendable_index` and `to_format_string` depend on Python's `re` library. Which immediate is extendable is a parameter.
- Also from `decoder_gen.py`: `LOG_DIS`, file writing, CSV/JSON reading, the `subprocess` call to the semantics compiler, `analyse_inst_mapping` and the coverage counters.
- Decoder.IsDigit: digits are ASCII '0'..'9' only. Python's `isdigit` also accepts other Unicode digits, which the placeholders never contain.
- Decoder.GroupRanges: states the ranges of the identifiers asked for. What the result holds for other letters is not stated.
- TCG itself. Emitted ops are records in `OpLog.Log`. `tcg_last_op`, `tcg_op_move_range_after` and the `tcg_gen_*` calls are its methods.
- The generated `decode`, `sub_decode`, `execute`, `sub_execute` and `endloop*` bodies, and guest memory, are the `Packet.Backend` parameter.
- `clear_d_reg_helper` (`translate.c:118-134`) only frees list nodes, so it is not modelled. `extend_destination_reg` is modelled as keeping the instruction's newest destination.
- `LOG_DIS`, `print_op`, the `qemu_log` of `reorder_ops`, `DUMP_EVERY_INST`, `hexagon_tcg_init` and `hexagon_cpu_dump_state`.
- `max_insns` is computed but never used.
- Translate.DisasContext.TranslateBlock: the C loop has no bound of its own. The model translates at most `fuel` words and reports `Unfinished` past that.
- Translate.GenIntermediateCode: takes the same `fuel` bound.
- Statuses for failures and non-termination in the C code:
  - `NoPacketEnd`: the lookahead never returns.
  - `Unresolvable`: `solve_dependencies` loops forever.
  - `SlotOverflow`: a fifth word writes `deps[4]`.
  - `IllegalDuplexIclass` and `ThirdJump`: assertion failures.
- Translate.DisasContext.HandlePacketEnd: states the status, the cleared state and `pc_written`. The exact op list is stated by `ClosePacket` and `FinishPacket`, which it calls.
- Translate.DisasContext.DecodePacket: states the packet state, the extender, `new_packet`, `block_end` and the failure cases. Its exact op list is stated by the members it calls: `BeginSlot`, `Run`, `ClosePacket` and `FinishPacket`.
- Translate.DisasContext.DecodeNextWord: the same as `DecodePacket`. Its op list is stated by the members it calls.
- Translate.DisasContext.DecodePacket: the packet's written mask at the close is a ghost result. The contract states that it keeps every earlier PC write of the packet, and that it is the packet's mask when the word does not close the packet. The bits the word's own instruction adds are stated by `Run`.
- Translate.DisasContext.DecodeNextWord: the same written-mask result as `DecodePacket`.
- Translate.DisasContext.TranslateWord: the same written-mask result, stated as keeping every earlier PC write of the packet.
- Translate.DisasContext.ExecuteDuplex: does not restate the ops and register effects of each half, which `Run` states.
- Translate.DisasContext.DecodeWord: same as `ExecuteDuplex`.
- Decoder.ExecuteNewRegister: uses the corrected `get_destination_reg` of the Findings table. For a field one past the list, the generated code as written reads through NULL (`Registers.GetDestinationRegAsWritten` gives `NullDereference`); this member reports `InvalidReference`.
- Decoder.ExtractRanges: a `.new` register whose last range ends at position 0 of the encoding makes the extraction fail. The Python builds `Range(start, -1)` there and goes on, but range ends are natural numbers here. The first positions of a Hexagon encoding hold the instruction class, so no `.new` field ends there.
- Registers.SetWrittenPre: the C masks are `uint8_t`, and the model does not truncate to 8 bits. Every caller passes a bit below 8, where truncation changes nothing.
- Registers.SetReadPre: the same 8-bit caveat as `SetWrittenPre`.
- Registers.SetJumpFlag: the third jump's `assert` is the `TooManyJumps` outcome.
- Registers.AddIfZero: the overlap assertion is the `Overlapping` outcome, not an abort.
- Decoder.PatternMatch: the assertions of the emitted matching code are the `InvalidEncoding` and `OverlappingEncodings` outcomes, not aborts.

### Where the code and the design description differ (the model follows the code)

- The constant extender is cleared before the second (slot 0) sub-instruction of a duplex runs. So the first sub-instruction, from bits 16..28, is the one that can use it.
- The dependency masks `deps_t.read` and `deps_t.written` are 8-bit predicate masks with a jump flag at bit 4, not register sets.
- `ordering_needed` is set whenever the first pass leaves a slot out, even when the final order equals program order.
- `tcg_gen_insn_start` records `dc->pc` before it is updated, so it records the previous packet's address (the block's start for the first packet).
- The shift in `SET_JUMP_FLAG`'s `1 << 4` and in the mask tests of `best-decoding.c` are written as plain powers of two. The C `1 << 31` on `int` is formally undefined behaviour.

## Findings

| source | as written | input that shows it | evidently intended | confidence | as-written member | corrected member |
|---|---|---|---|---|---|---|
| target/hexagon/generator/decoder_gen.py:225-234 | `get_destination_reg` asserts that the node exists before each step of its walk but not after the last step, then reads `reg_list->index` | a destination list of one register and `t = 2`: the walk steps to NULL and the read dereferences it | the invalid-reference assertion for every t beyond the list's length | not executed | Registers.GetDestinationRegAsWritten | Registers.GetDestinationReg |
