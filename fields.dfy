/**
 * Bit-field extraction on 32-bit instruction words.
 *
 * Two numbering conventions meet here. The translator's `EXTRACT_FIELD`
 * counts bits from the least significant end, as C does. The decoder
 * generator's `EXTR` macros count from the most significant end, because
 * they take their positions from the instruction encoding strings, whose
 * first character is bit 31. `EXTR_BITS_n` gathers single LSB-numbered bits.
 */
module Fields {
  import opened Wrappers
  import opened Bits

  /** A run of positions `start..end` (inclusive) in an encoding string. */
  datatype Range = Range(start: nat, end: nat)

  /** Bit `p` of a 32-bit word when bit 0 is the most significant one. */
  predicate MsbBit(src: nat, p: nat)
  {
    p <= 31 && Bit(src, 31 - p)
  }

  /** The positions `s, s+1, .., e`. */
  function Span(s: nat, e: nat): (ps: seq<nat>)
    requires s <= e
    ensures |ps| == e - s + 1
    ensures forall k :: 0 <= k < |ps| ==> ps[k] == s + k
  {
    seq(e - s + 1, k => s + k)
  }

  /** Every range of the list is one `EXTR` can take: inside the word, narrower than it. */
  predicate ValidRanges(rs: seq<Range>)
  {
    forall i :: 0 <= i < |rs| ==> rs[i].start <= rs[i].end <= 31 && rs[i].end - rs[i].start + 1 < 32
  }

  function Width(r: Range): nat
    requires r.start <= r.end
  {
    r.end - r.start + 1
  }

  /** All positions covered by a list of ranges, range after range. */
  function Positions(rs: seq<Range>): seq<nat>
    requires ValidRanges(rs)
  {
    if rs == [] then [] else Positions(rs[..|rs| - 1]) + Span(rs[|rs| - 1].start, rs[|rs| - 1].end)
  }

  /**
   * Reference reading of a field: the word's bits at the given MSB-numbered
   * positions, the first position becoming the most significant result bit.
   */
  function ReadField(src: nat, ps: seq<nat>): nat
  {
    if ps == [] then 0 else 2 * ReadField(src, ps[..|ps| - 1]) + B2N(MsbBit(src, ps[|ps| - 1]))
  }

  /** Reference gathering: bit `cs[k]` of `v` (LSB-numbered) becomes result bit k. */
  function GatherBits(v: nat, cs: seq<nat>): nat
  {
    if cs == [] then 0 else 2 * GatherBits(v, cs[1..]) + B2N(Bit(v, cs[0]))
  }

  /** Result bit k of `ReadField` is the k-th position counted from the last one. */
  lemma {:induction false} ReadFieldBits(src: nat, ps: seq<nat>)
    ensures forall k: nat {:trigger Bit(ReadField(src, ps), k)} ::
      Bit(ReadField(src, ps), k) == (k < |ps| && MsbBit(src, ps[|ps| - 1 - k]))
  {
    if ps == [] {
      ZeroBits();
    } else {
      var h := ReadField(src, ps[..|ps| - 1]);
      ReadFieldBits(src, ps[..|ps| - 1]);
      StepBits(ReadField(src, ps), h, B2N(MsbBit(src, ps[|ps| - 1])));
    }
  }

  /** Result bit k of `GatherBits` is bit `cs[k]` of the source; nothing above `|cs|`. */
  lemma {:induction false} GatherBitsBits(v: nat, cs: seq<nat>)
    ensures forall k: nat {:trigger Bit(GatherBits(v, cs), k)} ::
      Bit(GatherBits(v, cs), k) == (k < |cs| && Bit(v, cs[k]))
    ensures GatherBits(v, cs) < Pow2(|cs|)
  {
    if cs == [] {
      ZeroBits();
    } else {
      GatherBitsBits(v, cs[1..]);
      StepBits(GatherBits(v, cs), GatherBits(v, cs[1..]), B2N(Bit(v, cs[0])));
    }
  }

  // ---------------------------------------------------------------------
  // translate.c: EXTRACT_FIELD and EXTRACT_FIELD_2 (LSB numbering)
  // ---------------------------------------------------------------------

  /** `EXTRACT_FIELD(src, start, end)` */
  function ExtractField(src: nat, start: nat, end: nat): nat
    requires start <= end
  {
    Low(Shr(src, start), end - start + 1)
  }

  /** `EXTRACT_FIELD_2(src, start, end, start2, end2)` */
  function ExtractField2(src: nat, start: nat, end: nat, start2: nat, end2: nat): nat
    requires start <= end && start2 <= end2
  {
    Or(Shl(ExtractField(src, start2, end2), end - start + 1), ExtractField(src, start, end))
  }

  /** `EXTRACT_FIELD` moves bits `start..end` down to bit 0 and keeps nothing else. */
  lemma ExtractFieldBits(src: nat, start: nat, end: nat)
    requires start <= end
    ensures forall k: nat {:trigger Bit(ExtractField(src, start, end), k)} ::
      Bit(ExtractField(src, start, end), k) == (k <= end - start && Bit(src, start + k))
    ensures ExtractField(src, start, end) < Pow2(end - start + 1)
  {
    ShrBits(src, start);
    LowBits(Shr(src, start), end - start + 1);
    LowBound(Shr(src, start), end - start + 1);
  }

  /** `EXTRACT_FIELD_2` places the field `start2..end2` directly above the field `start..end`. */
  lemma ExtractField2Bits(src: nat, start: nat, end: nat, start2: nat, end2: nat)
    requires start <= end && start2 <= end2
    ensures forall k: nat {:trigger Bit(ExtractField2(src, start, end, start2, end2), k)} ::
      Bit(ExtractField2(src, start, end, start2, end2), k) ==
        (if k <= end - start then Bit(src, start + k)
         else k - (end - start + 1) <= end2 - start2 && Bit(src, start2 + k - (end - start + 1)))
    ensures ExtractField2(src, start, end, start2, end2) < Pow2(end - start + end2 - start2 + 2)
  {
    var lo, hi := ExtractField(src, start, end), ExtractField(src, start2, end2);
    ExtractFieldBits(src, start, end);
    ExtractFieldBits(src, start2, end2);
    ShlBits(hi, end - start + 1);
    OrBits(Shl(hi, end - start + 1), lo);
    HighClear(ExtractField2(src, start, end, start2, end2), end - start + end2 - start2 + 2);
  }

  // ---------------------------------------------------------------------
  // decoder_gen.py: EXTR, EXTR_2, EXTR_3, EXTR_4 (MSB numbering)
  // ---------------------------------------------------------------------

  /** `EXTR(src, start, end)` */
  function Extr(src: nat, start: nat, end: nat): nat
    requires start <= end <= 31
  {
    Low(Shr(src, 31 - end), end - start + 1)
  }

  /** `EXTR_2`: the first range in the high bits. */
  function Extr2(src: nat, start: nat, end: nat, start2: nat, end2: nat): nat
    requires start <= end <= 31 && start2 <= end2 <= 31
  {
    Or(Shl(Extr(src, start, end), end2 - start2 + 1), Extr(src, start2, end2))
  }

  /** `EXTR_3` */
  function Extr3(src: nat, start: nat, end: nat, start2: nat, end2: nat, start3: nat, end3: nat): nat
    requires start <= end <= 31 && start2 <= end2 <= 31 && start3 <= end3 <= 31
  {
    Or(Or(Shl(Extr(src, start, end), end2 - start2 + end3 - start3 + 2),
          Shl(Extr(src, start2, end2), end3 - start3 + 1)),
       Extr(src, start3, end3))
  }

  /** `EXTR_4` */
  function Extr4(src: nat, start: nat, end: nat, start2: nat, end2: nat,
                 start3: nat, end3: nat, start4: nat, end4: nat): nat
    requires start <= end <= 31 && start2 <= end2 <= 31
    requires start3 <= end3 <= 31 && start4 <= end4 <= 31
  {
    Or(Or(Or(Shl(Extr(src, start, end), end2 - start2 + end3 - start3 + end4 - start4 + 3),
             Shl(Extr(src, start2, end2), end3 - start3 + end4 - start4 + 2)),
          Shl(Extr(src, start3, end3), end4 - start4 + 1)),
       Extr(src, start4, end4))
  }

  /**
   * The `raw_value = EXTR_n(dc->ir, ...)` line the generator emits for an
   * operand with n ranges; no line at all (None) for none or more than four.
   */
  function EmittedRaw(src: nat, rs: seq<Range>): (r: Option<nat>)
    requires ValidRanges(rs)
    ensures r.Some? <==> 1 <= |rs| <= 4
  {
    if |rs| == 1 then Some(Extr(src, rs[0].start, rs[0].end))
    else if |rs| == 2 then Some(Extr2(src, rs[0].start, rs[0].end, rs[1].start, rs[1].end))
    else if |rs| == 3 then
      Some(Extr3(src, rs[0].start, rs[0].end, rs[1].start, rs[1].end, rs[2].start, rs[2].end))
    else if |rs| == 4 then
      Some(Extr4(src, rs[0].start, rs[0].end, rs[1].start, rs[1].end,
                 rs[2].start, rs[2].end, rs[3].start, rs[3].end))
    else None
  }

  /** `EXTR` reads exactly the span it is given, MSB first. */
  lemma ExtrReads(src: nat, s: nat, e: nat)
    requires s <= e <= 31
    ensures Extr(src, s, e) == ReadField(src, Span(s, e))
  {
    ShrBits(src, 31 - e);
    LowBits(Shr(src, 31 - e), e - s + 1);
    ReadFieldBits(src, Span(s, e));
    BitsEqual(Extr(src, s, e), ReadField(src, Span(s, e)));
  }

  /** Reading a concatenation of positions shifts the first part above the second. */
  lemma ReadFieldAppend(src: nat, a: seq<nat>, b: seq<nat>)
    ensures ReadField(src, a + b) == Or(Shl(ReadField(src, a), |b|), ReadField(src, b))
  {
    var x, y := ReadField(src, a + b), Or(Shl(ReadField(src, a), |b|), ReadField(src, b));
    ReadFieldBits(src, a + b);
    ReadFieldBits(src, a);
    ReadFieldBits(src, b);
    ShlBits(ReadField(src, a), |b|);
    OrBits(Shl(ReadField(src, a), |b|), ReadField(src, b));
    forall k: nat ensures Bit(x, k) == Bit(y, k) {
      if k < |b| {
        assert (a + b)[|a + b| - 1 - k] == b[|b| - 1 - k];
      } else if k < |a| + |b| {
        assert (a + b)[|a + b| - 1 - k] == a[|a| - 1 - (k - |b|)];
      }
    }
    BitsEqual(x, y);
  }

  lemma PositionsPrefix(rs: seq<Range>, j: nat)
    requires ValidRanges(rs) && j < |rs|
    ensures Positions(rs[..j + 1]) == Positions(rs[..j]) + Span(rs[j].start, rs[j].end)
  {
    assert rs[..j + 1][..j] == rs[..j];
  }

  /** Reading the positions of the first j+1 ranges, in terms of the first j. */
  lemma ReadPrefix(src: nat, rs: seq<Range>, j: nat)
    requires ValidRanges(rs) && j < |rs|
    ensures ReadField(src, Positions(rs[..j + 1]))
      == Or(Shl(ReadField(src, Positions(rs[..j])), Width(rs[j])), Extr(src, rs[j].start, rs[j].end))
  {
    PositionsPrefix(rs, j);
    ReadFieldAppend(src, Positions(rs[..j]), Span(rs[j].start, rs[j].end));
    ExtrReads(src, rs[j].start, rs[j].end);
  }

  lemma ShlOr(a: nat, b: nat, s: nat)
    ensures Shl(Or(a, b), s) == Or(Shl(a, s), Shl(b, s))
  {
    OrBits(a, b);
    ShlBits(Or(a, b), s);
    ShlBits(a, s);
    ShlBits(b, s);
    OrBits(Shl(a, s), Shl(b, s));
    BitsEqual(Shl(Or(a, b), s), Or(Shl(a, s), Shl(b, s)));
  }

  lemma ShlShl(a: nat, s: nat, t: nat)
    ensures Shl(Shl(a, s), t) == Shl(a, s + t)
  {
    ShlBits(a, s);
    ShlBits(Shl(a, s), t);
    ShlBits(a, s + t);
    BitsEqual(Shl(Shl(a, s), t), Shl(a, s + t));
  }

  lemma OrShlZero(a: nat, s: nat)
    ensures Or(Shl(0, s), a) == a
  {
    ZeroBits();
    ShlBits(0, s);
    OrBits(Shl(0, s), a);
    BitsEqual(Or(Shl(0, s), a), a);
  }

  lemma ReadFirst(src: nat, rs: seq<Range>)
    requires ValidRanges(rs) && 1 <= |rs|
    ensures ReadField(src, Positions(rs[..1])) == Extr(src, rs[0].start, rs[0].end)
  {
    assert rs[..0] == [];
    ReadPrefix(src, rs, 0);
    OrShlZero(Extr(src, rs[0].start, rs[0].end), Width(rs[0]));
  }

  lemma ReadTwo(src: nat, rs: seq<Range>)
    requires ValidRanges(rs) && 2 <= |rs|
    ensures ReadField(src, Positions(rs[..2]))
      == Extr2(src, rs[0].start, rs[0].end, rs[1].start, rs[1].end)
  {
    ReadFirst(src, rs);
    ReadPrefix(src, rs, 1);
  }

  /** `EXTR_3` of three ranges, with its shift amounts as range widths. */
  lemma Extr3Shape(src: nat, r0: Range, r1: Range, r2: Range)
    requires r0.start <= r0.end <= 31 && r1.start <= r1.end <= 31 && r2.start <= r2.end <= 31
    ensures Extr3(src, r0.start, r0.end, r1.start, r1.end, r2.start, r2.end)
      == Or(Or(Shl(Extr(src, r0.start, r0.end), Width(r1) + Width(r2)),
               Shl(Extr(src, r1.start, r1.end), Width(r2))),
            Extr(src, r2.start, r2.end))
  {
  }

  /** `EXTR_4` of four ranges, with its shift amounts as range widths. */
  lemma Extr4Shape(src: nat, r0: Range, r1: Range, r2: Range, r3: Range)
    requires r0.start <= r0.end <= 31 && r1.start <= r1.end <= 31
    requires r2.start <= r2.end <= 31 && r3.start <= r3.end <= 31
    ensures Extr4(src, r0.start, r0.end, r1.start, r1.end, r2.start, r2.end, r3.start, r3.end)
      == Or(Or(Or(Shl(Extr(src, r0.start, r0.end), Width(r1) + Width(r2) + Width(r3)),
                  Shl(Extr(src, r1.start, r1.end), Width(r2) + Width(r3))),
               Shl(Extr(src, r2.start, r2.end), Width(r3))),
            Extr(src, r3.start, r3.end))
  {
  }

  lemma ReadThree(src: nat, rs: seq<Range>)
    requires ValidRanges(rs) && 3 <= |rs|
    ensures ReadField(src, Positions(rs[..3]))
      == Extr3(src, rs[0].start, rs[0].end, rs[1].start, rs[1].end, rs[2].start, rs[2].end)
  {
    var e0, e1, e2 := Extr(src, rs[0].start, rs[0].end), Extr(src, rs[1].start, rs[1].end),
                      Extr(src, rs[2].start, rs[2].end);
    var w1, w2 := Width(rs[1]), Width(rs[2]);
    calc {
      ReadField(src, Positions(rs[..3]));
    == { ReadPrefix(src, rs, 2); }
      Or(Shl(ReadField(src, Positions(rs[..2])), w2), e2);
    == { ReadTwo(src, rs); }
      Or(Shl(Or(Shl(e0, w1), e1), w2), e2);
    == { ShlOr(Shl(e0, w1), e1, w2); ShlShl(e0, w1, w2); }
      Or(Or(Shl(e0, w1 + w2), Shl(e1, w2)), e2);
    == { Extr3Shape(src, rs[0], rs[1], rs[2]); }
      Extr3(src, rs[0].start, rs[0].end, rs[1].start, rs[1].end, rs[2].start, rs[2].end);
    }
  }

  /** Shifting a three-part concatenation up to make room for a fourth part. */
  lemma ShlThree(e0: nat, e1: nat, e2: nat, e3: nat, w1: nat, w2: nat, w3: nat)
    ensures Or(Shl(Or(Or(Shl(e0, w1 + w2), Shl(e1, w2)), e2), w3), e3)
      == Or(Or(Or(Shl(e0, w1 + w2 + w3), Shl(e1, w2 + w3)), Shl(e2, w3)), e3)
  {
    var t := Or(Shl(e0, w1 + w2), Shl(e1, w2));
    ShlOr(t, e2, w3);
    ShlOr(Shl(e0, w1 + w2), Shl(e1, w2), w3);
    ShlShl(e0, w1 + w2, w3);
    ShlShl(e1, w2, w3);
  }

  lemma ReadFour(src: nat, rs: seq<Range>)
    requires ValidRanges(rs) && 4 <= |rs|
    ensures ReadField(src, Positions(rs[..4]))
      == Extr4(src, rs[0].start, rs[0].end, rs[1].start, rs[1].end,
               rs[2].start, rs[2].end, rs[3].start, rs[3].end)
  {
    var e0, e1, e2, e3 := Extr(src, rs[0].start, rs[0].end), Extr(src, rs[1].start, rs[1].end),
                          Extr(src, rs[2].start, rs[2].end), Extr(src, rs[3].start, rs[3].end);
    ReadPrefix(src, rs, 3);
    ReadThree(src, rs);
    Extr3Shape(src, rs[0], rs[1], rs[2]);
    ShlThree(e0, e1, e2, e3, Width(rs[1]), Width(rs[2]), Width(rs[3]));
    Extr4Shape(src, rs[0], rs[1], rs[2], rs[3]);
  }

  /**
   * The emitted extraction reads the operand's bits in the order of its
   * ranges: whatever the number of ranges from one to four, `raw_value` is
   * the reference reading of all covered positions, first range highest.
   */
  lemma EmittedRawReads(src: nat, rs: seq<Range>)
    requires ValidRanges(rs)
    requires 1 <= |rs| <= 4
    ensures EmittedRaw(src, rs) == Some(ReadField(src, Positions(rs)))
  {
    assert rs[..|rs|] == rs;
    if |rs| == 1 {
      ReadFirst(src, rs);
    } else if |rs| == 2 {
      ReadTwo(src, rs);
    } else if |rs| == 3 {
      ReadThree(src, rs);
    } else {
      ReadFour(src, rs);
    }
  }

  // ---------------------------------------------------------------------
  // decoder_gen.py: EXTR_BITS_n (LSB numbering, one bit per argument)
  // ---------------------------------------------------------------------

  /** `EXTR_BITS(src, x)`: bit x of src as 0 or 1. */
  function ExtrBit(src: nat, x: nat): nat
  {
    Low(Shr(src, x), 1)
  }

  function ExtrBits2(src: nat, x: nat, y: nat): nat
  {
    Or(ExtrBit(src, x), Shl(ExtrBit(src, y), 1))
  }

  function ExtrBits3(src: nat, x: nat, y: nat, z: nat): nat
  {
    Or(ExtrBits2(src, x, y), Shl(ExtrBit(src, z), 2))
  }

  function ExtrBits4(src: nat, x: nat, y: nat, z: nat, a: nat): nat
  {
    Or(ExtrBits2(src, x, y), Shl(ExtrBits2(src, z, a), 2))
  }

  function ExtrBits5(src: nat, x: nat, y: nat, z: nat, a: nat, b: nat): nat
  {
    Or(ExtrBits4(src, x, y, z, a), Shl(ExtrBit(src, b), 4))
  }

  function ExtrBits6(src: nat, x: nat, y: nat, z: nat, a: nat, b: nat, c: nat): nat
  {
    Or(ExtrBits3(src, x, y, z), Shl(ExtrBits3(src, a, b, c), 3))
  }

  /** Gathering `xs` then `ys` shifted above it is gathering `xs + ys`. */
  lemma GatherAppend(src: nat, xs: seq<nat>, ys: seq<nat>)
    ensures Or(GatherBits(src, xs), Shl(GatherBits(src, ys), |xs|)) == GatherBits(src, xs + ys)
  {
    GatherBitsBits(src, xs);
    GatherBitsBits(src, ys);
    GatherBitsBits(src, xs + ys);
    ShlBits(GatherBits(src, ys), |xs|);
    OrBits(GatherBits(src, xs), Shl(GatherBits(src, ys), |xs|));
    BitsEqual(Or(GatherBits(src, xs), Shl(GatherBits(src, ys), |xs|)), GatherBits(src, xs + ys));
  }

  lemma ExtrBitGather(src: nat, x: nat)
    ensures ExtrBit(src, x) == GatherBits(src, [x])
  {
    ShrBits(src, x);
    LowBits(Shr(src, x), 1);
    GatherBitsBits(src, [x]);
    BitsEqual(ExtrBit(src, x), GatherBits(src, [x]));
  }

  /**
   * Each `EXTR_BITS_n`, however its macro nests the smaller ones, puts the
   * k-th listed bit of src at result bit k.
   */
  lemma ExtrBitsGather(src: nat, x: nat, y: nat, z: nat, a: nat, b: nat, c: nat)
    ensures ExtrBits2(src, x, y) == GatherBits(src, [x, y])
    ensures ExtrBits3(src, x, y, z) == GatherBits(src, [x, y, z])
    ensures ExtrBits4(src, x, y, z, a) == GatherBits(src, [x, y, z, a])
    ensures ExtrBits5(src, x, y, z, a, b) == GatherBits(src, [x, y, z, a, b])
    ensures ExtrBits6(src, x, y, z, a, b, c) == GatherBits(src, [x, y, z, a, b, c])
  {
    ExtrBitGather(src, x);
    ExtrBitGather(src, y);
    ExtrBitGather(src, z);
    ExtrBitGather(src, a);
    ExtrBitGather(src, b);
    ExtrBitGather(src, c);
    GatherAppend(src, [x], [y]);
    assert [x] + [y] == [x, y];
    GatherAppend(src, [x, y], [z]);
    assert [x, y] + [z] == [x, y, z];
    GatherAppend(src, [z], [a]);
    assert [z] + [a] == [z, a];
    GatherAppend(src, [x, y], [z, a]);
    assert [x, y] + [z, a] == [x, y, z, a];
    GatherAppend(src, [x, y, z, a], [b]);
    assert [x, y, z, a] + [b] == [x, y, z, a, b];
    GatherAppend(src, [a], [b]);
    assert [a] + [b] == [a, b];
    GatherAppend(src, [a, b], [c]);
    assert [a, b] + [c] == [a, b, c];
    GatherAppend(src, [x, y, z], [a, b, c]);
    assert [x, y, z] + [a, b, c] == [x, y, z, a, b, c];
  }
}
