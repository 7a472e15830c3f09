/**
 * The operand side of the decoder generator.
 *
 * An instruction is described by a syntax string (`Rd=add(Rs,#s16)`) and
 * an encoding string of 32 letters, one per bit, most significant first
 * (`1011iiiiiiisssssPPiiiiiiiiiddddd`). The generator parses the operand
 * placeholders of the syntax string (`find_integer`, `extract_const`,
 * `extract_reg`), cuts the encoding string into the bit ranges of each
 * operand (`gen_extract_op`), and emits C that extracts, scales and fixes
 * up each operand at run time (`gen_execute`, `gen_sub_execute`), plus the
 * mask tests that tell apart instructions sharing a decode-tree leaf
 * (`gen_pattern_matching`). The generator's string work is modelled here;
 * what the emitted C computes is modelled as functions of the instruction
 * word and the translator's extender state.
 */
module Decoder {
  import opened Wrappers
  import opened Bits
  import opened Fields
  import opened Registers
  import opened Packet

  // ---------------------------------------------------------------------
  // Numbers inside placeholders
  // ---------------------------------------------------------------------

  predicate IsDigit(c: char)
  {
    '0' <= c <= '9'
  }

  predicate IsLower(c: char)
  {
    'a' <= c <= 'z'
  }

  predicate AllDigits(s: string)
  {
    forall k :: 0 <= k < |s| ==> IsDigit(s[k])
  }

  /** Length of the run of decimal digits at the front of `s`. */
  function DigitRun(s: string): (n: nat)
    ensures n <= |s| && AllDigits(s[..n])
    ensures n == |s| || !IsDigit(s[n])
  {
    if s == [] || !IsDigit(s[0]) then 0
    else
      var m := DigitRun(s[1..]);
      assert s[..m + 1] == [s[0]] + s[1..][..m];
      m + 1
  }

  /**
   * `find_integer`: the index of the first character that is not a digit,
   * or the length of the string when there is none.
   */
  method FindInteger(s: string) returns (n: nat)
    ensures n <= |s| && AllDigits(s[..n])
    ensures n == |s| || !IsDigit(s[n])
    ensures n == DigitRun(s)
  {
    n := 0;
    while n < |s|
      invariant n <= |s| && AllDigits(s[..n])
    {
      if !IsDigit(s[n]) {
        return;
      }
      n := n + 1;
    }
  }

  /** `int(ds)` for a string of decimal digits (Python's `int("")` raises, so callers check for that). */
  function Decimal(ds: string): nat
    requires AllDigits(ds)
  {
    if ds == [] then 0 else 10 * Decimal(ds[..|ds| - 1]) + (ds[|ds| - 1] as int - '0' as int)
  }

  /** The decimal numeral of n, without leading zeros. */
  function Numeral(n: nat): (ds: string)
    ensures ds != [] && AllDigits(ds)
  {
    if n < 10 then [('0' as int + n) as char] else Numeral(n / 10) + [('0' as int + n % 10) as char]
  }

  /** Reading a numeral back gives the number. */
  lemma {:induction false} DecimalNumeral(n: nat)
    ensures Decimal(Numeral(n)) == n
  {
    if n >= 10 {
      var ds := Numeral(n);
      assert ds[..|ds| - 1] == Numeral(n / 10);
      DecimalNumeral(n / 10);
    }
  }

  /** The digit run of a numeral followed by a non-digit is the numeral. */
  lemma {:induction false} DigitRunOf(ds: string, rest: string)
    requires AllDigits(ds)
    requires rest == [] || !IsDigit(rest[0])
    ensures DigitRun(ds + rest) == |ds|
  {
    if ds != [] {
      assert (ds + rest)[1..] == ds[1..] + rest;
      DigitRunOf(ds[1..], rest);
    }
  }

  // ---------------------------------------------------------------------
  // Operand placeholders
  // ---------------------------------------------------------------------

  /**
   * The generator's `Constant` and `Register` records, without their range
   * lists (those are computed from the encoding string separately).
   */
  datatype Operand =
    | Constant(identifier: char, bits: nat, signed: bool, multiple: nat, pcOffset: bool)
    | Register(identifier: char, bits: nat, dotNew: bool, isPredicate: bool)

  /** What a placeholder parser gives: an operand, Python's `None`, or an exception. */
  datatype Parse = Parsed(op: Operand) | NoOperand | Raises

  /** The letters after `#` that name an immediate: unsigned, signed, signed, PC-relative. */
  predicate ConstKind(c: char)
  {
    c == 'u' || c == 'U' || c == 's' || c == 'S' || c == 'm' || c == 'M' || c == 'r' || c == 'R'
  }

  predicate Unsigned(c: char)
  {
    c == 'u' || c == 'U'
  }

  predicate PcRelative(c: char)
  {
    c == 'r' || c == 'R'
  }

  /**
   * `extract_const(s)` for the text from a `#` on. Indexing past the end,
   * `#` as the second character (the record is built with one field of
   * six), an unknown kind letter and a missing number all raise.
   */
  function ExtractConst(s: string): (r: Parse)
    ensures r == NoOperand <==> 2 <= |s| && (s[1] == '-' || IsDigit(s[1]))
    ensures r.Parsed? ==> 3 <= |s| && ConstKind(s[1]) && IsDigit(s[2])
    ensures r.Parsed? ==> r.op.Constant? && r.op.multiple >= 1
    ensures r.Parsed? ==> (r.op.identifier == 'j' <==> IsLower(s[1])) && (r.op.identifier == 'j' || r.op.identifier == 'I')
    ensures r.Parsed? ==> (r.op.signed <==> !Unsigned(s[1])) && (r.op.pcOffset <==> PcRelative(s[1]))
  {
    if |s| < 2 then Raises
    else
      var c := s[1];
      if c == '#' then Raises
      else if c == '-' || IsDigit(c) then NoOperand
      else if !ConstKind(c) then Raises
      else
        var bitsEnd := DigitRun(s[2..]) + 2;
        if bitsEnd == 2 then Raises
        else
          var identifier := if IsLower(c) then 'j' else 'I';
          assert s[2..bitsEnd] == s[2..][..bitsEnd - 2];
          var bits := Decimal(s[2..bitsEnd]);
          if |s| > bitsEnd && s[bitsEnd] == ':' then
            var shiftEnd := DigitRun(s[bitsEnd + 1..]) + bitsEnd + 1;
            if shiftEnd == bitsEnd + 1 then Raises
            else
              assert s[bitsEnd + 1..shiftEnd] == s[bitsEnd + 1..][..shiftEnd - bitsEnd - 1];
              Parsed(Constant(identifier, bits, !Unsigned(c),
                              Pow2(Decimal(s[bitsEnd + 1..shiftEnd])), PcRelative(c)))
          else
            Parsed(Constant(identifier, bits, !Unsigned(c), 1, PcRelative(c)))
  }

  /** The placeholder text of an immediate: `#`, the kind letter, the width, then `:` and the scale's exponent if scaled. */
  function ConstText(kind: char, bits: nat, shift: Option<nat>): string
  {
    ['#', kind] + Numeral(bits) + (if shift.Some? then [':'] + Numeral(shift.value) else [])
  }

  /**
   * Round trip: the placeholder of an immediate parses back to that
   * immediate, whatever follows it (unless what follows would continue
   * the number or start a scale).
   */
  lemma ExtractConstText(kind: char, bits: nat, shift: Option<nat>, rest: string)
    requires ConstKind(kind)
    requires rest == [] || (!IsDigit(rest[0]) && (shift.None? ==> rest[0] != ':'))
    ensures ExtractConst(ConstText(kind, bits, shift) + rest) ==
      Parsed(Constant(if IsLower(kind) then 'j' else 'I', bits, !Unsigned(kind),
                      if shift.Some? then Pow2(shift.value) else 1, PcRelative(kind)))
  {
    if shift.Some? {
      var s := ConstText(kind, bits, shift) + rest;
      assert s == ['#', kind] + (Numeral(bits) + ([':'] + (Numeral(shift.value) + rest)));
      ScaledText(s, kind, bits, shift.value, rest);
    } else {
      assert ConstText(kind, bits, shift) + rest == ['#', kind] + Numeral(bits) + rest;
      UnscaledText(kind, bits, rest);
    }
  }

  lemma UnscaledText(kind: char, bits: nat, rest: string)
    requires ConstKind(kind) && (rest == [] || (!IsDigit(rest[0]) && rest[0] != ':'))
    ensures ExtractConst(['#', kind] + Numeral(bits) + rest) ==
      Parsed(Constant(if IsLower(kind) then 'j' else 'I', bits, !Unsigned(kind), 1, PcRelative(kind)))
  {
    var nb := Numeral(bits);
    var s := ['#', kind] + nb + rest;
    assert s == ['#', kind] + (nb + rest);
    WidthText(s, kind, nb, rest);
    DecimalNumeral(bits);
    ParseUnscaled(s, |nb| + 2);
  }

  lemma ScaledText(s: string, kind: char, bits: nat, shift: nat, rest: string)
    requires ConstKind(kind) && (rest == [] || !IsDigit(rest[0]))
    requires s == ['#', kind] + (Numeral(bits) + ([':'] + (Numeral(shift) + rest)))
    ensures ExtractConst(s) ==
      Parsed(Constant(if IsLower(kind) then 'j' else 'I', bits, !Unsigned(kind), Pow2(shift), PcRelative(kind)))
  {
    var nb, ns := Numeral(bits), Numeral(shift);
    var e := |nb| + 2;
    var f := e + 1 + |ns|;
    ScaledLayout(s, kind, nb, ns, rest, [':'] + (ns + rest));
    assert s[2..e] == nb && s[e + 1..f] == ns;
    DecimalNumeral(bits);
    DecimalNumeral(shift);
    ParseScaled(s, e, f);
  }

  /** Where the width and the scale sit in a scaled placeholder. */
  lemma ScaledLayout(s: string, kind: char, nb: string, ns: string, rest: string, tail: string)
    requires AllDigits(nb) && AllDigits(ns) && (rest == [] || !IsDigit(rest[0]))
    requires s == ['#', kind] + (nb + tail) && tail == [':'] + (ns + rest)
    ensures s[1] == kind && DigitRun(s[2..]) == |nb| && s[2..|nb| + 2] == nb
    ensures s[|nb| + 2] == ':' && DigitRun(s[|nb| + 2 + 1..]) == |ns| && s[|nb| + 2 + 1..|nb| + 2 + 1 + |ns|] == ns
  {
    WidthText(s, kind, nb, tail);
    ScaleText(s, |nb| + 2, ns, rest);
  }

  /** What `extract_const` makes of a kind letter and a width that nothing scales. */
  lemma ParseUnscaled(s: string, e: nat)
    requires 3 <= e <= |s| && ConstKind(s[1]) && DigitRun(s[2..]) + 2 == e
    requires !(|s| > e && s[e] == ':')
    ensures AllDigits(s[2..e])
    ensures ExtractConst(s) ==
      Parsed(Constant(if IsLower(s[1]) then 'j' else 'I', Decimal(s[2..e]), !Unsigned(s[1]), 1, PcRelative(s[1])))
  {
    assert s[2..e] == s[2..][..e - 2];
  }

  /** What `extract_const` makes of a kind letter, a width and a scale. */
  lemma ParseScaled(s: string, e: nat, f: nat)
    requires 3 <= e < f <= |s| && ConstKind(s[1]) && DigitRun(s[2..]) + 2 == e
    requires s[e] == ':' && DigitRun(s[e + 1..]) + e + 1 == f && f > e + 1
    ensures AllDigits(s[2..e]) && AllDigits(s[e + 1..f])
    ensures ExtractConst(s) ==
      Parsed(Constant(if IsLower(s[1]) then 'j' else 'I', Decimal(s[2..e]), !Unsigned(s[1]),
                      Pow2(Decimal(s[e + 1..f])), PcRelative(s[1])))
  {
    assert s[2..e] == s[2..][..e - 2];
    assert s[e + 1..f] == s[e + 1..][..f - e - 1];
  }

  /** The width of an immediate placeholder is the numeral after the kind letter. */
  lemma WidthText(s: string, kind: char, nb: string, tail: string)
    requires AllDigits(nb) && s == ['#', kind] + (nb + tail)
    requires tail == [] || !IsDigit(tail[0])
    ensures s[1] == kind && DigitRun(s[2..]) == |nb| && s[2..|nb| + 2] == nb
    ensures s[|nb| + 2..] == tail
  {
    assert s[2..] == nb + tail;
    DigitRunOf(nb, tail);
    assert s[2..|nb| + 2] == nb;
  }

  /** The scale of an immediate placeholder is the numeral after the `:`. */
  lemma ScaleText(s: string, e: nat, ns: string, rest: string)
    requires AllDigits(ns) && e < |s| && s[e..] == [':'] + (ns + rest)
    requires rest == [] || !IsDigit(rest[0])
    ensures s[e] == ':' && DigitRun(s[e + 1..]) == |ns| && s[e + 1..e + 1 + |ns|] == ns
  {
    assert s[e] == s[e..][0];
    assert s[e + 1..] == ns + rest;
    DigitRunOf(ns, rest);
    assert s[e + 1..e + 1 + |ns|] == (ns + rest)[..|ns|];
  }

  /** The register files a placeholder can name, and the letters naming its operands. */
  predicate RegFile(c: char)
  {
    c == 'R' || c == 'C' || c == 'P' || c == 'M' || c == 'G' || c == 'S'
  }

  predicate RegName(c: char)
  {
    c == 'e' || c == 's' || c == 'd' || c == 't' || c == 'u' || c == 'v' || c == 'x' || c == 'y'
  }

  /** The two operand letters a `.new` register can have. */
  predicate NewName(c: char)
  {
    c == 't' || c == 's'
  }

  /**
   * `extract_reg(s)`: a register file letter followed by an operand letter
   * names a register, 64 bits wide when the operand letter is doubled; `N`
   * followed by `t` or `s` names a `.new` register. Anything else is not a
   * register. Indexing past the end raises.
   */
  function ExtractReg(s: string): (r: Parse)
    ensures r == Raises <==> |s| < 2 && (s == [] || RegFile(s[0]) || s[0] == 'N')
    ensures r.Parsed? ==> |s| >= 2 && r.op.Register? && r.op.identifier == s[1]
    ensures r.Parsed? ==> (r.op.bits == 64 || r.op.bits == 32) && (r.op.isPredicate <==> s[0] == 'P')
    ensures r.Parsed? && r.op.dotNew ==> s[0] == 'N' && NewName(s[1]) && r.op.bits == 32
    ensures r.Parsed? && !r.op.dotNew ==> RegFile(s[0]) && RegName(s[1])
  {
    if s == [] then Raises
    else if RegFile(s[0]) then
      if |s| < 2 then Raises
      else if RegName(s[1]) then
        if |s| >= 3 && s[2] == s[1] then Parsed(Register(s[1], 64, false, s[0] == 'P'))
        else Parsed(Register(s[1], 32, false, s[0] == 'P'))
      else NoOperand
    else if s[0] == 'N' then
      if |s| < 2 then Raises
      else if NewName(s[1]) then Parsed(Register(s[1], 32, true, false))
      else NoOperand
    else NoOperand
  }

  /** The placeholder text of a register operand: file letter, operand letter, doubled when 64 bits wide. */
  function RegText(file: char, name: char, wide: bool): string
  {
    [file, name] + (if wide then [name] else [])
  }

  /** Round trip: a register placeholder parses back to its register. */
  lemma ExtractRegText(file: char, name: char, wide: bool, rest: string)
    requires RegFile(file) && RegName(name)
    requires !wide ==> rest == [] || rest[0] != name
    ensures ExtractReg(RegText(file, name, wide) + rest) ==
      Parsed(Register(name, if wide then 64 else 32, false, file == 'P'))
  {
    var s := RegText(file, name, wide) + rest;
    assert s[0] == file && s[1] == name;
    assert wide ==> s[2] == name;
    assert !wide && |s| >= 3 ==> s[2] == rest[0];
  }

  /** Round trip for the `.new` operands `Nt` and `Ns`. */
  lemma ExtractNewRegText(name: char, rest: string)
    requires NewName(name)
    ensures ExtractReg(['N', name] + rest) == Parsed(Register(name, 32, true, false))
  {
    var s := ['N', name] + rest;
    assert s[0] == 'N' && s[1] == name;
  }

  // ---------------------------------------------------------------------
  // Bit ranges of the encoding string
  // ---------------------------------------------------------------------

  /** Number of positions below n of `enc` holding `c`. */
  function CountTo(enc: string, c: char, n: nat): nat
    requires n <= |enc|
  {
    if n == 0 then 0 else CountTo(enc, c, n - 1) + (if enc[n - 1] == c then 1 else 0)
  }

  /**
   * The runs of letter `c` among the first n letters of `enc`, left to
   * right: a `c` that continues the previous position's run widens the
   * last range, any other `c` opens a new one.
   */
  function RunsTo(enc: string, c: char, n: nat): (rs: seq<Range>)
    requires n <= |enc|
    ensures n > 0 && enc[n - 1] == c ==> rs != [] && rs[|rs| - 1].end == n - 1
  {
    if n == 0 then []
    else
      var before := RunsTo(enc, c, n - 1);
      if enc[n - 1] != c then before
      else if n > 1 && enc[n - 2] == c then before[|before| - 1 := Range(before[|before| - 1].start, n - 1)]
      else before + [Range(n - 1, n - 1)]
  }

  /** The runs of letter `c` in the whole encoding string. */
  function Runs(enc: string, c: char): seq<Range>
  {
    RunsTo(enc, c, |enc|)
  }

  /** r is a maximal run of `c` among the first n letters of `enc`. */
  predicate RunOf(enc: string, c: char, r: Range, n: nat)
    requires n <= |enc|
  {
    r.start <= r.end < n
    && (forall k :: r.start <= k <= r.end ==> enc[k] == c)
    && (r.start == 0 || enc[r.start - 1] != c)
    && (r.end + 1 == n || enc[r.end + 1] != c)
  }

  /** Every range is a maximal run, and the ranges come in order, apart from each other. */
  predicate Grouped(enc: string, c: char, rs: seq<Range>, n: nat)
    requires n <= |enc|
  {
    (forall j :: 0 <= j < |rs| ==> RunOf(enc, c, rs[j], n))
    && (forall i, j :: 0 <= i < j < |rs| ==> rs[i].end + 1 < rs[j].start)
  }

  /** A maximal run of a prefix stays maximal when the next letter does not continue it. */
  lemma RunKept(enc: string, c: char, r: Range, n: nat)
    requires 0 < n <= |enc| && RunOf(enc, c, r, n - 1)
    requires r.end + 2 < n || enc[n - 1] != c
    ensures RunOf(enc, c, r, n)
  {
  }

  /** `RunsTo` lists maximal runs, in order. */
  lemma {:induction false} RunsGrouped(enc: string, c: char, n: nat)
    requires n <= |enc|
    ensures Grouped(enc, c, RunsTo(enc, c, n), n)
  {
    if n > 0 {
      RunsGrouped(enc, c, n - 1);
      if enc[n - 1] != c {
        GroupedOther(enc, c, n);
      } else if n > 1 && enc[n - 2] == c {
        GroupedWiden(enc, c, n);
      } else {
        GroupedOpen(enc, c, n);
      }
    }
  }

  /** A letter other than `c` closes the runs of `c` so far. */
  lemma GroupedOther(enc: string, c: char, n: nat)
    requires 0 < n <= |enc| && enc[n - 1] != c
    requires Grouped(enc, c, RunsTo(enc, c, n - 1), n - 1)
    ensures Grouped(enc, c, RunsTo(enc, c, n), n)
  {
    var rs := RunsTo(enc, c, n);
    forall j | 0 <= j < |rs| ensures RunOf(enc, c, rs[j], n) {
      RunKept(enc, c, rs[j], n);
    }
  }

  /** A `c` after a `c` widens the last run. */
  lemma GroupedWiden(enc: string, c: char, n: nat)
    requires 1 < n <= |enc| && enc[n - 1] == c && enc[n - 2] == c
    requires Grouped(enc, c, RunsTo(enc, c, n - 1), n - 1)
    ensures Grouped(enc, c, RunsTo(enc, c, n), n)
  {
    var before := RunsTo(enc, c, n - 1);
    var rs := RunsTo(enc, c, n);
    var m := |before| - 1;
    assert rs == before[m := Range(before[m].start, n - 1)];
    forall j | 0 <= j < m ensures RunOf(enc, c, rs[j], n) {
      assert before[j].end + 1 < before[m].start;
      RunKept(enc, c, rs[j], n);
    }
    assert RunOf(enc, c, before[m], n - 1);
  }

  /** A `c` after anything else opens a new run. */
  lemma GroupedOpen(enc: string, c: char, n: nat)
    requires 0 < n <= |enc| && enc[n - 1] == c && !(n > 1 && enc[n - 2] == c)
    requires Grouped(enc, c, RunsTo(enc, c, n - 1), n - 1)
    ensures Grouped(enc, c, RunsTo(enc, c, n), n)
  {
    var before := RunsTo(enc, c, n - 1);
    var rs := RunsTo(enc, c, n);
    assert rs == before + [Range(n - 1, n - 1)];
    forall j | 0 <= j < |before| ensures RunOf(enc, c, rs[j], n) && rs[j].end + 1 < n - 1 {
      assert RunOf(enc, c, before[j], n - 1);
      RunKept(enc, c, rs[j], n);
    }
  }

  /** Every occurrence of `c` lies inside one of its runs. */
  lemma {:induction false} RunsCover(enc: string, c: char, n: nat, k: nat)
    requires k < n <= |enc| && enc[k] == c
    ensures exists j :: 0 <= j < |RunsTo(enc, c, n)| && RunsTo(enc, c, n)[j].start <= k <= RunsTo(enc, c, n)[j].end
  {
    var rs := RunsTo(enc, c, n);
    if k == n - 1 {
      RunsGrouped(enc, c, n);
      assert RunOf(enc, c, rs[|rs| - 1], n);
    } else {
      var before := RunsTo(enc, c, n - 1);
      RunsCover(enc, c, n - 1, k);
      var j :| 0 <= j < |before| && before[j].start <= k <= before[j].end;
      if enc[n - 1] == c && n > 1 && enc[n - 2] == c && j == |before| - 1 {
        assert rs[j].start <= k <= rs[j].end;
      } else {
        assert rs[j] == before[j];
      }
    }
  }

  /** Sum of the widths `end - start + 1` of the first m ranges. */
  function WidthTo(rs: seq<Range>, m: nat): int
    requires m <= |rs|
  {
    if m == 0 then 0 else WidthTo(rs, m - 1) + (rs[m - 1].end - rs[m - 1].start + 1)
  }

  /** Sum of the widths of all the ranges: the `sum` of the coherence check. */
  function TotalWidth(rs: seq<Range>): int
  {
    WidthTo(rs, |rs|)
  }

  lemma {:induction false} WidthToSame(a: seq<Range>, b: seq<Range>, m: nat)
    requires m <= |a| && m <= |b| && forall i :: 0 <= i < m ==> a[i] == b[i]
    ensures WidthTo(a, m) == WidthTo(b, m)
  {
    if m > 0 {
      WidthToSame(a, b, m - 1);
    }
  }

  /** The runs of `c` cover exactly its occurrences: their widths add up to the count. */
  lemma {:induction false} RunsWidth(enc: string, c: char, n: nat)
    requires n <= |enc|
    ensures TotalWidth(RunsTo(enc, c, n)) == CountTo(enc, c, n)
  {
    if n > 0 {
      var before := RunsTo(enc, c, n - 1);
      var rs := RunsTo(enc, c, n);
      RunsWidth(enc, c, n - 1);
      if enc[n - 1] == c && n > 1 && enc[n - 2] == c {
        WidthToSame(rs, before, |before| - 1);
      } else if enc[n - 1] == c {
        WidthToSame(rs, before, |before|);
      }
    }
  }

  /** The runs of `c` in a prefix, plus the run still open at its end if that run is of `c`. */
  function Open(cur: Option<char>, start: nat, i: nat, c: char): seq<Range>
  {
    if cur == Some(c) && start < i then [Range(start, i - 1)] else []
  }

  /** The ranges closed so far for `c`, with the run still open, are the runs of `c` among the first i letters. */
  predicate Describes(enc: string, c: char, i: nat, done: seq<Range>, cur: Option<char>, start: nat)
    requires i <= |enc|
  {
    done + Open(cur, start, i, c) == RunsTo(enc, c, i)
  }

  /**
   * One step of the grouping loop, for letter `c`: the closed ranges plus
   * the open run still describe the runs of the prefix read so far.
   */
  lemma GroupStep(enc: string, i: nat, c: char, done: seq<Range>, cur: Option<char>, start: nat,
                  done': seq<Range>, start': nat)
    requires i < |enc|
    requires if i == 0 then cur.None? else cur == Some(enc[i - 1]) && start < i
    requires Describes(enc, c, i, done, cur, start)
    requires start' == if cur == Some(enc[i]) then start else i
    requires done' == if cur != Some(enc[i]) && cur == Some(c) then done + [Range(start, i - 1)] else done
    ensures Describes(enc, c, i + 1, done', Some(enc[i]), start')
  {
  }

  /** The same step for the ranges of every identifier asked for at once. */
  lemma GroupMapStep(enc: string, i: nat, ids: set<char>, done: map<char, seq<Range>>, cur: Option<char>, start: nat,
                     done': map<char, seq<Range>>, start': nat)
    requires i < |enc|
    requires if i == 0 then cur.None? else cur == Some(enc[i - 1]) && start < i
    requires forall c :: c in ids ==> c in done && Describes(enc, c, i, done[c], cur, start)
    requires start' == if cur == Some(enc[i]) then start else i
    requires done' == if cur != Some(enc[i]) && cur.Some? && cur.value in ids
                      then done[cur.value := done[cur.value] + [Range(start, i - 1)]] else done
    ensures forall c :: c in ids ==> c in done' && Describes(enc, c, i + 1, done'[c], Some(enc[i]), start')
  {
    forall c | c in ids ensures c in done' && Describes(enc, c, i + 1, done'[c], Some(enc[i]), start') {
      GroupStep(enc, i, c, done[c], cur, start, done'[c], start');
    }
  }

  /**
   * The range grouping loop of `gen_extract_op`: walk the encoding string,
   * and whenever the letter changes close the run just ended, appending it
   * to the ranges of its operand if the letter names one; close the last
   * run after the loop. Each operand letter gets exactly its runs.
   */
  method GroupRanges(enc: string, ids: set<char>) returns (ranges: map<char, seq<Range>>)
    ensures forall c :: c in ids ==> c in ranges && ranges[c] == Runs(enc, c)
  {
    ranges := map c | c in ids :: [];
    var cur: Option<char> := None;
    var start := 0;
    var i := 0;
    while i < |enc|
      invariant i <= |enc|
      invariant if i == 0 then cur.None? else cur == Some(enc[i - 1]) && start < i
      invariant forall c :: c in ids ==> c in ranges && Describes(enc, c, i, ranges[c], cur, start)
    {
      ghost var done := ranges;
      ghost var cur0 := cur;
      ghost var start0 := start;
      if cur != Some(enc[i]) {
        if cur.Some? && cur.value in ids {
          ranges := ranges[cur.value := ranges[cur.value] + [Range(start, i - 1)]];
        }
        start := i;
        cur := Some(enc[i]);
      }
      GroupMapStep(enc, i, ids, done, cur0, start0, ranges, start);
      i := i + 1;
    }
    if cur.Some? && cur.value in ids {
      ranges := ranges[cur.value := ranges[cur.value] + [Range(start, |enc| - 1)]];
    }
  }

  /** `find_op` finds operand k by its identifier: no earlier operand has the same one. */
  predicate FirstOf(ops: seq<Operand>, k: nat)
    requires k < |ops|
  {
    forall j :: 0 <= j < k ==> ops[j].identifier != ops[k].identifier
  }

  /** The ranges each operand receives: its letter's runs if it is the first with its identifier, none otherwise. */
  function Assigned(ops: seq<Operand>, enc: string): (rs: seq<seq<Range>>)
    ensures |rs| == |ops|
  {
    seq(|ops|, k requires 0 <= k < |ops| => if FirstOf(ops, k) then Runs(enc, ops[k].identifier) else [])
  }

  /** The assertion of `gen_extract_op`: every constant but the shift amount `N` covers exactly its width. */
  predicate Coherent(ops: seq<Operand>, rs: seq<seq<Range>>)
    requires |rs| == |ops|
  {
    forall k :: 0 <= k < |ops| && ops[k].Constant? && ops[k].identifier != 'N' ==> TotalWidth(rs[k]) == ops[k].bits
  }

  /**
   * Every `.new` register has a last range that can lose one position at
   * its end. A register with no range, or whose last range ends at
   * position 0, fails the extraction here; the Python would index an
   * empty list or build a range ending at -1.
   */
  predicate Patchable(ops: seq<Operand>, rs: seq<seq<Range>>)
    requires |rs| == |ops|
  {
    forall k :: 0 <= k < |ops| && ops[k].Register? && ops[k].dotNew ==> rs[k] != [] && rs[k][|rs[k]| - 1].end > 0
  }

  /** The last range of a `.new` register, one bit shorter at its end. */
  function Shorten(rs: seq<Range>): (r: seq<Range>)
    requires rs != [] && rs[|rs| - 1].end > 0
    ensures |r| == |rs| && r[..|r| - 1] == rs[..|rs| - 1]
    ensures r[|r| - 1] == Range(rs[|rs| - 1].start, rs[|rs| - 1].end - 1)
  {
    rs[..|rs| - 1] + [Range(rs[|rs| - 1].start, rs[|rs| - 1].end - 1)]
  }

  datatype Extraction = Extracted(ranges: seq<seq<Range>>) | Fails

  /**
   * The ranges `gen_extract_op` ends with for each operand: the grouped
   * runs, checked for coherence, with the `.new` registers' last range
   * shortened. An incoherent scheme fails the assertion; a `.new` register
   * without ranges raises on `ranges[-1]`.
   */
  function ExtractRanges(ops: seq<Operand>, enc: string): (r: Extraction)
    ensures r.Extracted? <==> Coherent(ops, Assigned(ops, enc)) && Patchable(ops, Assigned(ops, enc))
    ensures r.Extracted? ==> |r.ranges| == |ops|
    ensures r.Extracted? ==> forall k :: 0 <= k < |ops| && !(ops[k].Register? && ops[k].dotNew) ==>
              r.ranges[k] == Assigned(ops, enc)[k]
    ensures r.Extracted? ==> forall k :: 0 <= k < |ops| && ops[k].Register? && ops[k].dotNew ==>
              r.ranges[k] == Shorten(Assigned(ops, enc)[k])
  {
    var rs := Assigned(ops, enc);
    if !Coherent(ops, rs) || !Patchable(ops, rs) then Fails
    else Extracted(seq(|ops|, k requires 0 <= k < |ops| =>
                       if ops[k].Register? && ops[k].dotNew then Shorten(rs[k]) else rs[k]))
  }

  /**
   * Coherence in terms of the encoding string: an extracted immediate
   * other than `N` has as many letters in the encoding as its declared
   * width, and a second operand with the same identifier has width zero.
   */
  lemma ExtractedWidths(ops: seq<Operand>, enc: string, k: nat)
    requires ExtractRanges(ops, enc).Extracted?
    requires k < |ops| && ops[k].Constant? && ops[k].identifier != 'N'
    ensures FirstOf(ops, k) ==> ops[k].bits == CountTo(enc, ops[k].identifier, |enc|)
    ensures !FirstOf(ops, k) ==> ops[k].bits == 0
  {
    RunsWidth(enc, ops[k].identifier, |enc|);
  }

  // ---------------------------------------------------------------------
  // What the emitted operand code computes
  // ---------------------------------------------------------------------

  /** Operands are `uint32_t`: arithmetic wraps at 2^32. */
  const WORD: nat := 0x1_0000_0000

  lemma WordPow2()
    ensures Pow2(32) == WORD
  {
    assert Pow2(4) == 16;
    Pow2Add(4, 4);
    Pow2Add(8, 8);
    Pow2Add(16, 16);
  }

  lemma WordBits()
    ensures forall k: nat {:trigger Bit(0xffff_ffff, k)} :: Bit(0xffff_ffff, k) == (k < 32)
  {
    WordPow2();
    OnesBits(0xffff_ffff, 32);
  }

  /** 2^n grows with n. */
  lemma {:induction false} Pow2Mono(a: nat, b: nat)
    requires a <= b
    ensures Pow2(a) <= Pow2(b)
  {
    if a < b {
      Pow2Mono(a, b - 1);
    }
  }

  /**
   * The emitted sign extension of a field `bits` wide: if the shift by
   * `bits - 1` leaves anything, every bit from `bits` to 31 is set. A
   * shift by 32 is undefined in C, hence the bound on `bits`.
   */
  function SignExtend(raw: nat, bits: nat): nat
    requires 1 <= bits <= 31
  {
    if Shr(raw, bits - 1) != 0 then Or(Shl(Shr(0xffff_ffff, bits), bits), raw) else raw
  }

  /** Sign extension copies the field's top bit into bits `bits`..31 and keeps the field. */
  lemma SignExtendBits(raw: nat, bits: nat)
    requires 1 <= bits <= 31 && raw < Pow2(bits)
    ensures forall k: nat {:trigger Bit(SignExtend(raw, bits), k)} ::
      Bit(SignExtend(raw, bits), k) == if k < bits then Bit(raw, k) else k < 32 && Bit(raw, bits - 1)
  {
    BelowPow2(raw, bits);
    ShrBits(raw, bits - 1);
    ZeroBits();
    if Bit(raw, bits - 1) {
      assert Bit(Shr(raw, bits - 1), 0);
      WordBits();
      ShrBits(0xffff_ffff, bits);
      ShlBits(Shr(0xffff_ffff, bits), bits);
      OrBits(Shl(Shr(0xffff_ffff, bits), bits), raw);
    } else {
      BitsEqual(Shr(raw, bits - 1), 0);
    }
  }

  /** The top bit of a field `w` wide says whether it reaches 2^(w-1). */
  lemma {:induction false} TopBit(raw: nat, w: nat)
    requires w >= 1 && raw < Pow2(w)
    ensures Bit(raw, w - 1) <==> raw >= Pow2(w - 1)
  {
    if w > 1 {
      TopBit(raw / 2, w - 1);
    }
  }

  /** The number a two's complement field `bits` wide stands for. */
  function Signed(raw: nat, bits: nat): int
    requires bits >= 1
  {
    if raw >= Pow2(bits - 1) then raw - Pow2(bits) else raw
  }

  lemma MulPred(q: nat, p: nat)
    requires q >= 1
    ensures (q - 1) * p == q * p - p
  {
  }

  lemma OnesTimes(bits: nat, raw: nat)
    requires bits <= 32
    ensures (Pow2(32 - bits) - 1) * Pow2(bits) + raw == WORD - Pow2(bits) + raw
  {
    Pow2Add(32 - bits, bits);
    WordPow2();
    MulPred(Pow2(32 - bits), Pow2(bits));
  }

  /** The 32-bit word made of a field and ones above it, up to bit 31, is 2^32 - 2^bits + raw. */
  lemma OnesAbove(e: nat, raw: nat, bits: nat)
    requires 1 <= bits <= 31 && raw < Pow2(bits)
    requires forall k: nat {:trigger Bit(e, k)} :: Bit(e, k) == if k < bits then Bit(raw, k) else k < 32
    ensures e == WORD - Pow2(bits) + raw
  {
    var ones := Pow2(32 - bits) - 1;
    var x := ones * Pow2(bits) + raw;
    OnesTimes(bits, raw);
    StackBits(x, ones, bits, raw);
    OnesBits(ones, 32 - bits);
    forall k: nat ensures Bit(e, k) == Bit(x, k) {
      if k >= bits {
        assert Bit(x, k) == Bit(ones, k - bits);
      }
    }
    BitsEqual(e, x);
  }

  /** A field whose top bit is set extends to 2^32 - 2^bits + raw. */
  lemma SignExtendNegative(raw: nat, bits: nat)
    requires 1 <= bits <= 31 && raw < Pow2(bits) && Bit(raw, bits - 1)
    ensures SignExtend(raw, bits) == WORD - Pow2(bits) + raw
  {
    SignExtendBits(raw, bits);
    OnesAbove(SignExtend(raw, bits), raw, bits);
  }

  /** A field whose top bit is clear is left as it is. */
  lemma SignExtendNonNegative(raw: nat, bits: nat)
    requires 1 <= bits <= 31 && raw < Pow2(bits) && !Bit(raw, bits - 1)
    ensures SignExtend(raw, bits) == raw
  {
    ZeroBits();
    BelowPow2(raw, bits);
    ShrBits(raw, bits - 1);
    BitsEqual(Shr(raw, bits - 1), 0);
  }

  lemma HalfWord(bits: nat)
    requires bits <= 31
    ensures 2 * Pow2(bits) <= WORD
  {
    Pow2Mono(bits + 1, 32);
    WordPow2();
  }

  lemma WrapNegative(a: int)
    requires a < 0 && a + WORD >= 0
    ensures a % WORD == a + WORD
  {
  }

  /** The 32-bit encoding of a two's complement field's value. */
  lemma SignedWrap(raw: nat, bits: nat)
    requires 1 <= bits <= 31 && raw < Pow2(bits)
    ensures Signed(raw, bits) % WORD == if Bit(raw, bits - 1) then WORD - Pow2(bits) + raw else raw
  {
    HalfWord(bits);
    TopBit(raw, bits);
    if Bit(raw, bits - 1) {
      WrapNegative(raw - Pow2(bits));
    }
  }

  /** Sign extension is the 32-bit two's complement encoding of the field's value. */
  lemma SignExtendValue(raw: nat, bits: nat)
    requires 1 <= bits <= 31 && raw < Pow2(bits)
    ensures SignExtend(raw, bits) == Signed(raw, bits) % WORD
  {
    SignedWrap(raw, bits);
    if Bit(raw, bits - 1) {
      SignExtendNegative(raw, bits);
    } else {
      SignExtendNonNegative(raw, bits);
    }
  }

  /**
   * An immediate after the extraction code `gen_extract_op` emits: sign
   * extended if signed, then multiplied by its scale in 32-bit
   * arithmetic, except for the instruction's extendable immediate when an
   * extender is present, which is left unscaled.
   */
  function ImmediateValue(raw: nat, k: Operand, extendable: bool, extenderPresent: bool): nat
    requires k.Constant? && (k.signed ==> 1 <= k.bits <= 31)
  {
    var v := if k.signed then SignExtend(raw, k.bits) else raw;
    if extendable && extenderPresent then v else (v * k.multiple) % WORD
  }

  /** The extender fix-up of `gen_execute`: `imm &= 0x3f; imm |= dc->const_ext;`. */
  function Extended(v: nat, extendable: bool, extenderPresent: bool, constExt: nat): nat
  {
    if extendable && extenderPresent then Or(And(v, 0x3f), constExt) else v
  }

  /** The number an immediate field stands for: two's complement if signed. */
  function Meaning(raw: nat, k: Operand): int
    requires k.Constant? && k.bits >= 1
  {
    if k.signed then Signed(raw, k.bits) else raw
  }

  lemma ModMul(x: int, m: nat)
    ensures ((x % WORD) * m) % WORD == (x * m) % WORD
  {
    var q := x / WORD;
    var r := x % WORD;
    assert x * m == r * m + (q * m) * WORD;
  }

  /**
   * Without an extender, the immediate is the 32-bit encoding of its
   * field's value times its scale.
   */
  lemma UnextendedImmediate(raw: nat, k: Operand, extendable: bool, extenderPresent: bool, constExt: nat)
    requires k.Constant? && 1 <= k.bits && (k.signed ==> k.bits <= 31) && raw < Pow2(k.bits) && raw < WORD
    requires !(extendable && extenderPresent)
    ensures Extended(ImmediateValue(raw, k, extendable, extenderPresent), extendable, extenderPresent, constExt)
            == (Meaning(raw, k) * k.multiple) % WORD
  {
    if k.signed {
      SignExtendValue(raw, k.bits);
      ModMul(Signed(raw, k.bits), k.multiple);
    } else {
      ModMul(raw, k.multiple);
    }
  }

  /**
   * With an extender, the immediate is the 32-bit value whose low 6 bits
   * come from the instruction's own field and whose upper 26 bits are the
   * extender word's bits 0..13 and 16..27.
   */
  lemma ExtendedImmediate(raw: nat, k: Operand, extender: nat)
    requires k.Constant? && (k.signed ==> 1 <= k.bits <= 31)
    ensures var imm := Extended(ImmediateValue(raw, k, true, true), true, true, ConstExt(extender));
      forall b: nat {:trigger Bit(imm, b)} :: Bit(imm, b) ==
        if b < 6 then Bit(ImmediateValue(raw, k, true, true), b)
        else if b < 20 then Bit(extender, b - 6)
        else b < 32 && Bit(extender, b - 4)
  {
    var v := ImmediateValue(raw, k, true, true);
    ConstExtBits(extender);
    OnesBits(0x3f, 6);
    AndBits(v, 0x3f);
    OrBits(And(v, 0x3f), ConstExt(extender));
  }

  /** The sub-instruction version also consumes the extender, so the other half of a duplex cannot use it. */
  datatype ExtenderState = ExtenderState(present: bool, constExt: nat)

  function SubExtended(v: nat, extendable: bool, ext: ExtenderState): (r: (nat, ExtenderState))
    ensures r.0 == Extended(v, extendable, ext.present, ext.constExt)
    ensures !r.1.present <==> !ext.present || extendable
    ensures r.1.present ==> r.1 == ext
  {
    if extendable && ext.present then (Or(And(v, 0x3f), ext.constExt), ExtenderState(false, 0))
    else (v, ext)
  }

  /** One emitted `if (id >= 8) id += 8;` on a `uint32_t`. */
  function Bump(v: nat): nat
  {
    if v >= 8 then (v + 8) % WORD else v
  }

  function BumpTimes(v: nat, n: nat): nat
  {
    if n == 0 then v else Bump(BumpTimes(v, n - 1))
  }

  /**
   * How many adjustments `gen_execute` emits for a register: one for each
   * of its first m ranges after which the running sum of widths is still
   * below 5.
   */
  function BumpsTo(rs: seq<Range>, m: nat): nat
    requires m <= |rs|
  {
    if m == 0 then 0 else BumpsTo(rs, m - 1) + (if WidthTo(rs, m) < 5 then 1 else 0)
  }

  /**
   * A register operand of `execute` after its fix-ups. Predicates are left
   * alone; `.new` operands go through `get_destination_reg` instead.
   */
  function ExecuteRegister(raw: nat, k: Operand, rs: seq<Range>): nat
    requires k.Register?
  {
    if k.dotNew || k.isPredicate then raw else BumpTimes(raw, BumpsTo(rs, |rs|))
  }

  /**
   * A `.new` operand of `execute`: its field counts back through the
   * packet's destination list, newest first, with 0 and 1 both naming the
   * newest (`get_destination_reg(dc->regs, id)`). A field reaching past the
   * list is an invalid reference.
   */
  method ExecuteNewRegister(raw: nat, k: Operand, destinations: seq<int>) returns (r: Lookup)
    requires k.Register? && k.dotNew
    ensures r.Found? <==> destinations != [] && raw <= |destinations|
    ensures r.Found? ==> r.index == destinations[if raw == 0 then 0 else raw - 1] && r.index in destinations
    ensures !r.Found? ==> r == InvalidReference
  {
    r := GetDestinationReg(destinations, raw);
  }

  /**
   * A register field of one range: five bits or more name r0..r31
   * directly; narrower fields name r0..r7 and r16..r23.
   */
  lemma ExecuteRegisterOneRange(raw: nat, k: Operand, r: Range)
    requires k.Register? && !k.dotNew && !k.isPredicate && r.start <= r.end
    requires r.end - r.start + 1 >= 5 || raw < 16
    ensures ExecuteRegister(raw, k, [r]) == if r.end - r.start + 1 <= 4 && raw >= 8 then raw + 8 else raw
  {
    assert WidthTo([r], 1) == r.end - r.start + 1;
    assert BumpsTo([r], 1) == if r.end - r.start + 1 < 5 then 1 else 0;
    assert BumpTimes(raw, 1) == Bump(raw);
  }

  /**
   * A register field split over two ranges: one adjustment follows each
   * range after which the running width is still below 5. A field of at
   * most four bits in two pieces is therefore moved up twice, 8..15 to
   * r24..r31.
   */
  lemma ExecuteRegisterTwoRanges(raw: nat, k: Operand, r1: Range, r2: Range)
    requires k.Register? && !k.dotNew && !k.isPredicate && r1.start <= r1.end && r2.start <= r2.end
    requires raw < 32
    ensures var w1, w2 := r1.end - r1.start + 1, r2.end - r2.start + 1;
      ExecuteRegister(raw, k, [r1, r2]) ==
        if raw < 8 then raw else raw + 8 * ((if w1 < 5 then 1 else 0) + (if w1 + w2 < 5 then 1 else 0))
  {
    var rs := [r1, r2];
    assert WidthTo(rs, 1) == r1.end - r1.start + 1;
    assert WidthTo(rs, 2) == WidthTo(rs, 1) + (r2.end - r2.start + 1);
    assert BumpsTo(rs, 1) == if WidthTo(rs, 1) < 5 then 1 else 0;
    assert BumpsTo(rs, 2) == BumpsTo(rs, 1) + if WidthTo(rs, 2) < 5 then 1 else 0;
    assert BumpTimes(raw, 1) == Bump(raw);
    assert BumpTimes(raw, 2) == Bump(Bump(raw));
  }

  /**
   * A register operand of `sub_execute`: a 64-bit pair is numbered in
   * halves (`*= 2`), then indices from 8 move up by 8.
   */
  function SubRegister(raw: nat, k: Operand): nat
    requires k.Register?
  {
    var v := if k.bits == 64 then (raw * 2) % WORD else raw;
    if v >= 8 then (v + 8) % WORD else v
  }

  /**
   * Sub-instructions address r0..r7 and r16..r23 only: the 4-bit field
   * maps 0..7 and 8..15 there one to one, and a 3-bit pair field maps to
   * the even register of a pair.
   */
  lemma SubRegisterMap(a: nat, b: nat, k: Operand)
    requires k.Register? && a < 16 && b < 16 && (k.bits == 64 ==> a < 8 && b < 8)
    ensures SubRegister(a, k) < 8 || 16 <= SubRegister(a, k) < 24
    ensures k.bits != 64 ==> (SubRegister(a, k) < 8 <==> a < 8)
    ensures k.bits == 64 ==> SubRegister(a, k) % 2 == 0
    ensures SubRegister(a, k) == SubRegister(b, k) ==> a == b
  {
    SubRegisterSmall(a, k);
    SubRegisterSmall(b, k);
  }

  /** Below 16, the 32-bit arithmetic of `SubRegister` does not wrap. */
  lemma SubRegisterSmall(a: nat, k: Operand)
    requires k.Register? && a < 16
    ensures var v := if k.bits == 64 then 2 * a else a;
      SubRegister(a, k) == if v >= 8 then v + 8 else v
  {
    assert (a * 2) % WORD == 2 * a;
    var v := if k.bits == 64 then 2 * a else a;
    assert (v + 8) % WORD == v + 8;
  }

  // ---------------------------------------------------------------------
  // Telling apart the candidates of a decode-tree leaf
  // ---------------------------------------------------------------------

  /** A candidate instruction of a leaf: its index and the mask and value its encoding fixes. */
  datatype Candidate = Candidate(index: nat, mask: nat, value: nat)

  /** `((ir & mask) ^ value) == 0` */
  predicate Matches(ir: nat, cand: Candidate)
  {
    Xor(And(ir, cand.mask), cand.value) == 0
  }

  /** A word matches a candidate exactly when its bits under the mask are the candidate's value. */
  lemma MatchesIff(ir: nat, cand: Candidate)
    ensures Matches(ir, cand) <==> And(ir, cand.mask) == cand.value
  {
    var x := And(ir, cand.mask);
    XorBits(x, cand.value);
    ZeroBits();
    if Xor(x, cand.value) == 0 {
      forall k: nat ensures Bit(x, k) == Bit(cand.value, k) {
        assert !Bit(Xor(x, cand.value), k);
      }
      BitsEqual(x, cand.value);
    } else if x == cand.value {
      BitsEqual(Xor(x, cand.value), 0);
    }
  }

  /** `inst_index` after the first m `ADD_IF_ZERO` lines of a leaf. */
  function Accumulate(ir: nat, cands: seq<Candidate>, m: nat): Sum
    requires m <= |cands|
  {
    if m == 0 then Total(0)
    else
      match Accumulate(ir, cands, m - 1)
      case Overlapping => Overlapping
      case Total(x) => AddIfZero(x, B2N(Matches(ir, cands[m - 1])) * cands[m - 1].index)
  }

  /** The non-zero indices of the candidates among the first m that the word matches. */
  function Hits(ir: nat, cands: seq<Candidate>, m: nat): (h: seq<nat>)
    requires m <= |cands|
    ensures 0 !in h
  {
    if m == 0 then []
    else Hits(ir, cands, m - 1) + (if Matches(ir, cands[m - 1]) && cands[m - 1].index != 0 then [cands[m - 1].index] else [])
  }

  /**
   * The sum of `ADD_IF_ZERO` lines survives its assertions exactly when at
   * most one candidate with a non-zero index matches, and is then that
   * candidate's index, or 0 if none matches.
   */
  lemma {:induction false} AccumulateIff(ir: nat, cands: seq<Candidate>, m: nat)
    requires m <= |cands|
    ensures Accumulate(ir, cands, m).Total? <==> |Hits(ir, cands, m)| <= 1
    ensures Accumulate(ir, cands, m).Total? ==>
      Accumulate(ir, cands, m).value == if Hits(ir, cands, m) == [] then 0 else Hits(ir, cands, m)[0]
  {
    if m > 0 {
      AccumulateIff(ir, cands, m - 1);
      var c := cands[m - 1];
      var hit := Matches(ir, c) && c.index != 0;
      var prev := Hits(ir, cands, m - 1);
      assert Hits(ir, cands, m) == prev + (if hit then [c.index] else []);
      assert B2N(Matches(ir, c)) * c.index == if hit then c.index else 0;
      if Accumulate(ir, cands, m - 1).Total? {
        AddHit(Accumulate(ir, cands, m - 1).value, prev, hit, c.index);
      }
    }
  }

  /** One more `ADD_IF_ZERO` line against a sum that is the only hit so far, or 0 for none. */
  lemma AddHit(x: nat, prev: seq<nat>, hit: bool, index: nat)
    requires 0 !in prev && |prev| <= 1 && x == (if prev == [] then 0 else prev[0])
    requires hit ==> index != 0
    ensures AddIfZero(x, if hit then index else 0).Total? <==> |prev + (if hit then [index] else [])| <= 1
    ensures AddIfZero(x, if hit then index else 0).Total? ==>
      AddIfZero(x, if hit then index else 0).value ==
        if prev + (if hit then [index] else []) == [] then 0 else (prev + (if hit then [index] else []))[0]
  {
  }

  datatype Choice = Chosen(index: nat) | InvalidEncoding | OverlappingEncodings

  /**
   * The code `gen_pattern_matching` emits for a leaf: no candidate is an
   * invalid encoding, a single one is taken without looking at its mask,
   * and several are summed with `ADD_IF_ZERO`.
   */
  function PatternMatch(ir: nat, cands: seq<Candidate>): (r: Choice)
    ensures |cands| == 0 <==> r == InvalidEncoding
    ensures |cands| == 1 ==> r == Chosen(cands[0].index)
  {
    if |cands| == 0 then InvalidEncoding
    else if |cands| == 1 then Chosen(cands[0].index)
    else
      match Accumulate(ir, cands, |cands|)
      case Overlapping => OverlappingEncodings
      case Total(x) => Chosen(x)
  }

  /**
   * Among several candidates, the word picks the one candidate it matches;
   * two matching candidates with non-zero indices fail the assertion; a
   * word that matches none gives index 0 without any assertion.
   */
  lemma PatternMatchHits(ir: nat, cands: seq<Candidate>)
    requires |cands| >= 2
    ensures |Hits(ir, cands, |cands|)| == 1 ==> PatternMatch(ir, cands) == Chosen(Hits(ir, cands, |cands|)[0])
    ensures |Hits(ir, cands, |cands|)| >= 2 <==> PatternMatch(ir, cands) == OverlappingEncodings
    ensures Hits(ir, cands, |cands|) == [] ==> PatternMatch(ir, cands) == Chosen(0)
  {
    AccumulateIff(ir, cands, |cands|);
  }

  /** A candidate appears among the hits exactly when the word matches it (for non-zero indices). */
  lemma {:induction false} HitsMembers(ir: nat, cands: seq<Candidate>, m: nat, j: nat)
    requires j < m <= |cands| && cands[j].index != 0 && Matches(ir, cands[j])
    ensures cands[j].index in Hits(ir, cands, m)
  {
    if j < m - 1 {
      HitsMembers(ir, cands, m - 1, j);
    }
  }
}
