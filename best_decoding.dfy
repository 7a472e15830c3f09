/**
 * The decode-tree search of `best-decoding.c`: for a table of instruction
 * patterns (a value and the mask of the bits the encoding fixes), pick at
 * each level the instruction bits whose values split the remaining
 * candidates best, and list for each leaf the instructions still
 * compatible with the bits fixed on the way down.
 *
 * The buffers of the C code stay arrays (the candidate buffer the filter
 * fills, the combination it steps in place); lists the C code only
 * builds from nothing are sequences. The scores are floating point and are
 * not modelled; the match counts they are computed from are.
 */
module BestDecoding {
  import opened Bits
  import Fields

  /** A pattern of the instruction table: the bits the encoding fixes (`mask`) and their values. */
  datatype Instruction = Instruction(value: nat, mask: nat)

  /** `x & (1 << k)` is non-zero exactly when bit k of x is set. */
  lemma TestBit(x: nat, k: nat)
    ensures And(x, Shl(1, k)) != 0 <==> Bit(x, k)
  {
    OnesBits(1, 1);
    ShlBits(1, k);
    AndBits(x, Shl(1, k));
    ZeroBits();
    if !Bit(x, k) {
      BitsEqual(And(x, Shl(1, k)), 0);
    } else {
      assert Bit(And(x, Shl(1, k)), k);
    }
  }

  // ---------------------------------------------------------------------
  // extractBits
  // ---------------------------------------------------------------------

  /**
   * `extractBits`: bit `choice[i]` of `value` becomes bit i of the result,
   * which therefore has no bit at `|choice|` or above.
   */
  method ExtractBits(value: nat, choice: seq<nat>) returns (result: nat)
    ensures result == Fields.GatherBits(value, choice)
    ensures forall k: nat {:trigger Bit(result, k)} :: Bit(result, k) == (k < |choice| && Bit(value, choice[k]))
    ensures result < Pow2(|choice|)
  {
    result := 0;
    var i := 0;
    while i < |choice|
      invariant i <= |choice|
      invariant result == Fields.GatherBits(value, choice[..i])
    {
      var b := if And(value, Shl(1, choice[i])) != 0 then 1 else 0;
      TestBit(value, choice[i]);
      assert Fields.GatherBits(value, [choice[i]]) == b;
      Fields.GatherAppend(value, choice[..i], [choice[i]]);
      assert choice[..i + 1] == choice[..i] + [choice[i]];
      result := Or(result, Shl(b, i));
      i := i + 1;
    }
    assert choice[..i] == choice;
    Fields.GatherBitsBits(value, choice);
  }

  /** The examples `quickTest` asserts. */
  lemma QuickTest()
    ensures Fields.GatherBits(0xbb, [0, 1, 2, 3]) == 0xb
    ensures Fields.GatherBits(0xbf, [0, 1, 2, 3]) == 0xf
    ensures Fields.GatherBits(0x6a, [1, 3, 5]) == 0x7
    ensures Fields.GatherBits(0x15, [1, 3, 5]) == 0
  {
  }

  // ---------------------------------------------------------------------
  // findBest, step 1: the instructions compatible with the fixed bits
  // ---------------------------------------------------------------------

  /**
   * `inst` can still be the instruction under the bits `masked` fixes:
   * the two agree wherever both fix a bit.
   */
  predicate Compatible(inst: Instruction, masked: Instruction)
  {
    And(inst.value, And(masked.mask, inst.mask)) == And(masked.value, And(masked.mask, inst.mask))
  }

  /** The compatible instructions among the first k, in table order. */
  function FilterTo(s: seq<Instruction>, masked: Instruction, k: nat): seq<Instruction>
    requires k <= |s|
  {
    if k == 0 then []
    else FilterTo(s, masked, k - 1) + (if Compatible(s[k - 1], masked) then [s[k - 1]] else [])
  }

  /** The filter keeps exactly the compatible instructions. */
  lemma {:induction false} FilterMembers(s: seq<Instruction>, masked: Instruction, k: nat, x: Instruction)
    requires k <= |s|
    ensures x in FilterTo(s, masked, k) <==> Compatible(x, masked) && exists j :: 0 <= j < k && s[j] == x
  {
    if k > 0 {
      FilterMembers(s, masked, k - 1, x);
    }
  }

  /**
   * Step 1 of `findBest`: copy the compatible instructions, in order, to
   * the front of `targets`; their number is `*Count`.
   */
  method SelectTargets(instructions: array<Instruction>, count: nat, masked: Instruction, targets: array<Instruction>)
    returns (n: nat)
    requires count <= instructions.Length && count <= targets.Length && instructions != targets
    modifies targets
    ensures n <= count
    ensures targets[..n] == FilterTo(instructions[..], masked, count)
    ensures targets[n..] == old(targets[n..])
  {
    n := 0;
    var i := 0;
    while i < count
      invariant i <= count && n <= i
      invariant targets[..n] == FilterTo(instructions[..], masked, i)
      invariant targets[n..] == old(targets[n..])
    {
      var m := And(masked.mask, instructions[i].mask);
      if And(instructions[i].value, m) == And(masked.value, m) {
        targets[n] := instructions[i];
        n := n + 1;
      }
      i := i + 1;
    }
  }

  // ---------------------------------------------------------------------
  // findBest, step 2: the bits still free to choose
  // ---------------------------------------------------------------------

  /** The positions below k that `mask` does not fix, ascending. */
  function ClearBitsTo(mask: nat, k: nat): seq<nat>
  {
    if k == 0 then [] else ClearBitsTo(mask, k - 1) + (if Bit(mask, k - 1) then [] else [k - 1])
  }

  /** The choosable positions are exactly the clear ones, strictly ascending. */
  lemma {:induction false} ClearBitsAscending(mask: nat, k: nat)
    ensures forall j: nat :: j in ClearBitsTo(mask, k) <==> j < k && !Bit(mask, j)
    ensures forall a, b :: 0 <= a < b < |ClearBitsTo(mask, k)| ==> ClearBitsTo(mask, k)[a] < ClearBitsTo(mask, k)[b]
  {
    if k > 0 {
      ClearBitsAscending(mask, k - 1);
      var p := ClearBitsTo(mask, k - 1);
      var r := ClearBitsTo(mask, k);
      forall a, b | 0 <= a < b < |r| ensures r[a] < r[b] {
        if b == |p| {
          assert r[a] == p[a] && p[a] in p;
        }
      }
    }
  }

  /** Step 2 of `findBest`: the positions 0..31 the fixed mask leaves clear. */
  method Choosable(mask: nat) returns (choosable: seq<nat>)
    ensures choosable == ClearBitsTo(mask, 32)
  {
    choosable := [];
    var i := 0;
    while i < 32
      invariant i <= 32
      invariant choosable == ClearBitsTo(mask, i)
    {
      TestBit(mask, i);
      if And(mask, Shl(1, i)) == 0 {
        choosable := choosable + [i];
      }
      i := i + 1;
    }
  }

  // ---------------------------------------------------------------------
  // findBest: stepping through the Bits-combinations of choosable bits
  // ---------------------------------------------------------------------

  /** A combination: strictly increasing indices below n. */
  predicate Increasing(c: seq<nat>, n: nat)
  {
    (forall i :: 0 <= i < |c| ==> c[i] < n) &&
    (forall a, b :: 0 <= a < b < |c| ==> c[a] < c[b])
  }

  predicate AgreeBelow(a: seq<nat>, b: seq<nat>, d: nat)
    requires d <= |a| && d <= |b|
  {
    forall i :: 0 <= i < d ==> a[i] == b[i]
  }

  /** a comes before b in lexicographic order. */
  predicate LexBefore(a: seq<nat>, b: seq<nat>)
  {
    |a| == |b| && exists d :: 0 <= d < |a| && AgreeBelow(a, b, d) && a[d] < b[d]
  }

  /** The first combination, `Choice[J] = J`. */
  function Identity(bits: nat): seq<nat>
  {
    seq(bits, j => j)
  }

  /** Index j can still be incremented, with room for the larger indices after it. */
  predicate Movable(c: seq<nat>, n: nat, j: nat)
    requires j < |c|
  {
    c[j] + |c| - j < n
  }

  /** The last movable index below k, or -1. */
  function Pivot(c: seq<nat>, n: nat, k: nat): (r: int)
    requires k <= |c|
    ensures -1 <= r < k
    ensures r >= 0 ==> Movable(c, n, r)
    ensures forall i :: r < i < k ==> !Movable(c, n, i)
  {
    if k == 0 then -1 else if Movable(c, n, k - 1) then k - 1 else Pivot(c, n, k - 1)
  }

  /** The next combination: the pivot goes up by one and the indices after it follow consecutively. */
  function Successor(c: seq<nat>, n: nat): seq<nat>
    requires Pivot(c, n, |c|) >= 0
  {
    var j := Pivot(c, n, |c|);
    seq(|c|, i requires 0 <= i < |c| => if i < j then c[i] else c[j] + 1 + (i - j))
  }

  /** Indices of a combination are at least as far apart as their positions. */
  lemma {:induction false} Spread(t: seq<nat>, n: nat, a: nat, b: nat)
    requires Increasing(t, n) && a <= b < |t|
    ensures t[b] >= t[a] + (b - a)
  {
    if a < b {
      Spread(t, n, a, b - 1);
    }
  }

  /** Index i of a combination of |t| out of n is at most n - |t| + i. */
  lemma Ceiling(t: seq<nat>, n: nat, i: nat)
    requires Increasing(t, n) && i < |t|
    ensures t[i] + |t| - i <= n
  {
    Spread(t, n, i, |t| - 1);
  }

  /** The first combination is one, and no combination comes before it. */
  lemma FirstCombination(bits: nat, n: nat, t: seq<nat>)
    requires bits <= n
    ensures Increasing(Identity(bits), n)
    ensures Increasing(t, n) ==> !LexBefore(t, Identity(bits))
  {
    if Increasing(t, n) && LexBefore(t, Identity(bits)) {
      var d :| 0 <= d < |t| && AgreeBelow(t, Identity(bits), d) && t[d] < Identity(bits)[d];
      Spread(t, n, 0, d);
    }
  }

  /** The successor of a combination is a combination that comes after it. */
  lemma SuccessorAfter(c: seq<nat>, n: nat)
    requires Increasing(c, n) && Pivot(c, n, |c|) >= 0
    ensures Increasing(Successor(c, n), n)
    ensures LexBefore(c, Successor(c, n))
  {
    var j := Pivot(c, n, |c|);
    var s := Successor(c, n);
    assert AgreeBelow(c, s, j) && c[j] < s[j];
  }

  /** From the first position where s and t may differ on, t is nowhere smaller: t is s or after it. */
  lemma {:induction false} NotBefore(s: seq<nat>, t: seq<nat>, a: nat)
    requires |s| == |t| && a <= |s| && AgreeBelow(s, t, a)
    requires forall i :: a <= i < |s| ==> s[i] <= t[i]
    ensures s == t || LexBefore(s, t)
    decreases |s| - a
  {
    if a < |s| {
      if s[a] < t[a] {
        assert AgreeBelow(s, t, a) && s[a] < t[a];
      } else {
        NotBefore(s, t, a + 1);
      }
    }
  }

  /** No combination lies strictly between a combination and its successor. */
  lemma SuccessorIsNext(c: seq<nat>, n: nat, t: seq<nat>)
    requires Increasing(c, n) && Pivot(c, n, |c|) >= 0
    requires Increasing(t, n) && LexBefore(c, t)
    ensures t == Successor(c, n) || LexBefore(Successor(c, n), t)
  {
    var j := Pivot(c, n, |c|);
    var s := Successor(c, n);
    var d :| 0 <= d < |c| && AgreeBelow(c, t, d) && c[d] < t[d];
    Ceiling(t, n, d);
    assert d > j ==> !Movable(c, n, d);
    if d < j {
      assert AgreeBelow(s, t, d) && s[d] < t[d];
    } else {
      RaisedAtPivot(c, n, t);
    }
  }

  /** A combination after c that first differs from it at the pivot is the successor or after it. */
  lemma RaisedAtPivot(c: seq<nat>, n: nat, t: seq<nat>)
    requires Increasing(c, n) && Pivot(c, n, |c|) >= 0 && Increasing(t, n) && |t| == |c|
    requires AgreeBelow(c, t, Pivot(c, n, |c|)) && c[Pivot(c, n, |c|)] < t[Pivot(c, n, |c|)]
    ensures t == Successor(c, n) || LexBefore(Successor(c, n), t)
  {
    var j := Pivot(c, n, |c|);
    var s := Successor(c, n);
    forall i | j <= i < |s| ensures s[i] <= t[i] {
      Spread(t, n, j, i);
    }
    NotBefore(s, t, j);
  }

  /** Without a movable index, the combination is the last one. */
  lemma LastCombination(c: seq<nat>, n: nat, t: seq<nat>)
    requires Increasing(c, n) && Pivot(c, n, |c|) < 0 && Increasing(t, n) && |t| == |c|
    ensures !LexBefore(c, t)
  {
    forall d | 0 <= d < |c| ensures t[d] <= c[d] {
      Ceiling(t, n, d);
      assert !Movable(c, n, d);
    }
  }

  /** Initialising the combination: `Choice[J] = J`. */
  method InitCombination(choice: array<nat>, bits: nat)
    requires bits <= choice.Length
    modifies choice
    ensures choice[..bits] == Identity(bits)
    ensures choice[bits..] == old(choice[bits..])
  {
    var j := 0;
    while j < bits
      invariant j <= bits
      invariant choice[..j] == Identity(j)
      invariant choice[bits..] == old(choice[bits..])
    {
      choice[j] := j;
      j := j + 1;
    }
  }

  /**
   * "Get next combination": from the last index down, find one that can
   * go up with room for the rest, bump it and make the rest follow it
   * (`K` ends at Bits); if there is none, `K` ends at -1 and the search
   * stops. An index that can go up but has no room is bumped on the way
   * and overwritten later, or left so when the search stops.
   */
  method NextCombination(choice: array<nat>, bits: nat, n: nat) returns (k: int)
    requires bits <= choice.Length && Increasing(choice[..bits], n)
    modifies choice
    ensures k == bits || k == -1
    ensures k == -1 <==> Pivot(old(choice[..bits]), n, bits) < 0
    ensures k == bits ==> choice[..bits] == Successor(old(choice[..bits]), n)
    ensures choice[bits..] == old(choice[bits..])
  {
    ghost var c := choice[..bits];
    k := bits - 1;
    while k >= 0
      invariant -1 <= k < bits
      invariant forall i :: 0 <= i <= k ==> choice[i] == c[i]
      invariant choice[bits..] == old(choice[bits..])
      invariant Pivot(c, n, bits) == Pivot(c, n, k + 1)
    {
      if choice[k] < n - 1 {
        choice[k] := choice[k] + 1;
        if choice[k] + bits - 1 - k <= n - 1 {
          ghost var j := k;
          assert Pivot(c, n, bits) == j;
          k := k + 1;
          while k < bits
            invariant j < k <= bits
            invariant forall i :: 0 <= i < k ==> choice[i] == Successor(c, n)[i]
            invariant choice[bits..] == old(choice[bits..])
          {
            choice[k] := choice[k - 1] + 1;
            k := k + 1;
          }
          assert choice[..bits] == Successor(c, n);
          return;
        }
      }
      k := k - 1;
    }
  }

  // ---------------------------------------------------------------------
  // findBest: the chosen bits of every candidate, and the match counts
  // ---------------------------------------------------------------------

  /** `RealChoice`: the bit positions a combination of choosable indices stands for. */
  function RealChoice(choosable: seq<nat>, c: seq<nat>): seq<nat>
    requires Increasing(c, |choosable|)
  {
    seq(|c|, j requires 0 <= j < |c| => choosable[c[j]])
  }

  /**
   * A combination of choosable indices stands for strictly ascending bit
   * positions below 32 that the fixed mask leaves clear.
   */
  lemma RealChoiceClear(mask: nat, c: seq<nat>)
    requires Increasing(c, |ClearBitsTo(mask, 32)|)
    ensures var r := RealChoice(ClearBitsTo(mask, 32), c);
      (forall a, b :: 0 <= a < b < |r| ==> r[a] < r[b]) &&
      (forall i :: 0 <= i < |r| ==> r[i] < 32 && !Bit(mask, r[i]))
  {
    ClearBitsAscending(mask, 32);
    var cs := ClearBitsTo(mask, 32);
    forall i | 0 <= i < |c| ensures cs[c[i]] in cs {
    }
  }

  /**
   * "Keep only the interesting bits": each candidate's value and mask
   * gathered at the chosen positions.
   */
  method KeepChosenBits(targets: array<Instruction>, count: nat, realChoice: seq<nat>, selected: array<Instruction>)
    requires count <= targets.Length && count <= selected.Length && targets != selected
    modifies selected
    ensures forall l :: 0 <= l < count ==>
      selected[l] == Instruction(Fields.GatherBits(targets[l].value, realChoice), Fields.GatherBits(targets[l].mask, realChoice))
    ensures selected[count..] == old(selected[count..])
  {
    var l := 0;
    while l < count
      invariant l <= count
      invariant forall i :: 0 <= i < l ==>
        selected[i] == Instruction(Fields.GatherBits(targets[i].value, realChoice), Fields.GatherBits(targets[i].mask, realChoice))
      invariant selected[count..] == old(selected[count..])
    {
      var v := ExtractBits(targets[l].value, realChoice);
      var m := ExtractBits(targets[l].mask, realChoice);
      selected[l] := Instruction(v, m);
      l := l + 1;
    }
  }

  /** Pattern l of the chosen bits agrees with a selected candidate: `(L & Mask) == Value`. */
  predicate Allows(inst: Instruction, l: nat)
  {
    And(l, inst.mask) == inst.value
  }

  /** How many of the first m candidates pattern l agrees with. */
  function MatchCountTo(sel: seq<Instruction>, l: nat, m: nat): nat
    requires m <= |sel|
  {
    if m == 0 then 0 else MatchCountTo(sel, l, m - 1) + B2N(Allows(sel[m - 1], l))
  }

  /** `TotalMatches` over the patterns below `upto`: the agreeing (pattern, candidate) pairs. */
  function TotalMatchesTo(sel: seq<Instruction>, upto: nat): nat
  {
    if upto == 0 then 0 else TotalMatchesTo(sel, upto - 1) + MatchCountTo(sel, upto - 1, |sel|)
  }

  /** The range of an `unsigned` counter: `TotalMatches` wraps at 2^32. */
  const UNSIGNED_RANGE: nat := 0x1_0000_0000

  /** Candidates that fix no bit agree with every pattern: each pattern adds one match per candidate. */
  lemma {:induction false} AllFreeCount(sel: seq<Instruction>, upto: nat)
    requires forall m :: 0 <= m < |sel| ==> sel[m] == Instruction(0, 0)
    ensures TotalMatchesTo(sel, upto) == upto * |sel|
  {
    if upto > 0 {
      AllFreeCount(sel, upto - 1);
      AllFreeMatch(sel, upto - 1, |sel|);
      assert upto * |sel| == (upto - 1) * |sel| + |sel|;
    }
  }

  lemma {:induction false} AllFreeMatch(sel: seq<Instruction>, l: nat, m: nat)
    requires m <= |sel| && forall j :: 0 <= j < |sel| ==> sel[j] == Instruction(0, 0)
    ensures MatchCountTo(sel, l, m) == m
  {
    if m > 0 {
      AllFreeMatch(sel, l, m - 1);
      assert Allows(sel[m - 1], l);
    }
  }

  /** The patterns below `upto` that agree with no candidate. */
  function UnmatchedTo(sel: seq<Instruction>, upto: nat): (r: nat)
    ensures r <= upto
  {
    if upto == 0 then 0 else UnmatchedTo(sel, upto - 1) + B2N(MatchCountTo(sel, upto - 1, |sel|) == 0)
  }

  /**
   * The counts behind the score: `Options` counts the patterns some
   * candidate agrees with, each of them adds at least one match to
   * `TotalMatches`, and no pattern adds more than one per candidate.
   */
  lemma {:induction false} CountBounds(sel: seq<Instruction>, upto: nat)
    ensures upto - UnmatchedTo(sel, upto) <= TotalMatchesTo(sel, upto) <= upto * |sel|
  {
    if upto > 0 {
      CountBounds(sel, upto - 1);
      CountAtMost(sel, upto - 1, |sel|);
      assert upto * |sel| == (upto - 1) * |sel| + |sel|;
    }
  }

  lemma {:induction false} CountAtMost(sel: seq<Instruction>, l: nat, m: nat)
    requires m <= |sel|
    ensures MatchCountTo(sel, l, m) <= m
  {
    if m > 0 {
      CountAtMost(sel, l, m - 1);
    }
  }

  /**
   * The counting loops of `findBest`: every pattern L of `bits` bits
   * against every selected candidate.
   */
  method CountMatches(selected: array<Instruction>, count: nat, bits: nat) returns (totalMatches: nat, options: nat)
    requires count <= selected.Length && bits < 32
    ensures totalMatches == TotalMatchesTo(selected[..count], Pow2(bits)) % UNSIGNED_RANGE
    ensures options == Pow2(bits) - UnmatchedTo(selected[..count], Pow2(bits))
  {
    ghost var sel := selected[..count];
    ghost var exact := 0;
    ShlMul(1, bits);
    totalMatches := 0;
    options := Shl(1, bits);
    var l := 0;
    while l < Shl(1, bits)
      invariant l <= Pow2(bits)
      invariant exact == TotalMatchesTo(sel, l) && totalMatches == exact % UNSIGNED_RANGE
      invariant options == Pow2(bits) - UnmatchedTo(sel, l)
    {
      var noMatch := true;
      var m := 0;
      while m < count
        invariant m <= count
        invariant exact == TotalMatchesTo(sel, l) + MatchCountTo(sel, l, m) && totalMatches == exact % UNSIGNED_RANGE
        invariant noMatch <==> MatchCountTo(sel, l, m) == 0
      {
        if And(l, selected[m].mask) == selected[m].value {
          WrapStep(exact);
          totalMatches := (totalMatches + 1) % UNSIGNED_RANGE;
          exact := exact + 1;
          noMatch := false;
        }
        m := m + 1;
      }
      CountBounds(sel, l + 1);
      if noMatch {
        options := options - 1;
      }
      l := l + 1;
    }
  }

  /** One more match on the wrapped counter is one more on the exact count, wrapped. */
  lemma WrapStep(exact: nat)
    ensures (exact % UNSIGNED_RANGE + 1) % UNSIGNED_RANGE == (exact + 1) % UNSIGNED_RANGE
  {
  }

  // ---------------------------------------------------------------------
  // findBest: the search over all combinations
  // ---------------------------------------------------------------------

  /** The candidates after "Keep only the interesting bits". */
  function Selected(targets: seq<Instruction>, realChoice: seq<nat>): seq<Instruction>
  {
    seq(|targets|, l requires 0 <= l < |targets| =>
      Instruction(Fields.GatherBits(targets[l].value, realChoice), Fields.GatherBits(targets[l].mask, realChoice)))
  }

  /** What one pass of the search computes for a combination: its bit positions and the two counts of its score. */
  datatype Scored = Scored(realChoice: seq<nat>, totalMatches: nat, options: nat)

  function Score(targets: seq<Instruction>, realChoice: seq<nat>, bits: nat): Scored
  {
    var sel := Selected(targets, realChoice);
    Scored(realChoice, TotalMatchesTo(sel, Pow2(bits)) % UNSIGNED_RANGE, Pow2(bits) - UnmatchedTo(sel, Pow2(bits)))
  }

  /** While 2^Bits patterns times the candidates stay below 2^32, `TotalMatches` does not wrap. */
  lemma ScoreExact(targets: seq<Instruction>, realChoice: seq<nat>, bits: nat)
    requires Pow2(bits) * |targets| < UNSIGNED_RANGE
    ensures Score(targets, realChoice, bits).totalMatches == TotalMatchesTo(Selected(targets, realChoice), Pow2(bits))
  {
    CountBounds(Selected(targets, realChoice), Pow2(bits));
  }

  lemma {:induction false} GatherZero(cs: seq<nat>)
    ensures Fields.GatherBits(0, cs) == 0
  {
    if cs != [] {
      GatherZero(cs[1..]);
      ZeroBit(cs[0]);
    }
  }

  lemma Pow2Thirty()
    ensures Pow2(30) == 0x4000_0000
  {
    assert Pow2(10) == 0x400;
    assert Pow2(20) == 0x10_0000;
  }

  /**
   * Beyond that it does: four candidates that fix no bit, scored on 30
   * chosen bits, agree 2^32 times, and the `unsigned` count ends at 0.
   */
  lemma ScoreWraps(realChoice: seq<nat>)
    ensures var free := [Instruction(0, 0), Instruction(0, 0), Instruction(0, 0), Instruction(0, 0)];
      TotalMatchesTo(Selected(free, realChoice), Pow2(30)) == UNSIGNED_RANGE &&
      Score(free, realChoice, 30).totalMatches == 0
  {
    var free := [Instruction(0, 0), Instruction(0, 0), Instruction(0, 0), Instruction(0, 0)];
    var sel := Selected(free, realChoice);
    forall m | 0 <= m < |sel|
      ensures sel[m] == Instruction(0, 0)
    {
      GatherZero(realChoice);
    }
    AllFreeCount(sel, Pow2(30));
    Pow2Thirty();
  }

  function Power(b: nat, e: nat): nat
  {
    if e == 0 then 1 else Power(b, e - 1) * b
  }

  /** A combination read as a number in base n, most significant index first. */
  function Rank(c: seq<nat>, n: nat, k: nat): nat
    requires k <= |c|
  {
    if k == 0 then 0 else Rank(c, n, k - 1) * n + c[k - 1]
  }

  /** h * n + c < p * n for h < p and c < n. */
  lemma StepBelow(h: nat, p: nat, c: nat, n: nat)
    requires h < p && c < n
    ensures h * n + c < p * n
  {
    assert h * n <= (p - 1) * n;
    assert (p - 1) * n == p * n - n;
  }

  lemma {:induction false} RankBound(c: seq<nat>, n: nat, k: nat)
    requires k <= |c| && forall i :: 0 <= i < |c| ==> c[i] < n
    ensures Rank(c, n, k) < Power(n, k)
  {
    if k > 0 {
      RankBound(c, n, k - 1);
      StepBelow(Rank(c, n, k - 1), Power(n, k - 1), c[k - 1], n);
    }
  }

  lemma {:induction false} RankAgree(a: seq<nat>, b: seq<nat>, n: nat, d: nat)
    requires d <= |a| && d <= |b| && AgreeBelow(a, b, d)
    ensures Rank(a, n, d) == Rank(b, n, d)
  {
    if d > 0 {
      RankAgree(a, b, n, d - 1);
    }
  }

  lemma {:induction false} RankLess(a: seq<nat>, b: seq<nat>, n: nat, d: nat, k: nat)
    requires |a| == |b| && d < k <= |a| && forall i :: 0 <= i < |a| ==> a[i] < n
    requires Rank(a, n, d + 1) < Rank(b, n, d + 1)
    ensures Rank(a, n, k) < Rank(b, n, k)
  {
    if k > d + 1 {
      RankLess(a, b, n, d, k - 1);
      StepBelow(Rank(a, n, k - 1), Rank(b, n, k - 1), a[k - 1], n);
    }
  }

  /** Lexicographic order is the order of ranks. */
  lemma RankOrder(a: seq<nat>, b: seq<nat>, n: nat)
    requires LexBefore(a, b) && forall i :: 0 <= i < |a| ==> a[i] < n
    ensures Rank(a, n, |a|) < Rank(b, n, |b|)
  {
    var d :| 0 <= d < |a| && AgreeBelow(a, b, d) && a[d] < b[d];
    RankAgree(a, b, n, d);
    RankLess(a, b, n, d, |a|);
  }

  /** One pass of the search loop: the chosen bits of every candidate, then the counts. */
  method ScoreCombination(targets: array<Instruction>, count: nat, choosable: seq<nat>, choice: array<nat>, bits: nat,
                          selected: array<Instruction>) returns (scored: Scored)
    requires count <= targets.Length && count <= selected.Length && targets != selected
    requires bits <= choice.Length && bits < 32 && Increasing(choice[..bits], |choosable|)
    modifies selected
    ensures scored == Score(targets[..count], RealChoice(choosable, choice[..bits]), bits)
  {
    var realChoice := RealChoice(choosable, choice[..bits]);
    KeepChosenBits(targets, count, realChoice, selected);
    assert selected[..count] == Selected(targets[..count], realChoice);
    var total, options := CountMatches(selected, count, bits);
    scored := Scored(realChoice, total, options);
  }

  /** Each step raises the rank of the combination, which stays below n^bits: the search ends. */
  lemma RankUp(c: seq<nat>, n: nat)
    requires Increasing(c, n) && Pivot(c, n, |c|) >= 0
    ensures Increasing(Successor(c, n), n)
    ensures Rank(c, n, |c|) < Rank(Successor(c, n), n, |c|) < Power(n, |c|)
  {
    SuccessorAfter(c, n);
    RankOrder(c, Successor(c, n), n);
    RankBound(Successor(c, n), n, |c|);
  }

  /**
   * `combos` starts with the first combination of `bits` out of n, and
   * each one after it is the successor of the one before.
   */
  ghost predicate Visits(combos: seq<seq<nat>>, n: nat, bits: nat)
  {
    |combos| >= 1 && combos[0] == Identity(bits) &&
    (forall i :: 0 <= i < |combos| ==> Increasing(combos[i], n) && |combos[i]| == bits) &&
    (forall i :: 0 <= i < |combos| - 1 ==> Pivot(combos[i], n, bits) >= 0 && combos[i + 1] == Successor(combos[i], n))
  }

  lemma VisitsNext(combos: seq<seq<nat>>, n: nat, bits: nat)
    requires Visits(combos, n, bits) && Pivot(combos[|combos| - 1], n, bits) >= 0
    ensures Visits(combos + [Successor(combos[|combos| - 1], n)], n, bits)
  {
    SuccessorAfter(combos[|combos| - 1], n);
  }

  /** `scores[i]` is what the search computes for combination `combos[i]`. */
  ghost predicate ScoresOf(scores: seq<Scored>, combos: seq<seq<nat>>, targets: seq<Instruction>, choosable: seq<nat>, bits: nat)
  {
    |scores| == |combos| &&
    forall i :: 0 <= i < |scores| ==>
      Increasing(combos[i], |choosable|) && scores[i] == Score(targets, RealChoice(choosable, combos[i]), bits)
  }

  lemma ScoresNext(scores: seq<Scored>, combos: seq<seq<nat>>, targets: seq<Instruction>, choosable: seq<nat>, bits: nat,
                   c: seq<nat>, scored: Scored)
    requires ScoresOf(scores, combos, targets, choosable, bits) && Increasing(c, |choosable|)
    requires scored == Score(targets, RealChoice(choosable, c), bits)
    ensures ScoresOf(scores + [scored], combos + [c], targets, choosable, bits)
  {
  }

  /**
   * The search loop of `findBest`, without the floating-point score: it
   * visits the combinations from the first, each followed by its
   * successor, up to the last one, and counts the matches of each. With
   * `SuccessorIsNext` and `LastCombination`, that is every combination
   * exactly once, in lexicographic order.
   */
  method Search(targets: array<Instruction>, count: nat, choosable: seq<nat>, bits: nat, selected: array<Instruction>)
    returns (combos: seq<seq<nat>>, scores: seq<Scored>)
    requires count <= targets.Length && count <= selected.Length && targets != selected
    requires bits <= |choosable| && bits < 32
    modifies selected
    ensures Visits(combos, |choosable|, bits)
    ensures Pivot(combos[|combos| - 1], |choosable|, bits) < 0
    ensures ScoresOf(scores, combos, targets[..count], choosable, bits)
  {
    var n := |choosable|;
    var choice := new nat[32];
    InitCombination(choice, bits);
    FirstCombination(bits, n, []);
    ghost var cur := choice[..bits];
    RankBound(cur, n, bits);
    combos := [];
    scores := [];
    var k: int := 1;
    while k >= 0
      invariant Increasing(cur, n) && |cur| == bits && Rank(cur, n, bits) < Power(n, bits)
      invariant k >= 0 ==> cur == choice[..bits] && Visits(combos + [cur], n, bits)
      invariant k < 0 ==> Visits(combos, n, bits) && Pivot(combos[|combos| - 1], n, bits) < 0
      invariant ScoresOf(scores, combos, targets[..count], choosable, bits)
      decreases Power(n, bits) - Rank(cur, n, bits), if k >= 0 then 1 else 0
    {
      var scored := ScoreCombination(targets, count, choosable, choice, bits, selected);
      ScoresNext(scores, combos, targets[..count], choosable, bits, choice[..bits], scored);
      combos := combos + [choice[..bits]];
      scores := scores + [scored];
      k := NextCombination(choice, bits, n);
      if k >= 0 {
        VisitsNext(combos, n, bits);
        RankUp(cur, n);
        cur := choice[..bits];
      }
    }
  }

  // ---------------------------------------------------------------------
  // go: the fixed bits of each child, and the instructions of a leaf
  // ---------------------------------------------------------------------

  /** The fixed bits of every child: the parent's and the chosen ones. */
  method ChildMask(parent: Instruction, choice: seq<nat>) returns (mask: nat)
    ensures forall k: nat {:trigger Bit(mask, k)} ::
      Bit(mask, k) == (Bit(parent.mask, k) || exists i :: 0 <= i < |choice| && choice[i] == k)
  {
    mask := parent.mask;
    var m := 0;
    while m < |choice|
      invariant m <= |choice|
      invariant forall k: nat {:trigger Bit(mask, k)} ::
        Bit(mask, k) == (Bit(parent.mask, k) || exists i :: 0 <= i < m && choice[i] == k)
    {
      SetBit(mask, choice[m]);
      mask := Or(mask, Shl(1, choice[m]));
      m := m + 1;
    }
  }

  /** The value of child l: the parent's, with chosen bit i set where bit i of l is. */
  method ChildValue(parent: Instruction, choice: seq<nat>, l: nat) returns (value: nat)
    ensures forall k: nat {:trigger Bit(value, k)} ::
      Bit(value, k) == (Bit(parent.value, k) || exists i :: 0 <= i < |choice| && choice[i] == k && Bit(l, i))
  {
    value := parent.value;
    var m := 0;
    while m < |choice|
      invariant m <= |choice|
      invariant forall k: nat {:trigger Bit(value, k)} ::
        Bit(value, k) == (Bit(parent.value, k) || exists i :: 0 <= i < m && choice[i] == k && Bit(l, i))
    {
      TestBit(l, m);
      if And(l, Shl(1, m)) != 0 {
        SetBit(value, choice[m]);
        value := Or(value, Shl(1, choice[m]));
      }
      m := m + 1;
    }
  }

  /** A masked value sets no bit outside its mask. */
  ghost predicate Fixes(x: Instruction)
  {
    forall k: nat {:trigger Bit(x.value, k)} :: Bit(x.value, k) ==> Bit(x.mask, k)
  }

  /**
   * Reading a child's value back at the chosen bits gives its pattern l,
   * when the chosen bits are distinct and the parent leaves them clear;
   * the child sets no bit outside its mask if the parent does not.
   */
  lemma ChildRoundTrip(parent: Instruction, choice: seq<nat>, l: nat, child: Instruction)
    requires forall a, b :: 0 <= a < b < |choice| ==> choice[a] != choice[b]
    requires forall i :: 0 <= i < |choice| ==> !Bit(parent.value, choice[i])
    requires l < Pow2(|choice|)
    requires forall k: nat {:trigger Bit(child.mask, k)} ::
      Bit(child.mask, k) == (Bit(parent.mask, k) || exists i :: 0 <= i < |choice| && choice[i] == k)
    requires forall k: nat {:trigger Bit(child.value, k)} ::
      Bit(child.value, k) == (Bit(parent.value, k) || exists i :: 0 <= i < |choice| && choice[i] == k && Bit(l, i))
    ensures Fields.GatherBits(child.value, choice) == l
    ensures Fixes(parent) ==> Fixes(child)
  {
    var g := Fields.GatherBits(child.value, choice);
    Fields.GatherBitsBits(child.value, choice);
    BelowPow2(l, |choice|);
    forall k: nat ensures Bit(g, k) == Bit(l, k) {
      if k < |choice| {
        assert Bit(child.value, choice[k]) == Bit(l, k);
      }
    }
    BitsEqual(g, l);
  }

  lemma AndComm(x: nat, y: nat)
    ensures And(x, y) == And(y, x)
  {
    AndBits(x, y);
    AndBits(y, x);
    BitsEqual(And(x, y), And(y, x));
  }

  /** The indices of the compatible instructions among the first k. */
  function CompatibleIndices(s: seq<Instruction>, masked: Instruction, k: nat): (ix: seq<nat>)
    requires k <= |s|
    ensures forall i :: 0 <= i < |ix| ==> ix[i] < k
  {
    if k == 0 then []
    else CompatibleIndices(s, masked, k - 1) + (if Compatible(s[k - 1], masked) then [k - 1] else [])
  }

  /**
   * A leaf lists exactly the compatible instructions, in table order: the
   * ones the filter of the next search would keep.
   */
  lemma {:induction false} LeafIsFilter(s: seq<Instruction>, masked: Instruction, k: nat)
    requires k <= |s|
    ensures forall j: nat :: j in CompatibleIndices(s, masked, k) <==> j < k && Compatible(s[j], masked)
    ensures |CompatibleIndices(s, masked, k)| == |FilterTo(s, masked, k)|
    ensures forall i :: 0 <= i < |FilterTo(s, masked, k)| ==>
      FilterTo(s, masked, k)[i] == s[CompatibleIndices(s, masked, k)[i]]
  {
    if k > 0 {
      LeafIsFilter(s, masked, k - 1);
    }
  }

  /** The leaf list of `go`: the indices of the instructions compatible with the child. */
  method LeafInstructions(instructions: array<Instruction>, count: nat, masked: Instruction) returns (ids: seq<nat>)
    requires count <= instructions.Length
    ensures ids == CompatibleIndices(instructions[..], masked, count)
  {
    ids := [];
    var m := 0;
    while m < count
      invariant m <= count
      invariant ids == CompatibleIndices(instructions[..], masked, m)
    {
      var mask := And(instructions[m].mask, masked.mask);
      AndComm(instructions[m].mask, masked.mask);
      if And(masked.value, mask) == And(instructions[m].value, mask) {
        ids := ids + [m];
      }
      m := m + 1;
    }
  }
}
