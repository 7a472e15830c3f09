/**
 * The input side of `best-decoding.c`'s `main`: the checks on the
 * bits-per-access arguments, and the tokenizer that turns each line of the
 * instruction table into a value and a mask. A line lists the 32 bits of an
 * encoding from bit 31 down, one single-character token each, every token
 * ended by a space or a comma; `0` and `1` are fixed bits, any other
 * character a free one.
 *
 * The file is the sequence of its characters; the argument strings are the
 * numbers `atoi` makes of them.
 */
module BestDecodingInput {
  import opened Bits
  import opened BestDecoding

  // ---------------------------------------------------------------------
  // The bits-per-access arguments
  // ---------------------------------------------------------------------

  /** The outcome of the argument checks: accepted, a usage or range error, or a failed assertion. */
  datatype Arguments =
    | Accepted(bitsPerAccess: seq<nat>)
    | Usage
    | TooManyAccesses
    | InvalidBits(access: nat, bits: nat)
    | TotalTooLarge

  /** `unsigned Bits = atoi(...)`: a negative number wraps around to a large unsigned one. */
  function Unsigned(v: int): nat
  {
    v % 0x1_0000_0000
  }

  predicate ValidBits(bits: nat)
  {
    1 <= bits <= 32
  }

  function SumTo(s: seq<nat>, k: nat): nat
    requires k <= |s|
  {
    if k == 0 then 0 else SumTo(s, k - 1) + s[k - 1]
  }

  /**
   * The argument checks of `main`. `values` holds `atoi` of `argv[2..]`.
   * The program stops with a usage message below three arguments, on an
   * assertion with 32 accesses or more, with an error naming the first
   * access (counted from 1) whose bits are not in 1..32, and on an
   * assertion when the bits add up to 32 or more.
   */
  method CheckArguments(argc: nat, values: seq<int>) returns (r: Arguments)
    requires |values| == if argc >= 2 then argc - 2 else 0
    ensures r == Usage <==> argc < 3
    ensures r == TooManyAccesses <==> argc >= 3 && |values| >= 32
    ensures r.InvalidBits? ==>
      1 <= r.access <= |values| && r.bits == Unsigned(values[r.access - 1]) && !ValidBits(r.bits) &&
      forall i :: 0 <= i < r.access - 1 ==> ValidBits(Unsigned(values[i]))
    ensures r.Accepted? || r == TotalTooLarge <==>
      3 <= argc && |values| < 32 && forall i :: 0 <= i < |values| ==> ValidBits(Unsigned(values[i]))
    ensures r.Accepted? ==>
      |r.bitsPerAccess| == |values| && SumTo(r.bitsPerAccess, |values|) < 32 &&
      forall i :: 0 <= i < |values| ==> r.bitsPerAccess[i] == Unsigned(values[i])
    ensures r == TotalTooLarge ==> SumTo(seq(|values|, i requires 0 <= i < |values| => Unsigned(values[i])), |values|) >= 32
  {
    if argc < 3 {
      return Usage;
    }
    var accesses := argc - 2;
    if accesses >= 32 {
      return TooManyAccesses;
    }
    var bitsPerAccess: seq<nat> := [];
    var total := 0;
    for i := 0 to accesses
      invariant |bitsPerAccess| == i && total == SumTo(bitsPerAccess, i)
      invariant forall j :: 0 <= j < i ==> bitsPerAccess[j] == Unsigned(values[j]) && ValidBits(bitsPerAccess[j])
    {
      var bits := Unsigned(values[i]);
      if bits <= 0 || bits > 32 {
        return InvalidBits(i + 1, bits);
      }
      var next := bitsPerAccess + [bits];
      SumPrefix(next, i);
      assert next[..i] == bitsPerAccess;
      total := total + bits;
      bitsPerAccess := next;
    }
    assert bitsPerAccess == seq(|values|, i requires 0 <= i < |values| => Unsigned(values[i]));
    if total >= 32 {
      return TotalTooLarge;
    }
    return Accepted(bitsPerAccess);
  }

  /** A sum over the first k elements ignores what was appended after them. */
  lemma {:induction false} SumPrefix(s: seq<nat>, k: nat)
    requires k < |s|
    ensures SumTo(s, k) == SumTo(s[..k], k)
  {
    if k > 0 {
      SumPrefix(s, k - 1);
      assert s[..k][..k - 1] == s[..k - 1];
      SumPrefix(s[..k], k - 1);
    }
  }

  // ---------------------------------------------------------------------
  // The instruction table
  // ---------------------------------------------------------------------

  /** The tokenizer's state between two characters of a line. */
  datatype Reader = Reader(bitsMet: nat, lastWasSpace: bool, corrupted: bool, lastInput: char, value: nat, mask: nat)

  predicate Separator(ch: char)
  {
    ch == ' ' || ch == ','
  }

  predicate BitChar(ch: char)
  {
    ch == '0' || ch == '1'
  }

  /**
   * One character other than a newline. A separator after a token ends
   * it and fills bit `31 - BitsMet`; a second token character in a row
   * corrupts the line; a corrupted line ignores everything up to its
   * newline, and so do 32 bits already met.
   */
  function Consume(r: Reader, ch: char): Reader
  {
    if r.corrupted then r
    else
      var r1 :=
        if r.bitsMet < 32 && !r.lastWasSpace && Separator(ch) then
          Reader(r.bitsMet + 1, r.lastWasSpace, false, r.lastInput,
                 if r.lastInput == '1' then Or(r.value, Shl(1, 31 - r.bitsMet)) else r.value,
                 if BitChar(r.lastInput) then Or(r.mask, Shl(1, 31 - r.bitsMet)) else r.mask)
        else if r.bitsMet < 32 && !r.lastWasSpace then r.(corrupted := true)
        else r;
      r1.(lastWasSpace := Separator(ch), lastInput := ch)
  }

  /** The state at the start of a line; the last character read is kept. */
  function LineStart(lastInput: char): Reader
  {
    Reader(0, true, false, lastInput, 0, 0)
  }

  /**
   * The state and the kept instructions after the first i characters of
   * the file: at each newline, a line that is intact and has 32 bits is
   * kept, and the state starts over.
   */
  function ReadTo(input: seq<char>, i: nat): (Reader, seq<Instruction>)
    requires i <= |input|
  {
    if i == 0 then (LineStart(0 as char), [])
    else
      var prev := ReadTo(input, i - 1);
      if input[i - 1] == '\n' then
        (LineStart(prev.0.lastInput),
         prev.1 + (if !prev.0.corrupted && prev.0.bitsMet == 32 then [Instruction(prev.0.value, prev.0.mask)] else []))
      else (Consume(prev.0, input[i - 1]), prev.1)
  }

  /** The reading loop of `main`: one character at a time until the end of the file. */
  method ReadInstructions(input: seq<char>) returns (buffer: seq<Instruction>)
    ensures buffer == ReadTo(input, |input|).1
  {
    var bitsMet := 0;
    var lastWasSpace := true;
    var corrupted := false;
    var lastInput := 0 as char;
    var value := 0;
    var mask := 0;
    buffer := [];
    var i := 0;
    while i < |input|
      invariant i <= |input|
      invariant ReadTo(input, i) == (Reader(bitsMet, lastWasSpace, corrupted, lastInput, value, mask), buffer)
    {
      var ch := input[i];
      ghost var before := Reader(bitsMet, lastWasSpace, corrupted, lastInput, value, mask);
      i := i + 1;
      assert ReadTo(input, i - 1) == (before, buffer);
      if ch == '\n' {
        if !corrupted && bitsMet == 32 {
          buffer := buffer + [Instruction(value, mask)];
        }
        value := 0;
        mask := 0;
        bitsMet := 0;
        lastWasSpace := true;
        corrupted := false;
        assert ReadTo(input, i).0 == Reader(bitsMet, lastWasSpace, corrupted, lastInput, value, mask);
        assert ReadTo(input, i).1 == buffer;
        continue;
      }
      if corrupted {
        assert ReadTo(input, i).0 == Reader(bitsMet, lastWasSpace, corrupted, lastInput, value, mask);
        continue;
      }
      if bitsMet < 32 {
        var isSpace := ch == ' ' || ch == ',';
        if !lastWasSpace && isSpace {
          if lastInput == '0' || lastInput == '1' {
            mask := Or(mask, Shl(1, 31 - bitsMet));
          }
          if lastInput == '1' {
            value := Or(value, Shl(1, 31 - bitsMet));
          }
          bitsMet := bitsMet + 1;
        } else if !lastWasSpace && !isSpace {
          corrupted := true;
        }
      }
      lastWasSpace := ch == ' ' || ch == ',';
      lastInput := ch;
      assert Reader(bitsMet, lastWasSpace, corrupted, lastInput, value, mask) == Consume(before, ch);
    }
  }

  // ---------------------------------------------------------------------
  // What a line of the table becomes
  // ---------------------------------------------------------------------

  /** The reader after the characters of `line` from state `r`, with no newline among them. */
  function ReadLine(r: Reader, line: seq<char>): Reader
  {
    if line == [] then r else Consume(ReadLine(r, line[..|line| - 1]), line[|line| - 1])
  }

  /** Inside a line, reading the file is reading that line from the state the line started in. */
  lemma {:induction false} ReadWithinLine(input: seq<char>, i: nat, j: nat)
    requires i <= j <= |input|
    requires forall p :: i <= p < j ==> input[p] != '\n'
    ensures ReadTo(input, j) == (ReadLine(ReadTo(input, i).0, input[i..j]), ReadTo(input, i).1)
  {
    if j > i {
      ReadWithinLine(input, i, j - 1);
      assert input[i..j][..j - 1 - i] == input[i..j - 1];
    }
  }

  /** A character that can stand for one bit: neither a separator nor a newline. */
  predicate TokenChar(ch: char)
  {
    !Separator(ch) && ch != '\n'
  }

  /** A line's worth of tokens, each followed by a comma. */
  function Tokens(cs: seq<char>): (line: seq<char>)
    ensures |line| == 2 * |cs|
    ensures forall q :: 0 <= q < |line| ==> line[q] == ',' || line[q] in cs
  {
    if cs == [] then [] else Tokens(cs[..|cs| - 1]) + [cs[|cs| - 1], ',']
  }

  /** An intact line that has met n of the 32 tokens in `cs`, bits 31 down to 32 - n filled from them. */
  ghost predicate Intact(r: Reader, cs: seq<char>, n: nat)
  {
    |cs| == 32 && n <= 32 && r.bitsMet == n && r.lastWasSpace && !r.corrupted &&
    (forall k: nat :: Bit(r.value, k) <==> 32 - n <= k < 32 && cs[31 - k] == '1') &&
    (forall k: nat :: Bit(r.mask, k) <==> 32 - n <= k < 32 && BitChar(cs[31 - k]))
  }

  /** A token and its comma fill one more bit. */
  lemma TokenStep(r: Reader, cs: seq<char>, n: nat)
    requires Intact(r, cs, n) && n < 32 && TokenChar(cs[n])
    ensures Intact(Consume(Consume(r, cs[n]), ','), cs, n + 1)
  {
    var r1 := Consume(r, cs[n]);
    assert r1 == r.(lastWasSpace := false, lastInput := cs[n]);
    var r2 := Consume(r1, ',');
    var bit := Shl(1, 31 - n);
    assert r2.value == if cs[n] == '1' then Or(r.value, bit) else r.value;
    assert r2.mask == if BitChar(cs[n]) then Or(r.mask, bit) else r.mask;
    OrBits(r.value, Shl(1, 31 - n));
    OrBits(r.mask, Shl(1, 31 - n));
    ShlBits(1, 31 - n);
    Pow2Bit(0);
    assert Pow2(0) == 1;
    assert forall k: nat :: Bit(bit, k) <==> k == 31 - n;
    forall k: nat ensures Bit(r2.value, k) <==> 32 - (n + 1) <= k < 32 && cs[31 - k] == '1' {
      if k == 31 - n {
        assert cs[31 - k] == cs[n];
      }
    }
    forall k: nat ensures Bit(r2.mask, k) <==> 32 - (n + 1) <= k < 32 && BitChar(cs[31 - k]) {
      if k == 31 - n {
        assert cs[31 - k] == cs[n];
      }
    }
  }

  lemma {:induction false} TokensRead(x: char, cs: seq<char>, n: nat)
    requires |cs| == 32 && n <= 32
    requires forall t :: 0 <= t < 32 ==> TokenChar(cs[t])
    ensures Intact(ReadLine(LineStart(x), Tokens(cs[..n])), cs, n)
  {
    if n == 0 {
      assert cs[..0] == [];
      ZeroBits();
    } else {
      TokensRead(x, cs, n - 1);
      var a := Tokens(cs[..n - 1]);
      assert cs[..n][..n - 1] == cs[..n - 1];
      assert Tokens(cs[..n]) == a + [cs[n - 1], ','];
      assert (a + [cs[n - 1], ','])[..|a| + 1] == a + [cs[n - 1]];
      assert (a + [cs[n - 1]])[..|a|] == a;
      TokenStep(ReadLine(LineStart(x), a), cs, n - 1);
    }
  }

  /**
   * 32 tokens, each ended by a comma, make an intact line of 32 bits: bit k
   * of the value is set when token 31 - k is `1`, and bit k of the mask
   * when it is `0` or `1`.
   */
  lemma TokenLine(x: char, cs: seq<char>)
    requires |cs| == 32 && forall t :: 0 <= t < 32 ==> TokenChar(cs[t])
    ensures var r := ReadLine(LineStart(x), Tokens(cs));
      r.bitsMet == 32 && !r.corrupted &&
      (forall k: nat :: Bit(r.value, k) <==> k < 32 && cs[31 - k] == '1') &&
      (forall k: nat :: Bit(r.mask, k) <==> k < 32 && BitChar(cs[31 - k]))
  {
    TokensRead(x, cs, 32);
    assert cs[..32] == cs;
  }

  /**
   * A table line of 32 tokens and its newline, read from the start of a
   * line, adds exactly one instruction, the one those tokens spell, and
   * leaves the reader at the start of the next line.
   */
  lemma TableLine(input: seq<char>, i: nat, cs: seq<char>)
    requires i + 65 <= |input|
    requires ReadTo(input, i).0 == LineStart(ReadTo(input, i).0.lastInput)
    requires |cs| == 32 && forall t :: 0 <= t < 32 ==> TokenChar(cs[t])
    requires input[i..i + 65] == Tokens(cs) + ['\n']
    ensures var before := ReadTo(input, i).1;
      var after := ReadTo(input, i + 65);
      after.0 == LineStart(',') && |after.1| == |before| + 1 && after.1[..|before|] == before &&
      (forall k: nat :: Bit(after.1[|before|].value, k) <==> k < 32 && cs[31 - k] == '1') &&
      (forall k: nat :: Bit(after.1[|before|].mask, k) <==> k < 32 && BitChar(cs[31 - k]))
  {
    var line := Tokens(cs);
    forall p | i <= p < i + 64 ensures input[p] != '\n' {
      assert input[p] == line[p - i];
    }
    assert input[i..i + 64] == input[i..i + 65][..64];
    assert input[i + 64] == input[i..i + 65][64];
    ReadWithinLine(input, i, i + 64);
    TokenLine(ReadTo(input, i).0.lastInput, cs);
    TokensRead(ReadTo(input, i).0.lastInput, cs, 31);
    assert line[63] == ',';
  }

  /** Characters read into an intact line: two per bit met, one more for a token still open. */
  lemma {:induction false} Budget(x: char, line: seq<char>)
    ensures var r := ReadLine(LineStart(x), line);
      !r.corrupted ==> 2 * r.bitsMet + (if r.lastWasSpace then 0 else 1) <= |line|
  {
    if line != [] {
      Budget(x, line[..|line| - 1]);
    }
  }

  /**
   * Two token characters in a row among the first 64 characters of a line
   * corrupt it: a token is one character long.
   */
  lemma {:induction false} AdjacentCorrupts(x: char, line: seq<char>, p: nat)
    requires p + 1 < |line| && p < 63
    requires !Separator(line[p]) && !Separator(line[p + 1])
    ensures ReadLine(LineStart(x), line).corrupted
  {
    if |line| == p + 2 {
      assert line[..p + 1][..p] == line[..p];
      Budget(x, line[..p]);
    } else {
      AdjacentCorrupts(x, line[..|line| - 1], p);
    }
  }

  /** So a line with two token characters in a row among its first 64 adds no instruction. */
  lemma AdjacentTokensDropLine(input: seq<char>, i: nat, j: nat, p: nat)
    requires i <= p && p + 1 < j < |input| && p - i < 63
    requires ReadTo(input, i).0 == LineStart(ReadTo(input, i).0.lastInput)
    requires forall q :: i <= q < j ==> input[q] != '\n'
    requires input[j] == '\n'
    requires !Separator(input[p]) && !Separator(input[p + 1])
    ensures ReadTo(input, j + 1).1 == ReadTo(input, i).1
  {
    ReadWithinLine(input, i, j);
    AdjacentCorrupts(ReadTo(input, i).0.lastInput, input[i..j], p - i);
  }

  /** A line whose last token has no separator after it ends with 31 bits and adds no instruction. */
  lemma LastTokenNeedsSeparator(input: seq<char>, i: nat, cs: seq<char>)
    requires i + 64 <= |input|
    requires ReadTo(input, i).0 == LineStart(ReadTo(input, i).0.lastInput)
    requires |cs| == 32 && forall t :: 0 <= t < 32 ==> TokenChar(cs[t])
    requires input[i..i + 64] == Tokens(cs[..31]) + [cs[31], '\n']
    ensures ReadTo(input, i + 64).1 == ReadTo(input, i).1
  {
    var line := Tokens(cs[..31]) + [cs[31]];
    forall q | i <= q < i + 63 ensures input[q] != '\n' {
      assert input[q] == line[q - i];
    }
    assert input[i..i + 63] == input[i..i + 64][..63] == line;
    assert input[i + 63] == input[i..i + 64][63];
    ReadWithinLine(input, i, i + 63);
    TokensRead(ReadTo(input, i).0.lastInput, cs, 31);
    var a := Tokens(cs[..31]);
    assert line[..62] == a;
    var r := ReadLine(ReadTo(input, i).0, a);
    assert ReadLine(ReadTo(input, i).0, line) == Consume(r, cs[31]);
    assert Intact(r, cs, 31);
    assert Consume(r, cs[31]).bitsMet == 31;
    assert ReadTo(input, i + 63).0.bitsMet == 31;
    assert ReadTo(input, i + 64).1 == ReadTo(input, i + 63).1;
  }
}
