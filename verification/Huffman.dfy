/** The Huffman decoder of the bundled zlib decoder (apps/gview/stb_image.h). */
module Huffman {
  import opened Basics
  import opened CanonicalCodes
  import opened BitReverse
  import opened HuffmanTables

  type UInt16 = x: int | 0 <= x < 0x1_0000
  type UInt32 = x: int | 0 <= x < 0x1_0000_0000

  class ZHuffman {
    const fast: array<UInt16>
    const firstcode: array<UInt16>
    const maxcode: array<nat>
    const firstsymbol: array<UInt16>
    const size: array<Byte>
    const value: array<UInt16>

    constructor ()
      ensures Shape() && fresh(fast) && fresh(firstcode) && fresh(maxcode) && fresh(firstsymbol) && fresh(size)
      ensures fresh(value)
    {
      fast := new UInt16[FAST_SIZE];
      firstcode, maxcode, firstsymbol := new UInt16[16], new nat[17], new UInt16[16];
      size, value := new Byte[288], new UInt16[288];
    }

    ghost predicate Shape() {
      && fast.Length == FAST_SIZE && firstcode.Length == 16 && maxcode.Length == 17 && firstsymbol.Length == 16
      && size.Length == 288 && value.Length == 288
      && fast != firstcode && fast != firstsymbol && fast != value && firstcode != firstsymbol
      && firstcode != value && firstsymbol != value
    }

    /** The tables decode the canonical code with these lengths. */
    ghost predicate Decodes(lens: seq<nat>)
      reads fast, firstcode, maxcode, firstsymbol, size, value
    {
      && Shape() && ValidLengths(lens) && Kraft(lens) <= Pow2(MAX_BITS)
      && FastFilled(fast[..], lens, |lens|)
      && RangesSet(firstcode[..], maxcode[..], firstsymbol[..], lens, 16)
      && maxcode[16] == 0x1_0000
      && SymbolsSet(size[..], value[..], lens, |lens|)
    }

    /** The codes of each length; fails when the lengths need more codes than there are. */
    method SetRanges(sizes: seq<nat>, ghost lens: seq<nat>) returns (nextCode: seq<nat>, ok: bool)
      requires Shape() && ValidLengths(lens) && |sizes| == 17
      requires forall l :: 1 <= l < 17 ==> sizes[l] == Count(lens, l)
      modifies firstcode, maxcode, firstsymbol
      ensures ok <==> Kraft(lens) <= Pow2(MAX_BITS)
      ensures ok ==> RangesSet(firstcode[..], maxcode[..], firstsymbol[..], lens, 16) && maxcode[16] == 0x1_0000
      ensures ok ==> |nextCode| == 16 && forall l :: 1 <= l < 16 ==> nextCode[l] == FirstCode(lens, l)
    {
      hide Kraft, FirstCode, FirstSymbol, Count, Pow2;
      KraftIffCodesFit(lens);
      nextCode := seq(16, _ => 0);
      for i := 1 to 16
        invariant |nextCode| == 16
      {
        if sizes[i] > Pow2(i) {
          assert EndCode(lens, i) > Pow2(i);
          return nextCode, false;
        }
      }
      RangesStart(lens);
      var code, k := 0, 0;
      for i := 1 to 16
        invariant code == FirstCode(lens, i) <= Pow2(i) && k == FirstSymbol(lens, i) <= |lens| && |nextCode| == 16
        invariant forall l: nat :: l < i ==> EndCode(lens, l) <= Pow2(l)
        invariant RangesSet(firstcode[..], maxcode[..], firstsymbol[..], lens, i)
        invariant forall l :: 1 <= l < i ==> nextCode[l] == FirstCode(lens, l)
      {
        CodesAreWords(i);
        RangesNext(firstcode[..], maxcode[..], firstsymbol[..], lens, i);
        nextCode := nextCode[i := code];
        firstcode[i] := code;
        firstsymbol[i] := k;
        code := code + sizes[i];
        if sizes[i] != 0 && code - 1 >= Pow2(i) {
          return nextCode, false;
        }
        maxcode[i] := code * Pow2(16 - i);
        code := 2 * code;
        k := k + sizes[i];
      }
      maxcode[16] := 0x1_0000;
      ok := true;
    }

    /** Every entry of the fast table that begins with the code of symbol `i`. */
    method FillFast(code: nat, s: nat, i: nat)
      requires Shape() && 1 <= s <= FAST_BITS && i < 288 && code < Pow2(s)
      modifies fast
      ensures forall j :: 0 <= j < FAST_SIZE ==>
        fast[j] == if j % Pow2(s) == Rev(code, s) then s * 512 + i else old(fast[j])
    {
      hide Pow2, Rev, BitReverse.BitReverse;
      ReverseReads(code, s);
      var j, p := BitReverse.BitReverse(code, s), Pow2(s);
      ghost var before := fast[..];
      FillStart(before, p, Rev(code, s), s * 512 + i);
      while j < FAST_SIZE
        invariant FilledTo(before, fast[..], j, p, Rev(code, s), s * 512 + i)
      {
        FillNext(before, fast[..], j, p, Rev(code, s), s * 512 + i);
        fast[j] := s * 512 + i;
        j := j + p;
      }
    }

    /** Enters every symbol with its code. */
    method SetSymbols(lens: seq<nat>, firstCodes: seq<nat>)
      requires Shape() && ValidLengths(lens) && Kraft(lens) <= Pow2(MAX_BITS) && |firstCodes| == 16
      requires RangesSet(firstcode[..], maxcode[..], firstsymbol[..], lens, 16)
      requires forall l :: 1 <= l < 16 ==> firstCodes[l] == FirstCode(lens, l)
      requires forall j :: 0 <= j < FAST_SIZE ==> fast[j] == 0
      modifies fast, size, value
      ensures FastFilled(fast[..], lens, |lens|) && SymbolsSet(size[..], value[..], lens, |lens|)
    {
      hide Kraft, FirstCode, FirstSymbol, Count, Pow2, Rev, FastFilled, SymbolsSet, FastOf;
      var nextCode := firstCodes;
      NoSymbols(fast[..], size[..], value[..], lens);
      for i := 0 to |lens|
        invariant FastFilled(fast[..], lens, i) && SymbolsSet(size[..], value[..], lens, i)
        invariant |nextCode| == 16 && forall l :: 1 <= l < 16 ==> nextCode[l] == FirstCode(lens, l) + Count(lens[..i], l)
      {
        RanksNext(lens, i);
        var s := lens[i];
        if s == 0 {
          AbsentSymbol(fast[..], size[..], value[..], lens, i);
        } else {
          CodeFits(lens, i);
          SymbolAdded(size[..], value[..], lens, i);
          var c := nextCode[s] - firstcode[..][s] + firstsymbol[..][s];
          size[c] := s;
          value[c] := i;
          if s <= FAST_BITS {
            ghost var before := fast[..];
            FillFast(nextCode[s], s, i);
            FastAdded(before, fast[..], lens, i);
          } else {
            LongSymbol(fast[..], lens, i);
          }
          nextCode := nextCode[s := nextCode[s] + 1];
        }
      }
    }

    /** Builds the tables; refuses exactly the lengths that need more codes than there are. */
    method Build(lens: seq<nat>) returns (ok: bool)
      requires Shape() && ValidLengths(lens)
      modifies fast, firstcode, maxcode, firstsymbol, size, value
      ensures ok <==> Kraft(lens) <= Pow2(MAX_BITS)
      ensures ok ==> Decodes(lens)
    {
      hide Kraft, FastFilled, RangesSet, SymbolsSet, Pow2, FirstCode, Count;
      for i := 0 to FAST_SIZE
        invariant forall j :: 0 <= j < i ==> fast[j] == 0
      {
        fast[i] := 0;
      }
      var sizes := CountSizes(lens);
      var nextCode;
      nextCode, ok := SetRanges(sizes, lens);
      if ok {
        SetSymbols(lens, nextCode);
      }
    }
  }

  /** How many symbols have each length. */
  method CountSizes(lens: seq<nat>) returns (sizes: seq<nat>)
    requires ValidLengths(lens)
    ensures |sizes| == 17 && sizes[0] == 0
    ensures forall l :: 1 <= l < 17 ==> sizes[l] == Count(lens, l)
  {
    sizes := seq(17, _ => 0);
    for i := 0 to |lens|
      invariant |sizes| == 17 && forall l :: 0 <= l < 17 ==> sizes[l] == Count(lens[..i], l)
    {
      RanksNext(lens, i);
      sizes := sizes[lens[i] := sizes[lens[i]] + 1];
    }
    assert lens[..|lens|] == lens;
    assert forall l :: 0 <= l < 17 ==> sizes[l] == Count(lens, l);
    sizes := sizes[0 := 0];
  }

  // ----- ranges

  lemma RangesStart(lens: seq<nat>)
    ensures FirstCode(lens, 1) == 0 && FirstSymbol(lens, 1) == 0 && EndCode(lens, 0) == 0 && Pow2(1) == 2
  {}

  /** Codes of at most 15 bits fit the fields that hold them. */
  lemma CodesAreWords(i: nat)
    requires 1 <= i <= 15
    ensures Pow2(i) <= 0x8000 && Pow2(i + 1) == 2 * Pow2(i)
  {
    Pow2Grows(i, 15);
    KnownPowers();
  }

  lemma RangesNext(firstcode: seq<nat>, maxcode: seq<nat>, firstsymbol: seq<nat>, lens: seq<nat>, i: nat)
    requires RangesSet(firstcode, maxcode, firstsymbol, lens, i) && 1 <= i <= 15
    ensures EndCode(lens, i) == FirstCode(lens, i) + Count(lens, i)
    ensures FirstCode(lens, i + 1) == 2 * EndCode(lens, i)
    ensures FirstSymbol(lens, i + 1) == FirstSymbol(lens, i) + Count(lens, i) <= |lens|
    ensures RangesSet(firstcode[i := FirstCode(lens, i)], maxcode[i := EndCode(lens, i) * Pow2(16 - i)],
                      firstsymbol[i := FirstSymbol(lens, i)], lens, i + 1)
  {
    FirstIsShorter(lens, i + 1);
  }

  // ----- the fast table

  /** The entries below `j` with remainder `r` are set. */
  ghost predicate FilledTo(before: seq<nat>, fast: seq<nat>, j: nat, p: nat, r: nat, v: nat) {
    && |before| == FAST_SIZE && |fast| == FAST_SIZE && 0 < p && j % p == r
    && forall x :: 0 <= x < FAST_SIZE ==> fast[x] == if x < j && x % p == r then v else before[x]
  }

  lemma FillStart(before: seq<nat>, p: nat, r: nat, v: nat)
    requires |before| == FAST_SIZE && r < p
    ensures FilledTo(before, before, r, p, r, v)
  {
    DivUnique(r, p, 0, r);
    forall x: nat | x < r
      ensures x % p != r
    {
      DivUnique(x, p, 0, x);
    }
  }

  lemma FillNext(before: seq<nat>, fast: seq<nat>, j: nat, p: nat, r: nat, v: nat)
    requires FilledTo(before, fast, j, p, r, v) && j < FAST_SIZE
    ensures FilledTo(before, fast[j := v], j + p, p, r, v)
  {
    NextWithRemainder(j, p);
  }

  lemma NoSymbols(fast: seq<nat>, size: seq<nat>, value: seq<nat>, lens: seq<nat>)
    requires |fast| == FAST_SIZE && |size| == 288 && |value| == 288 && forall j :: 0 <= j < FAST_SIZE ==> fast[j] == 0
    ensures FastFilled(fast, lens, 0) && SymbolsSet(size, value, lens, 0)
    ensures forall l: nat :: Count(lens[..0], l) == 0
  {}

  lemma AbsentSymbol(fast: seq<nat>, size: seq<nat>, value: seq<nat>, lens: seq<nat>, i: nat)
    requires i < |lens| && lens[i] == 0 && FastFilled(fast, lens, i) && SymbolsSet(size, value, lens, i)
    ensures FastFilled(fast, lens, i + 1) && SymbolsSet(size, value, lens, i + 1)
  {}

  lemma LongSymbol(fast: seq<nat>, lens: seq<nat>, i: nat)
    requires i < |lens| && lens[i] > FAST_BITS && FastFilled(fast, lens, i)
    ensures FastFilled(fast, lens, i + 1)
  {}

  lemma RanksNext(lens: seq<nat>, i: nat)
    requires i < |lens|
    ensures forall l: nat :: Count(lens[..i + 1], l) == Count(lens[..i], l) + if lens[i] == l then 1 else 0
  {
    forall l: nat
      ensures Count(lens[..i + 1], l) == Count(lens[..i], l) + if lens[i] == l then 1 else 0
    {
      CountNext(lens, i, l);
    }
  }

  lemma NoMultiple(d: int, p: nat)
    ensures d * p <= 0 || d * p >= p
  {
    AtLeastOne(d, p);
    AtLeastOne(1 - d, p);
    assert (1 - d) * p == p - d * p;
  }

  lemma NextWithRemainder(j: nat, p: nat)
    requires p > 0
    ensures (j + p) % p == j % p
    ensures forall x :: j < x < j + p ==> x % p != j % p
  {
    Division(j, p);
    Distribute(j / p, 1, p);
    DivUnique(j + p, p, j / p + 1, j % p);
    forall x: nat | j < x < j + p
      ensures x % p != j % p
    {
      Division(x, p);
      NoMultiple(x / p - j / p, p);
      assert (x / p - j / p) * p == x / p * p - j / p * p;
    }
  }

  // ----- the bit stream

  /** The number whose bits, lowest first, are those of the bytes. */
  function Little(bytes: seq<Byte>): nat {
    if bytes == [] then 0 else bytes[0] + 0x100 * Little(bytes[1..])
  }

  /** Bit `i` of the stream is bit `i % 8` of byte `i / 8`, and 0 behind the last byte. */
  lemma {:induction false} LittleBit(bytes: seq<Byte>, i: nat)
    ensures Bit(Little(bytes), i) == if i / 8 < |bytes| then Bit(bytes[i / 8], i % 8) else 0
  {
    hide Pow2;
    if bytes == [] {
      ZeroBits(i);
    } else {
      ByteThenRest(bytes[0], Little(bytes[1..]), i);
      if i >= 8 {
        LittleBit(bytes[1..], i - 8);
      }
    }
  }

  lemma ZeroBits(i: nat)
    ensures Bit(0, i) == 0
  {}

  lemma ByteThenRest(b: Byte, n: nat, i: nat)
    ensures Bit(b + 0x100 * n, i) == if i < 8 then Bit(b, i) else Bit(n, i - 8)
  {
    var v := b + 0x100 * n;
    assert Pow2(8) == 0x100;
    hide Pow2;
    assert v % 0x100 == b && v / 0x100 == n;
    if i < 8 {
      BitOfMod(v, 8, i);
    } else {
      Pow2Add(8, i - 8);
      DivDiv(v, Pow2(8), Pow2(i - 8));
    }
  }

  /** Bits waiting in the buffer, then the bytes not read yet; zeros follow for ever. */
  function StreamOf(buffer: nat, bits: nat, rest: seq<Byte>): nat {
    buffer + Pow2(bits) * Little(rest)
  }

  lemma ByteRead(buffer: nat, bits: nat, rest: seq<Byte>)
    requires buffer < Pow2(bits)
    ensures rest != [] ==> StreamOf(buffer + rest[0] * Pow2(bits), bits + 8, rest[1..]) == StreamOf(buffer, bits, rest)
    ensures rest == [] ==> StreamOf(buffer, bits + 8, rest) == StreamOf(buffer, bits, rest)
    ensures rest != [] ==> buffer + rest[0] * Pow2(bits) < Pow2(bits + 8)
    ensures buffer < Pow2(bits + 8)
  {
    Pow2Add(bits, 8);
    KnownPowers();
    hide Pow2;
    if rest == [] {
      assert Little(rest) == 0;
      ByteSplit(Pow2(bits), 0, 0);
    } else {
      assert Little(rest) == rest[0] + 0x100 * Little(rest[1..]);
      hide Little;
      ByteSplit(Pow2(bits), rest[0], Little(rest[1..]));
    }
  }

  lemma ByteSplit(p: nat, b: Byte, l: nat)
    requires p > 0
    ensures p * (b + 0x100 * l) == b * p + p * 0x100 * l
    ensures (b + 1) * p <= p * 0x100 && b * p + p == (b + 1) * p
  {
    Regroup(p, 0x100, l);
    Distribute(b, 0x100 * l, p);
    Distribute(b, 1, p);
    Grows(b + 1, 0x100, p);
  }

  /** The stream below the end of the buffer, and what is left after `n` bits. */
  lemma BitsTaken(buffer: nat, bits: nat, rest: seq<Byte>, n: nat)
    requires buffer < Pow2(bits) && n <= bits
    ensures StreamOf(buffer, bits, rest) % Pow2(n) == buffer % Pow2(n)
    ensures StreamOf(buffer, bits, rest) / Pow2(n) == StreamOf(buffer / Pow2(n), bits - n, rest)
    ensures buffer / Pow2(n) < Pow2(bits - n)
  {
    Pow2Add(n, bits - n);
    Taken(buffer, Pow2(n), Pow2(bits - n), Little(rest));
  }

  lemma Taken(buffer: nat, p: nat, q: nat, l: nat)
    requires p > 0 && buffer < p * q
    ensures (buffer + p * q * l) % p == buffer % p
    ensures (buffer + p * q * l) / p == buffer / p + q * l
    ensures buffer / p < q
  {
    Division(buffer, p);
    Distribute(q * l, buffer / p, p);
    Regroup(p, q, l);
    Regroup(q, l, p);
    DivUnique(buffer + p * q * l, p, buffer / p + q * l, buffer % p);
    MulLess(buffer, q, p);
  }

  class ZBuf {
    const input: seq<Byte>
    var pos: nat
    var codeBuffer: UInt32
    var numBits: nat

    constructor (input: seq<Byte>)
      ensures Valid() && Stream() == Little(input)
    {
      this.input := input;
      pos, codeBuffer, numBits := 0, 0, 0;
    }

    ghost predicate Valid()
      reads this
    {
      pos <= |input| && numBits <= 32 && codeBuffer < Pow2(numBits)
    }

    /** Everything still to be read, as a number. */
    ghost function Stream(): nat
      requires Valid()
      reads this
    {
      StreamOf(codeBuffer, numBits, input[pos..])
    }

    /** The next input byte; zero at the end. */
    method Get8() returns (b: Byte)
      requires pos <= |input|
      modifies this`pos
      ensures pos <= |input|
      ensures if old(pos) == |input| then b == 0 && pos == old(pos) else b == input[old(pos)] && pos == old(pos) + 1
    {
      if pos >= |input| {
        return 0;
      }
      b := input[pos];
      pos := pos + 1;
    }

    /** One more byte in the buffer, above the bits that are there. */
    method FillByte()
      requires Valid() && numBits <= 24
      modifies this
      ensures Valid() && Stream() == old(Stream()) && numBits == old(numBits) + 8
    {
      hide Pow2, StreamOf;
      ByteRead(codeBuffer, numBits, input[pos..]);
      ByteFits(codeBuffer, numBits, if pos < |input| then input[pos] else 0);
      ghost var before := pos;
      var b := Get8();
      codeBuffer := codeBuffer + b * Pow2(numBits);
      numBits := numBits + 8;
    }

    /** Reads at least one byte, and goes on until there is no room for another. */
    method FillBits()
      requires Valid() && numBits <= 24
      modifies this
      ensures Valid() && Stream() == old(Stream()) && numBits > 24
    {
      hide Pow2, StreamOf;
      FillByte();
      while numBits <= 24
        invariant Valid() && Stream() == old(Stream())
        decreases 32 - numBits
      {
        FillByte();
      }
    }

    /** Takes `n` bits off the buffer. */
    method Drop(n: nat)
      requires Valid() && n <= numBits
      modifies this`codeBuffer, this`numBits
      ensures Valid() && Stream() == ShiftRight(old(Stream()), n)
    {
      hide Pow2, StreamOf;
      BitsTaken(codeBuffer, numBits, input[pos..], n);
      codeBuffer := codeBuffer / Pow2(n);
      numBits := numBits - n;
    }

    /** Reads an `n`-bit number. */
    method Receive(n: nat) returns (k: nat)
      requires Valid() && n <= 24
      modifies this
      ensures Valid() && k == old(Stream()) % Pow2(n) && Stream() == ShiftRight(old(Stream()), n)
    {
      hide Pow2, StreamOf;
      if numBits < n {
        FillBits();
      }
      BitsTaken(codeBuffer, numBits, input[pos..], n);
      k := codeBuffer % Pow2(n);
      Drop(n);
    }

    /** Compares with the ranges of the longer codes in turn. */
    method DecodeSlowly(z: ZHuffman, ghost lens: seq<nat>) returns (symbol: int)
      requires Valid() && numBits >= 16 && z.Decodes(lens) && FastOf(lens, |lens|, Stream() % FAST_SIZE) == 0
      modifies this`codeBuffer, this`numBits
      ensures Valid()
      ensures if symbol >= 0 then AtFront(lens, old(Stream()), symbol) && Stream() == ShiftRight(old(Stream()), lens[symbol])
              else symbol == -1 && Stream() == old(Stream()) && forall i: nat :: !AtFront(lens, old(Stream()), i)
    {
      hide Pow2, StreamOf, Rev, FastFilled, SymbolsSet, RangesSet, FastOf, EndCode, FirstCode, AtFront, ShiftRight;
      ghost var v := Stream();
      ReverseReads(codeBuffer, 16);
      LowBitsOfStream(codeBuffer, numBits, input[pos..]);
      FastMissed(lens, v);
      var k := BitReverse.BitReverse(codeBuffer, 16);
      var s := FAST_BITS + 1;
      MaxCodeAt(z.firstcode[..], z.maxcode[..], z.firstsymbol[..], lens, v, s);
      while k >= z.maxcode[s]
        invariant FAST_BITS < s <= 16 && EndCode(lens, s - 1) <= Rev(v, s - 1)
        modifies {}
        decreases 16 - s
      {
        MaxCodeAt(z.firstcode[..], z.maxcode[..], z.firstsymbol[..], lens, v, s);
        s := s + 1;
      }
      if s == 16 {
        NothingFound(lens, v);
        return -1;
      }
      MaxCodeAt(z.firstcode[..], z.maxcode[..], z.firstsymbol[..], lens, v, s);
      ghost var i := SlowFinds(lens, v, s);
      SymbolAt(z.size[..], z.value[..], lens, i);
      var b := ShiftRight(k, 16 - s) - z.firstcode[s] + z.firstsymbol[s];
      Drop(s);
      return z.value[b];
    }

    /** Decodes one symbol: the one whose codeword is at the front of the stream, or -1 when there is none. */
    method Decode(z: ZHuffman, ghost lens: seq<nat>) returns (symbol: int)
      requires Valid() && z.Decodes(lens)
      modifies this
      ensures Valid()
      ensures if symbol >= 0 then AtFront(lens, old(Stream()), symbol) && Stream() == ShiftRight(old(Stream()), lens[symbol])
              else symbol == -1 && Stream() == old(Stream()) && forall i: nat :: !AtFront(lens, old(Stream()), i)
    {
      hide Pow2, StreamOf, Rev, FastFilled, SymbolsSet, RangesSet, FastOf, AtFront;
      if numBits < 16 {
        FillBits();
      }
      FastEntry(codeBuffer, numBits, input[pos..], z.fast[..], lens);
      var b := z.fast[codeBuffer % FAST_SIZE];
      if b != 0 {
        Drop(b / 512);
        return b % 512;
      }
      symbol := DecodeSlowly(z, lens);
    }
  }

  lemma ByteFits(buffer: nat, bits: nat, b: Byte)
    requires buffer < Pow2(bits) && bits <= 24
    ensures buffer + b * Pow2(bits) < 0x1_0000_0000
  {
    Pow2Grows(bits, 24);
    KnownPowers();
    hide Pow2;
    ByteSplit(Pow2(bits), b, 0);
  }

  /** The 16 bits the decoder looks at are in the buffer. */
  lemma LowBitsOfStream(buffer: nat, bits: nat, rest: seq<Byte>)
    requires buffer < Pow2(bits) && 16 <= bits
    ensures Rev(buffer, 16) == Rev(StreamOf(buffer, bits, rest), 16)
    ensures buffer % FAST_SIZE == StreamOf(buffer, bits, rest) % FAST_SIZE
  {
    BitsTaken(buffer, bits, rest, 16);
    RevOfMod(buffer, 16, 16);
    RevOfMod(StreamOf(buffer, bits, rest), 16, 16);
    BitsTaken(buffer, bits, rest, FAST_BITS);
    assert Pow2(FAST_BITS) == FAST_SIZE;
  }

  lemma MaxCodeAt(firstcode: seq<nat>, maxcode: seq<nat>, firstsymbol: seq<nat>, lens: seq<nat>, v: nat, s: nat)
    requires RangesSet(firstcode, maxcode, firstsymbol, lens, 16) && maxcode[16] == 0x1_0000 && 1 <= s <= 16
    ensures if s == 16 then Rev(v, 16) < maxcode[s]
            else
              && (Rev(v, 16) < maxcode[s] <==> Rev(v, s) < EndCode(lens, s))
              && ShiftRight(Rev(v, 16), 16 - s) == Rev(v, s)
              && firstcode[s] == FirstCode(lens, s) && firstsymbol[s] == FirstSymbol(lens, s)
  {
    if s == 16 {
      KnownPowers();
    } else {
      BelowMaxCode(lens, v, s);
    }
  }

  lemma SymbolAt(size: seq<nat>, value: seq<nat>, lens: seq<nat>, i: nat)
    requires SymbolsSet(size, value, lens, |lens|) && i < |lens| && lens[i] > 0
    ensures SlotOf(lens, i) < 288 && value[SlotOf(lens, i)] == i && size[SlotOf(lens, i)] == lens[i]
  {}

  lemma FastEntry(buffer: nat, bits: nat, rest: seq<Byte>, fast: seq<nat>, lens: seq<nat>)
    requires ValidLengths(lens) && FastFilled(fast, lens, |lens|) && buffer < Pow2(bits) && 16 <= bits
    ensures var v, b := StreamOf(buffer, bits, rest), fast[buffer % FAST_SIZE];
      if b == 0 then FastOf(lens, |lens|, v % FAST_SIZE) == 0
      else AtFront(lens, v, b % 512) && b / 512 == lens[b % 512] <= FAST_BITS
  {
    LowBitsOfStream(buffer, bits, rest);
    FastFinds(lens, |lens|, StreamOf(buffer, bits, rest));
  }
}
