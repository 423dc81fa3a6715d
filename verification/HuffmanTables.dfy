/** What the decoding tables of `stbi__zhuffman` hold, and why looking codes up in them finds the symbol at the
    front of a stream. */
module HuffmanTables {
  import opened CanonicalCodes

  const FAST_BITS: nat := 9
  const FAST_SIZE: nat := 512

  /** The number of symbols with shorter codes. */
  function FirstSymbol(lens: seq<nat>, l: nat): nat {
    if l <= 1 then 0 else FirstSymbol(lens, l - 1) + Count(lens, l - 1)
  }

  /** The place of a symbol when symbols are ordered by the length of their codes. */
  function SlotOf(lens: seq<nat>, i: nat): nat
    requires i < |lens|
  {
    FirstSymbol(lens, lens[i]) + Count(lens[..i], lens[i])
  }

  /** Entry `j` of the fast table after the first `n` symbols: the length and number of the symbol whose code
      the bits of `j` begin with. */
  function FastOf(lens: seq<nat>, n: nat, j: nat): nat
    requires n <= |lens|
  {
    if n == 0 then 0
    else if 0 < lens[n - 1] <= FAST_BITS && Rev(j, lens[n - 1]) == CodeOf(lens, n - 1) then lens[n - 1] * 512 + (n - 1)
    else FastOf(lens, n - 1, j)
  }

  ghost predicate FastFilled(fast: seq<nat>, lens: seq<nat>, n: nat)
    requires n <= |lens|
  {
    |fast| == FAST_SIZE && forall j :: 0 <= j < FAST_SIZE ==> fast[j] == FastOf(lens, n, j)
  }

  /** The ranges of codes and symbols of the lengths below `l`. */
  ghost predicate RangesSet(firstcode: seq<nat>, maxcode: seq<nat>, firstsymbol: seq<nat>, lens: seq<nat>, l: nat) {
    && |firstcode| == 16 && |maxcode| == 17 && |firstsymbol| == 16
    && forall k {:trigger firstcode[k]} {:trigger maxcode[k]} {:trigger firstsymbol[k]} :: 1 <= k < l && k <= MAX_BITS ==>
         && firstcode[k] == FirstCode(lens, k)
         && maxcode[k] == EndCode(lens, k) * Pow2(16 - k)
         && firstsymbol[k] == FirstSymbol(lens, k)
  }

  ghost predicate SymbolsSet(size: seq<nat>, value: seq<nat>, lens: seq<nat>, n: nat)
    requires n <= |lens|
  {
    && |size| == 288 && |value| == 288
    && forall i {:trigger SlotOf(lens, i)} :: 0 <= i < n && lens[i] > 0 ==>
         SlotOf(lens, i) < 288 && size[SlotOf(lens, i)] == lens[i] && value[SlotOf(lens, i)] == i
  }

  // ----- slots

  /** How many symbols have a positive length below `l`. */
  function Shorter(lens: seq<nat>, l: nat): (n: nat)
    ensures n <= |lens|
  {
    if lens == [] then 0 else Shorter(lens[..|lens| - 1], l) + if 0 < lens[|lens| - 1] < l then 1 else 0
  }

  lemma {:induction false} ShorterNext(lens: seq<nat>, l: nat)
    requires l > 0
    ensures Shorter(lens, l + 1) == Shorter(lens, l) + Count(lens, l)
    ensures Shorter(lens, 1) == 0
  {
    if lens != [] {
      ShorterNext(lens[..|lens| - 1], l);
    }
  }

  lemma {:induction false} FirstIsShorter(lens: seq<nat>, l: nat)
    requires l > 0
    ensures FirstSymbol(lens, l) == Shorter(lens, l)
  {
    if l == 1 {
      ShorterNext(lens, 1);
    } else {
      FirstIsShorter(lens, l - 1);
      ShorterNext(lens, l - 1);
    }
  }

  lemma {:induction false} SlotsGrow(lens: seq<nat>, s: nat, t: nat)
    requires 0 < s < t
    ensures FirstSymbol(lens, s) + Count(lens, s) <= FirstSymbol(lens, t)
  {
    if s < t - 1 {
      SlotsGrow(lens, s, t - 1);
    }
  }

  /** Slots are within bounds, and no two symbols share one. */
  lemma SlotInRange(lens: seq<nat>, i: nat)
    requires i < |lens| && lens[i] > 0
    ensures FirstSymbol(lens, lens[i]) <= SlotOf(lens, i) < |lens|
  {
    RankBelowCount(lens, i);
    FirstIsShorter(lens, lens[i] + 1);
  }

  lemma SlotsDiffer(lens: seq<nat>, i: nat, j: nat)
    requires i < |lens| && j < |lens| && i != j && lens[i] > 0 && lens[j] > 0
    ensures SlotOf(lens, i) != SlotOf(lens, j)
  {
    RankBelowCount(lens, i);
    RankBelowCount(lens, j);
    if lens[i] < lens[j] {
      SlotsGrow(lens, lens[i], lens[j]);
    } else if lens[j] < lens[i] {
      SlotsGrow(lens, lens[j], lens[i]);
    } else if i < j {
      RankOrder(lens, i, j);
    } else {
      RankOrder(lens, j, i);
    }
  }

  lemma SymbolAdded(size: seq<nat>, value: seq<nat>, lens: seq<nat>, n: nat)
    requires n < |lens| <= 288 && lens[n] > 0 && SymbolsSet(size, value, lens, n)
    ensures SlotOf(lens, n) < 288
    ensures SymbolsSet(size[SlotOf(lens, n) := lens[n]], value[SlotOf(lens, n) := n], lens, n + 1)
  {
    SlotInRange(lens, n);
    forall i: nat | i < n && lens[i] > 0
      ensures SlotOf(lens, i) != SlotOf(lens, n)
    {
      SlotsDiffer(lens, i, n);
    }
  }

  // ----- the fast table

  /** The fast table finds exactly the symbols with short codes. */
  lemma {:induction false} FastFinds(lens: seq<nat>, n: nat, v: nat)
    requires ValidLengths(lens) && n <= |lens|
    ensures var f := FastOf(lens, n, v % FAST_SIZE);
      if f == 0 then forall i: nat :: i < n && lens[i] <= FAST_BITS ==> !AtFront(lens, v, i)
      else f % 512 < n && AtFront(lens, v, f % 512) && f / 512 == lens[f % 512] <= FAST_BITS
  {
    hide Rev, Pow2, CodeOf;
    if n > 0 {
      FastFinds(lens, n - 1, v);
      if lens[n - 1] <= FAST_BITS {
        FastReads(v, lens[n - 1]);
      }
    }
  }

  lemma FastReads(v: nat, l: nat)
    requires l <= FAST_BITS
    ensures Rev(v % FAST_SIZE, l) == Rev(v, l)
  {
    assert FAST_SIZE == Pow2(FAST_BITS);
    RevOfMod(v, FAST_BITS, l);
  }

  /** One symbol's code fills every entry that begins with it. */
  lemma FastAdded(fast: seq<nat>, fast': seq<nat>, lens: seq<nat>, n: nat)
    requires n < |lens| && FastFilled(fast, lens, n) && |fast'| == FAST_SIZE
    requires 0 < lens[n] <= FAST_BITS && CodeOf(lens, n) < Pow2(lens[n])
    requires forall j :: 0 <= j < FAST_SIZE ==>
      fast'[j] == if j % Pow2(lens[n]) == Rev(CodeOf(lens, n), lens[n]) then lens[n] * 512 + n else fast[j]
    ensures FastFilled(fast', lens, n + 1)
  {
    forall j: nat | j < FAST_SIZE
      ensures fast'[j] == FastOf(lens, n + 1, j)
    {
      ReadsIffLowBits(j, CodeOf(lens, n), lens[n]);
    }
  }

  // ----- the slow path

  /** The slow path reads 16 bits and compares their top with the end of each range. */
  lemma BelowMaxCode(lens: seq<nat>, v: nat, s: nat)
    requires 0 < s <= MAX_BITS
    ensures Rev(v, 16) / Pow2(16 - s) == Rev(v, s)
    ensures Rev(v, 16) < EndCode(lens, s) * Pow2(16 - s) <==> Rev(v, s) < EndCode(lens, s)
  {
    RevPrefix(v, 16, s);
    MulLess(Rev(v, 16), EndCode(lens, s), Pow2(16 - s));
  }

  lemma FastMissed(lens: seq<nat>, v: nat)
    requires ValidLengths(lens) && FastOf(lens, |lens|, v % FAST_SIZE) == 0
    ensures EndCode(lens, FAST_BITS) <= Rev(v, FAST_BITS)
  {
    FastFinds(lens, |lens|, v);
    FrontIffBelowEnd(lens, v, FAST_BITS);
  }

  lemma NothingFound(lens: seq<nat>, v: nat)
    requires ValidLengths(lens) && EndCode(lens, MAX_BITS) <= Rev(v, MAX_BITS)
    ensures forall i: nat :: !AtFront(lens, v, i)
  {
    FrontIffBelowEnd(lens, v, MAX_BITS);
  }

  /** The first range that is not exceeded holds the symbol. */
  lemma SlowFinds(lens: seq<nat>, v: nat, s: nat) returns (i: nat)
    requires ValidLengths(lens) && 0 < s <= MAX_BITS
    requires EndCode(lens, s - 1) <= Rev(v, s - 1) && Rev(v, s) < EndCode(lens, s)
    ensures AtFront(lens, v, i) && lens[i] == s
    ensures FirstCode(lens, s) <= Rev(v, s)
    ensures SlotOf(lens, i) == Rev(v, s) - FirstCode(lens, s) + FirstSymbol(lens, s) < |lens|
  {
    i := SymbolInRange(lens, v, s);
    SlotInRange(lens, i);
  }

  // ----- encoding

  /** The `n` bits of `low`, then `rest`. */
  function Packed(low: nat, n: nat, rest: nat): nat {
    low + Pow2(n) * rest
  }

  /** The stream that begins with the codeword of symbol `i` and goes on with `rest`. */
  function Encode(lens: seq<nat>, i: nat, rest: nat): nat
    requires i < |lens|
  {
    Packed(Rev(CodeOf(lens, i), lens[i]), lens[i], rest)
  }

  /** Every symbol that has a code can be encoded, and its encoding is read back. */
  lemma EncodedAtFront(lens: seq<nat>, i: nat, rest: nat)
    requires ValidLengths(lens) && Kraft(lens) <= Pow2(MAX_BITS) && i < |lens| && lens[i] > 0
    ensures AtFront(lens, Encode(lens, i, rest), i)
    ensures Encode(lens, i, rest) / Pow2(lens[i]) == rest
  {
    var l, c := lens[i], CodeOf(lens, i);
    CodeFits(lens, i);
    DivUnique(Encode(lens, i, rest), Pow2(l), rest, Rev(c, l));
    ReadsIffLowBits(Encode(lens, i, rest), c, l);
  }

  lemma CodeFits(lens: seq<nat>, i: nat)
    requires ValidLengths(lens) && Kraft(lens) <= Pow2(MAX_BITS) && i < |lens| && lens[i] > 0
    ensures CodeOf(lens, i) < Pow2(lens[i])
  {
    KraftIffCodesFit(lens);
    CodeInRange(lens, i);
  }
}
