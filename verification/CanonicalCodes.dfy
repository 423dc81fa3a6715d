/** Canonical Huffman codes as section 3.2.2 of RFC 1951 defines them, and the order of their bits in a stream. */
module CanonicalCodes {
  const MAX_BITS: nat := 15

  function Pow2(n: nat): (p: nat)
    ensures p > 0
  {
    if n == 0 then 1 else 2 * Pow2(n - 1)
  }

  lemma {:induction false} Pow2Add(a: nat, b: nat)
    ensures Pow2(a + b) == Pow2(a) * Pow2(b)
  {
    if a > 0 {
      Pow2Add(a - 1, b);
      assert Pow2(a + b) == 2 * Pow2(a - 1 + b);
    }
  }

  lemma KnownPowers()
    ensures Pow2(8) == 0x100 && Pow2(15) == 0x8000 && Pow2(16) == 0x1_0000 && Pow2(24) == 0x100_0000
  {
    Pow2Add(8, 8);
    Pow2Add(8, 16);
  }

  lemma Pow2Grows(a: nat, b: nat)
    requires a <= b
    ensures Pow2(a) <= Pow2(b)
  {
    Pow2Add(a, b - a);
    Grows(1, Pow2(b - a), Pow2(a));
  }

  // ----- bits

  function Bit(v: nat, i: nat): (b: nat)
    ensures b <= 1
  {
    (v / Pow2(i)) % 2
  }

  function Quotient(v: nat, p: nat): nat
    requires p > 0
  {
    v / p
  }

  function ShiftRight(v: nat, n: nat): nat {
    Quotient(v, Pow2(n))
  }

  /** The number read from the lowest `n` bits of `v`, the lowest bit first: the order in which a stream
      delivers the bits of a codeword. */
  function Rev(v: nat, n: nat): (r: nat)
    ensures r < Pow2(n)
  {
    if n == 0 then 0 else 2 * Rev(v, n - 1) + Bit(v, n - 1)
  }

  lemma DivUnique(v: nat, a: nat, q: nat, r: nat)
    requires v == q * a + r && r < a
    ensures v / a == q && v % a == r
  {
    var q' := v / a;
    assert q' * a + v % a == v;
    Compare(a, q, q', r, v % a);
    Compare(a, q', q, v % a, r);
  }

  lemma AtLeastOne(d: int, a: nat)
    ensures d >= 1 ==> d * a >= a
  {}

  lemma Compare(a: nat, q: nat, q': nat, r: nat, r': nat)
    requires q * a + r == q' * a + r' && r' < a
    ensures q <= q'
  {
    AtLeastOne(q - q', a);
    assert (q - q') * a == q * a - q' * a;
  }

  lemma Distribute(a: nat, b: nat, c: nat)
    ensures (a + b) * c == a * c + b * c
  {}

  lemma Regroup(a: nat, b: nat, c: nat)
    ensures a * b * c == a * (b * c) == a * c * b
  {}

  lemma Grows(a: nat, b: nat, c: nat)
    requires a <= b
    ensures a * c <= b * c
  {}

  lemma DivDiv(v: nat, a: nat, b: nat)
    requires a > 0 && b > 0
    ensures a * b > 0 && v / (a * b) == v / a / b
  {
    Grows(1, b, a);
    var w := v / a;
    var q, r := w / b, w % b;
    Division(v, a);
    Division(w, b);
    Regroup(q, a, b);
    Distribute(q * b, r, a);
    Distribute(r, 1, a);
    Grows(r + 1, b, a);
    DivUnique(v, a * b, q, r * a + v % a);
  }

  /** `v / p` over its quotient and its lowest digit. */
  lemma SplitDigit(v: nat, p: nat)
    requires p > 0
    ensures v % (2 * p) == v % p + v / p % 2 * p
  {
    var q, r := v / p, v % p;
    Division(v, p);
    Distribute(q / 2 * 2, q % 2, p);
    Regroup(q / 2, 2, p);
    Grows(q % 2, 1, p);
    DivUnique(v, 2 * p, q / 2, q % 2 * p + r);
  }

  /** A multiple of `2 * p` does not change the digit at `p`. */
  lemma DigitKept(n: nat, p: nat, l: nat)
    requires p > 0
    ensures (2 * n * p + l) / p % 2 == l / p % 2
  {
    Division(l, p);
    Distribute(2 * n, l / p, p);
    DivUnique(2 * n * p + l, p, 2 * n + l / p, l % p);
  }

  /** One more bit at the top. */
  lemma ModStep(v: nat, n: nat)
    ensures v % Pow2(n + 1) == v % Pow2(n) + Bit(v, n) * Pow2(n)
  {
    SplitDigit(v, Pow2(n));
  }

  /** Bits decide a number. */
  lemma {:induction false} BitsDecide(u: nat, v: nat, n: nat)
    requires forall i: nat :: i < n ==> Bit(u, i) == Bit(v, i)
    ensures u % Pow2(n) == v % Pow2(n)
  {
    if n > 0 {
      BitsDecide(u, v, n - 1);
      ModStep(u, n - 1);
      ModStep(v, n - 1);
    }
  }

  lemma BitOfMod(v: nat, m: nat, i: nat)
    requires i < m
    ensures Bit(v % Pow2(m), i) == Bit(v, i)
  {
    Pow2Add(i, m - i);
    LowDigit(v, Pow2(i), Pow2(m - i - 1), Pow2(m));
  }

  lemma LowDigit(v: nat, p: nat, q: nat, m: nat)
    requires p > 0 && m > 0 && m == p * (2 * q)
    ensures v % m / p % 2 == v / p % 2
  {
    var h := v / m;
    Division(v, m);
    Regroup(h, p, 2 * q);
    Regroup(2, h, q);
    Regroup(h * q, 2, p);
    assert h * m == 2 * (h * q) * p;
    DigitKept(h * q, p, v % m);
  }

  lemma Division(v: nat, m: nat)
    requires m > 0
    ensures v == v / m * m + v % m
  {}

  lemma {:induction false} RevOfMod(v: nat, m: nat, n: nat)
    requires n <= m
    ensures Rev(v % Pow2(m), n) == Rev(v, n)
  {
    if n > 0 {
      RevOfMod(v, m, n - 1);
      BitOfMod(v, m, n - 1);
    }
  }

  /** The first `s` bits read are the top `s` of the `m` bits read. */
  lemma {:induction false} RevPrefix(v: nat, m: nat, s: nat)
    requires s <= m
    ensures Rev(v, m) / Pow2(m - s) == Rev(v, s)
  {
    if s < m {
      RevPrefix(v, m - 1, s);
      DivDiv(Rev(v, m), 2, Pow2(m - 1 - s));
      assert Rev(v, m) / 2 == Rev(v, m - 1);
    }
  }

  lemma {:induction false} BitOfRev(v: nat, n: nat, i: nat)
    requires i < n
    ensures Bit(Rev(v, n), i) == Bit(v, n - 1 - i)
  {
    if i > 0 {
      BitOfRev(v, n - 1, i - 1);
      DivDiv(Rev(v, n), 2, Pow2(i - 1));
      assert Rev(v, n) / 2 == Rev(v, n - 1);
    }
  }

  /** Reading backwards twice gives the low bits back. */
  lemma RevTwice(v: nat, n: nat)
    ensures Rev(Rev(v, n), n) == v % Pow2(n)
  {
    forall i: nat | i < n
      ensures Bit(Rev(Rev(v, n), n), i) == Bit(v, i)
    {
      BitOfRev(Rev(v, n), n, i);
      BitOfRev(v, n, n - 1 - i);
    }
    BitsDecide(Rev(Rev(v, n), n), v, n);
    DivUnique(Rev(Rev(v, n), n), Pow2(n), 0, Rev(Rev(v, n), n));
  }

  /** A codeword is read from the stream `v` exactly when its reversal is in the low bits. */
  lemma ReadsIffLowBits(v: nat, code: nat, n: nat)
    requires code < Pow2(n)
    ensures Rev(v, n) == code <==> v % Pow2(n) == Rev(code, n)
  {
    RevTwice(v, n);
    RevTwice(code, n);
    RevOfMod(v, n, n);
    DivUnique(code, Pow2(n), 0, code);
  }

  // ----- canonical codes

  /** Code lengths; a symbol of length 0 does not occur. */
  ghost predicate ValidLengths(lens: seq<nat>) {
    |lens| <= 288 && forall i :: 0 <= i < |lens| ==> lens[i] <= MAX_BITS
  }

  function Count(lens: seq<nat>, l: nat): (c: nat)
    ensures c <= |lens|
  {
    if lens == [] then 0 else Count(lens[..|lens| - 1], l) + if lens[|lens| - 1] == l then 1 else 0
  }

  /** The smallest code of each length. */
  function FirstCode(lens: seq<nat>, l: nat): nat {
    if l <= 1 then 0 else 2 * (FirstCode(lens, l - 1) + Count(lens, l - 1))
  }

  /** One past the largest code of each length. */
  function EndCode(lens: seq<nat>, l: nat): nat {
    if l == 0 then 0 else FirstCode(lens, l) + Count(lens, l)
  }

  /** Codes of one length are consecutive, in the order of the symbols. */
  function CodeOf(lens: seq<nat>, i: nat): nat
    requires i < |lens|
  {
    FirstCode(lens, lens[i]) + Count(lens[..i], lens[i])
  }

  /** The symbol's codeword is at the front of the stream. */
  ghost predicate AtFront(lens: seq<nat>, v: nat, i: nat) {
    i < |lens| && lens[i] > 0 && Rev(v, lens[i]) == CodeOf(lens, i)
  }

  /** The sum of the Kraft inequality over the symbols of length at most `l`, in units of 2^-15. */
  function KraftUpTo(lens: seq<nat>, l: nat): nat {
    if lens == [] then 0
    else KraftUpTo(lens[..|lens| - 1], l) +
         var k := lens[|lens| - 1]; if 0 < k <= l && k <= MAX_BITS then Pow2(MAX_BITS - k) else 0
  }

  function Kraft(lens: seq<nat>): nat {
    KraftUpTo(lens, MAX_BITS)
  }

  // ----- what the codes of one length are

  lemma {:induction false} CountNext(lens: seq<nat>, i: nat, l: nat)
    requires i < |lens|
    ensures Count(lens[..i + 1], l) == Count(lens[..i], l) + if lens[i] == l then 1 else 0
  {
    assert lens[..i + 1][..i] == lens[..i];
  }

  lemma {:induction false} CountGrows(lens: seq<nat>, i: nat, j: nat, l: nat)
    requires i <= j <= |lens|
    ensures Count(lens[..i], l) <= Count(lens[..j], l)
    decreases j
  {
    if i < j {
      CountGrows(lens, i, j - 1, l);
      CountNext(lens, j - 1, l);
    }
  }

  /** Earlier symbols of the same length have smaller ranks, all below the count. */
  lemma RankOrder(lens: seq<nat>, i: nat, j: nat)
    requires i < j <= |lens|
    ensures Count(lens[..i], lens[i]) < Count(lens[..j], lens[i]) <= Count(lens, lens[i])
  {
    CountNext(lens, i, lens[i]);
    CountGrows(lens, i + 1, j, lens[i]);
    CountGrows(lens, j, |lens|, lens[i]);
    assert lens[..|lens|] == lens;
  }

  lemma RankBelowCount(lens: seq<nat>, i: nat)
    requires i < |lens|
    ensures Count(lens[..i], lens[i]) < Count(lens, lens[i])
  {
    RankOrder(lens, i, |lens|);
  }

  /** Every rank below the count belongs to a symbol. */
  lemma {:induction false} SymbolOfRank(lens: seq<nat>, l: nat, r: nat) returns (i: nat)
    requires r < Count(lens, l)
    ensures i < |lens| && lens[i] == l && Count(lens[..i], l) == r
  {
    var n := |lens| - 1;
    if lens[n] == l && Count(lens[..n], l) == r {
      return n;
    }
    i := SymbolOfRank(lens[..n], l, r);
    assert lens[..n][..i] == lens[..i];
  }

  // ----- codes of different lengths

  lemma FirstDoubles(lens: seq<nat>, t: nat)
    requires t > 0
    ensures FirstCode(lens, t) == 2 * EndCode(lens, t - 1) <= EndCode(lens, t)
  {}

  lemma Twice(e: nat, p: nat, f: nat)
    requires e * p <= f
    ensures e * (2 * p) <= 2 * f
  {
    assert e * (2 * p) == 2 * (e * p);
  }

  /** Longer codes start beyond the extensions of the shorter ones. */
  lemma {:induction false} CodesGrow(lens: seq<nat>, s: nat, t: nat)
    requires s <= t
    ensures EndCode(lens, s) * Pow2(t - s) <= EndCode(lens, t)
    ensures s < t ==> EndCode(lens, s) * Pow2(t - s) <= FirstCode(lens, t)
    decreases t
  {
    if s == t {
      assert Pow2(t - s) == 1;
    } else {
      CodesGrow(lens, s, t - 1);
      FirstDoubles(lens, t);
      Twice(EndCode(lens, s), Pow2(t - 1 - s), EndCode(lens, t - 1));
    }
  }

  lemma CodeInRange(lens: seq<nat>, i: nat)
    requires i < |lens| && lens[i] > 0
    ensures FirstCode(lens, lens[i]) <= CodeOf(lens, i) < EndCode(lens, lens[i])
  {
    RankBelowCount(lens, i);
  }

  lemma MulLess(a: nat, b: nat, p: nat)
    requires p > 0
    ensures a / p < b <==> a < b * p
  {
    if a / p < b {
      assert (a / p + 1) * p <= b * p;
    } else {
      assert a / p * p >= b * p;
    }
  }

  /** No codeword is the beginning of another: at most one symbol is at the front of a stream. */
  lemma PrefixFree(lens: seq<nat>, v: nat, i: nat, j: nat)
    requires AtFront(lens, v, i) && AtFront(lens, v, j)
    ensures i == j
  {
    hide Rev, Pow2, Count, FirstCode, EndCode;
    if lens[j] < lens[i] {
      LongerIsBeyond(lens, v, j, lens[i]);
      CodeInRange(lens, i);
    } else if lens[i] == lens[j] {
      if i < j {
        RankOrder(lens, i, j);
      } else if j < i {
        RankOrder(lens, j, i);
      }
    } else {
      LongerIsBeyond(lens, v, i, lens[j]);
      CodeInRange(lens, j);
    }
  }

  /** After a codeword of length `s`, the bits read never reach the codes of a greater length. */
  lemma LongerIsBeyond(lens: seq<nat>, v: nat, i: nat, t: nat)
    requires AtFront(lens, v, i) && lens[i] < t
    ensures Rev(v, t) < FirstCode(lens, t)
  {
    var s := lens[i];
    CodeInRange(lens, i);
    CodesGrow(lens, s, t);
    RevPrefix(v, t, s);
    hide Pow2, Rev, FirstCode, EndCode, CodeOf, Count;
    MulLess(Rev(v, t), EndCode(lens, s), Pow2(t - s));
  }

  /** Some symbol of length at most `s` is at the front exactly when the bits read are below the end of the
      codes of length `s`. */
  lemma {:induction false} FrontIffBelowEnd(lens: seq<nat>, v: nat, s: nat)
    ensures Rev(v, s) < EndCode(lens, s) <==> exists i: nat :: AtFront(lens, v, i) && lens[i] <= s
  {
    if i: nat :| AtFront(lens, v, i) && lens[i] <= s {
      if lens[i] < s {
        LongerIsBeyond(lens, v, i, s);
      } else {
        CodeInRange(lens, i);
      }
    } else if s > 0 && Rev(v, s) < EndCode(lens, s) {
      FrontIffBelowEnd(lens, v, s - 1);
      var i := SymbolInRange(lens, v, s);
    }
  }

  /** Reading a number in the range of codes of length `s`, after no shorter code. */
  lemma SymbolInRange(lens: seq<nat>, v: nat, s: nat) returns (i: nat)
    requires s > 0 && EndCode(lens, s - 1) <= Rev(v, s - 1) && Rev(v, s) < EndCode(lens, s)
    ensures FirstCode(lens, s) <= Rev(v, s)
    ensures AtFront(lens, v, i) && lens[i] == s && Count(lens[..i], s) == Rev(v, s) - FirstCode(lens, s)
  {
    i := SymbolOfRank(lens, s, Rev(v, s) - FirstCode(lens, s));
  }

  // ----- the order of the codes

  /** Codes of one length are consecutive in the order of the symbols, and a longer code comes after all extensions of a
      shorter one. */
  lemma CodesOrdered(lens: seq<nat>, i: nat, j: nat)
    requires i < |lens| && j < |lens| && 0 < lens[i] <= lens[j]
    ensures lens[i] == lens[j] && i < j ==> CodeOf(lens, i) < CodeOf(lens, j)
    ensures lens[i] == lens[j] && i < j && (forall k :: i < k < j ==> lens[k] != lens[i]) ==> CodeOf(lens, j) == CodeOf(lens, i) + 1
    ensures lens[i] < lens[j] ==> (CodeOf(lens, i) + 1) * Pow2(lens[j] - lens[i]) <= CodeOf(lens, j)
  {
    hide Pow2, FirstCode, EndCode;
    if lens[i] == lens[j] {
      if i < j {
        RankOrder(lens, i, j);
        CountNext(lens, i, lens[i]);
        if forall k :: i < k < j ==> lens[k] != lens[i] {
          NoneBetween(lens, i + 1, j, lens[i]);
        }
      }
    } else {
      CodeInRange(lens, i);
      CodeInRange(lens, j);
      CodesGrow(lens, lens[i], lens[j]);
      Grows(CodeOf(lens, i) + 1, EndCode(lens, lens[i]), Pow2(lens[j] - lens[i]));
    }
  }

  lemma {:induction false} NoneBetween(lens: seq<nat>, i: nat, j: nat, l: nat)
    requires i <= j <= |lens| && forall k :: i <= k < j ==> lens[k] != l
    ensures Count(lens[..j], l) == Count(lens[..i], l)
    decreases j
  {
    if i < j {
      NoneBetween(lens, i, j - 1, l);
      CountNext(lens, j - 1, l);
    }
  }

  /** The example of section 3.2.2 of RFC 1951: the symbols A to H with lengths 3, 3, 3, 3, 3, 2, 4, 4. */
  lemma ExampleCodes()
    ensures var lens := [3, 3, 3, 3, 3, 2, 4, 4];
      && CodeOf(lens, 5) == 0 && CodeOf(lens, 0) == 2 && CodeOf(lens, 1) == 3 && CodeOf(lens, 2) == 4
      && CodeOf(lens, 3) == 5 && CodeOf(lens, 4) == 6 && CodeOf(lens, 6) == 14 && CodeOf(lens, 7) == 15
  {
    var lens := [3, 3, 3, 3, 3, 2, 4, 4];
    NoneBetween(lens, 0, 5, 2);
    NoneBetween(lens, 0, 8, 1);
    NoneBetween(lens, 0, 6, 4);
    NoneBetween(lens, 6, 8, 2);
    NoneBetween(lens, 5, 8, 3);
    CountNext(lens, 5, 2);
    CountNext(lens, 0, 3);
    CountNext(lens, 1, 3);
    CountNext(lens, 2, 3);
    CountNext(lens, 3, 3);
    CountNext(lens, 4, 3);
    CountNext(lens, 6, 4);
    assert lens[..8] == lens && lens[..0] == [];
  }

  // ----- the Kraft inequality

  lemma {:induction false} KraftLevel(lens: seq<nat>, l: nat)
    requires 0 < l <= MAX_BITS
    ensures KraftUpTo(lens, l) == KraftUpTo(lens, l - 1) + Count(lens, l) * Pow2(MAX_BITS - l)
  {
    if lens != [] {
      hide Pow2;
      KraftLevel(lens[..|lens| - 1], l);
      Distribute(Count(lens[..|lens| - 1], l), 1, Pow2(MAX_BITS - l));
    }
  }

  lemma {:induction false} KraftNothing(lens: seq<nat>)
    ensures KraftUpTo(lens, 0) == 0
  {
    if lens != [] {
      KraftNothing(lens[..|lens| - 1]);
    }
  }

  /** The codes of length at most `l` take up exactly their share of the code space. */
  lemma {:induction false} KraftIsEnd(lens: seq<nat>, l: nat)
    requires l <= MAX_BITS
    ensures KraftUpTo(lens, l) == EndCode(lens, l) * Pow2(MAX_BITS - l)
  {
    if l == 0 {
      KraftNothing(lens);
    } else {
      KraftIsEnd(lens, l - 1);
      KraftLevel(lens, l);
      Double(EndCode(lens, l - 1), Count(lens, l), Pow2(MAX_BITS - l));
    }
  }

  lemma Double(e: nat, c: nat, p: nat)
    ensures e * (2 * p) + c * p == (2 * e + c) * p
  {}

  /** The inequality holds exactly when no length runs out of codes. */
  lemma KraftIffCodesFit(lens: seq<nat>)
    ensures Kraft(lens) <= Pow2(MAX_BITS) <==> forall l: nat :: l <= MAX_BITS ==> EndCode(lens, l) <= Pow2(l)
  {
    KraftIsEnd(lens, MAX_BITS);
    assert Pow2(MAX_BITS - MAX_BITS) == 1;
    forall l: nat | l <= MAX_BITS && EndCode(lens, MAX_BITS) <= Pow2(MAX_BITS)
      ensures EndCode(lens, l) <= Pow2(l)
    {
      CodesGrow(lens, l, MAX_BITS);
      Pow2Add(l, MAX_BITS - l);
      Cancel(EndCode(lens, l), Pow2(l), Pow2(MAX_BITS - l));
    }
  }

  lemma Cancel(a: nat, b: nat, p: nat)
    requires p > 0 && a * p <= b * p
    ensures a <= b
  {
    AtLeastOne(a - b, p);
    assert (a - b) * p == a * p - b * p;
  }
}
