/** One block of compressed data: literals, matches, and the end symbol (apps/gview/stb_image.h,
    `stbi__parse_huffman_block` and `stbi__zexpand`; section 3.2.5 of RFC 1951). */
module Inflate {
  import opened Basics
  import opened CanonicalCodes
  import opened HuffmanTables
  import opened Huffman

  /** The shortest match of each length symbol; the last two are reserved. */
  function LengthBase(z: nat): (b: nat)
    requires z < 31
    ensures b <= 258
  {
    match z
    case 0 => 3 case 1 => 4 case 2 => 5 case 3 => 6 case 4 => 7 case 5 => 8
    case 6 => 9 case 7 => 10 case 8 => 11 case 9 => 13 case 10 => 15 case 11 => 17
    case 12 => 19 case 13 => 23 case 14 => 27 case 15 => 31 case 16 => 35 case 17 => 43
    case 18 => 51 case 19 => 59 case 20 => 67 case 21 => 83 case 22 => 99 case 23 => 115
    case 24 => 131 case 25 => 163 case 26 => 195 case 27 => 227 case 28 => 258 case 29 => 0
    case 30 => 0
  }

  /** How many bits of the stream add to it. */
  function LengthExtra(z: nat): (b: nat)
    requires z < 31
    ensures b <= 5
  {
    match z
    case 0 => 0 case 1 => 0 case 2 => 0 case 3 => 0 case 4 => 0 case 5 => 0
    case 6 => 0 case 7 => 0 case 8 => 1 case 9 => 1 case 10 => 1 case 11 => 1
    case 12 => 2 case 13 => 2 case 14 => 2 case 15 => 2 case 16 => 3 case 17 => 3
    case 18 => 3 case 19 => 3 case 20 => 4 case 21 => 4 case 22 => 4 case 23 => 4
    case 24 => 5 case 25 => 5 case 26 => 5 case 27 => 5 case 28 => 0 case 29 => 0
    case 30 => 0
  }

  /** The shortest distance of each distance symbol; the last two are reserved. */
  function DistBase(z: nat): (b: nat)
    requires z < 32
    ensures b <= 24577
  {
    match z
    case 0 => 1 case 1 => 2 case 2 => 3 case 3 => 4 case 4 => 5 case 5 => 7
    case 6 => 9 case 7 => 13 case 8 => 17 case 9 => 25 case 10 => 33 case 11 => 49
    case 12 => 65 case 13 => 97 case 14 => 129 case 15 => 193 case 16 => 257 case 17 => 385
    case 18 => 513 case 19 => 769 case 20 => 1025 case 21 => 1537 case 22 => 2049 case 23 => 3073
    case 24 => 4097 case 25 => 6145 case 26 => 8193 case 27 => 12289 case 28 => 16385 case 29 => 24577
    case 30 => 0 case 31 => 0
  }

  /** How many bits of the stream add to it. */
  function DistExtra(z: nat): (b: nat)
    requires z < 32
    ensures b <= 13
  {
    match z
    case 0 => 0 case 1 => 0 case 2 => 0 case 3 => 0 case 4 => 1 case 5 => 1
    case 6 => 2 case 7 => 2 case 8 => 3 case 9 => 3 case 10 => 4 case 11 => 4
    case 12 => 5 case 13 => 5 case 14 => 6 case 15 => 6 case 16 => 7 case 17 => 7
    case 18 => 8 case 19 => 8 case 20 => 9 case 21 => 9 case 22 => 10 case 23 => 10
    case 24 => 11 case 25 => 11 case 26 => 12 case 27 => 12 case 28 => 13 case 29 => 13
    case 30 => 0 case 31 => 0
  }

  // ----- what the tables hold

  /** The lengths of the length symbols follow one another without a gap, from 3 to 258, which also has a symbol of its
      own; from the ninth symbol on the extra bits grow by one every four symbols. */
  lemma LengthsTile(z: nat)
    requires z < 29
    ensures LengthBase(0) == 3 && LengthBase(28) == 258 && LengthExtra(28) == 0
    ensures z < 27 ==> LengthBase(z + 1) == LengthBase(z) + Pow2(LengthExtra(z))
    ensures LengthBase(27) + Pow2(LengthExtra(27)) - 1 == 258
    ensures z < 28 ==> LengthExtra(z) == if z < 8 then 0 else (z - 4) / 4
  {
    SmallPowers();
  }

  /** In the same way the distances go from 1 to 32768, with one more bit every two symbols from the fifth on. */
  lemma DistancesTile(d: nat)
    requires d < 30
    ensures DistBase(0) == 1
    ensures d < 29 ==> DistBase(d + 1) == DistBase(d) + Pow2(DistExtra(d))
    ensures DistBase(29) + Pow2(DistExtra(29)) - 1 == 32768
    ensures DistExtra(d) == if d < 4 then 0 else (d - 2) / 2
  {
    SmallPowers();
  }

  lemma SmallPowers()
    ensures Pow2(0) == 1 && Pow2(1) == 2 && Pow2(2) == 4 && Pow2(3) == 8 && Pow2(4) == 16 && Pow2(5) == 32
    ensures Pow2(6) == 64 && Pow2(7) == 128 && Pow2(8) == 256 && Pow2(9) == 512 && Pow2(10) == 1024
    ensures Pow2(11) == 2048 && Pow2(12) == 4096 && Pow2(13) == 8192
  {
    assert Pow2(5) == 32;
    assert Pow2(10) == 1024;
  }

  /** Length symbol `z` with extra bits `x` stands for `len`. */
  predicate LengthToken(z: nat, x: nat, len: nat) {
    z < 29 && x < Pow2(LengthExtra(z)) && LengthBase(z) + x == len
  }

  predicate DistToken(d: nat, y: nat, dist: nat) {
    d < 30 && y < Pow2(DistExtra(d)) && DistBase(d) + y == dist
  }

  lemma {:induction false} FindLength(z: nat, len: nat) returns (l: nat, x: nat)
    requires z <= 27 && LengthBase(z) <= len <= 258
    ensures LengthToken(l, x, len)
    decreases 27 - z
  {
    hide LengthBase, LengthExtra, Pow2;
    LengthsTile(z);
    if len - LengthBase(z) < Pow2(LengthExtra(z)) {
      l, x := z, len - LengthBase(z);
    } else {
      l, x := FindLength(z + 1, len);
    }
  }

  lemma {:induction false} FindDist(e: nat, dist: nat) returns (d: nat, y: nat)
    requires e < 30 && DistBase(e) <= dist <= 32768
    ensures DistToken(d, y, dist)
    decreases 30 - e
  {
    hide DistBase, DistExtra, Pow2;
    DistancesTile(e);
    if dist - DistBase(e) < Pow2(DistExtra(e)) {
      d, y := e, dist - DistBase(e);
    } else {
      d, y := FindDist(e + 1, dist);
    }
  }

  lemma {:induction false} LengthsAscend(z: nat, w: nat)
    requires z < w <= 27
    ensures LengthBase(z) + Pow2(LengthExtra(z)) <= LengthBase(w)
    decreases w
  {
    hide LengthBase, LengthExtra, Pow2;
    LengthsTile(w - 1);
    if z < w - 1 {
      LengthsAscend(z, w - 1);
    }
  }

  lemma {:induction false} DistsAscend(d: nat, e: nat)
    requires d < e < 30
    ensures DistBase(d) + Pow2(DistExtra(d)) <= DistBase(e)
    decreases e
  {
    hide DistBase, DistExtra, Pow2;
    DistancesTile(e - 1);
    if d < e - 1 {
      DistsAscend(d, e - 1);
    }
  }

  /** Exactly the lengths from 3 to 258 have a symbol and extra bits: one choice each, and two for 258. */
  lemma LengthsCovered(len: nat)
    ensures 3 <= len <= 258 <==> exists z: nat, x: nat :: LengthToken(z, x, len)
    ensures forall z: nat, x: nat, w: nat, y: nat :: LengthToken(z, x, len) && LengthToken(w, y, len) && z < w ==> len == 258 && z == 27 && w == 28
  {
    hide LengthBase, LengthExtra, Pow2;
    LengthsTile(0);
    if 3 <= len <= 258 {
      var z, x := FindLength(0, len);
    }
    forall z: nat, x: nat | LengthToken(z, x, len)
      ensures 3 <= len <= 258 && (z < 27 ==> len < LengthBase(27))
    {
      LengthsTile(z);
      SmallPowers();
      if 0 < z <= 27 {
        LengthsAscend(0, z);
      }
      if z < 27 {
        LengthsAscend(z, 27);
      }
    }
    forall z: nat, x: nat, w: nat, y: nat | LengthToken(z, x, len) && LengthToken(w, y, len) && z < w
      ensures len == 258 && z == 27 && w == 28
    {
      if w <= 27 {
        LengthsAscend(z, w);
      }
    }
  }

  /** Exactly the distances from 1 to 32768 have a symbol and extra bits, one choice each. */
  lemma DistancesCovered(dist: nat)
    ensures 1 <= dist <= 32768 <==> exists d: nat, y: nat :: DistToken(d, y, dist)
    ensures forall d: nat, y: nat, e: nat, x: nat :: DistToken(d, y, dist) && DistToken(e, x, dist) ==> d == e && y == x
  {
    hide DistBase, DistExtra, Pow2;
    DistancesTile(0);
    if 1 <= dist <= 32768 {
      var d, y := FindDist(0, dist);
    }
    forall d: nat, y: nat | DistToken(d, y, dist)
      ensures 1 <= dist <= 32768
    {
      if 0 < d {
        DistsAscend(0, d);
      }
      if d < 29 {
        DistsAscend(d, 29);
      }
    }
    forall d: nat, y: nat, e: nat, x: nat | DistToken(d, y, dist) && DistToken(e, x, dist)
      ensures d == e && y == x
    {
      if d < e {
        DistsAscend(d, e);
      } else if e < d {
        DistsAscend(e, d);
      }
    }
  }

  // ----- what a block means

  /** The symbol at the front of the stream, or -1. */
  ghost function FrontSymbol(lens: seq<nat>, v: nat): (symbol: int)
    ensures symbol == -1 || (symbol >= 0 && AtFront(lens, v, symbol))
    ensures symbol == -1 ==> forall i: nat :: !AtFront(lens, v, i)
  {
    if i: nat :| AtFront(lens, v, i) then i else -1
  }

  lemma FrontSymbolIs(lens: seq<nat>, v: nat, symbol: int)
    requires if symbol >= 0 then AtFront(lens, v, symbol) else symbol == -1 && forall i: nat :: !AtFront(lens, v, i)
    ensures FrontSymbol(lens, v) == symbol < |lens|
  {
    if symbol >= 0 {
      PrefixFree(lens, v, symbol, FrontSymbol(lens, v));
    }
  }

  datatype Item =
    | Literal(b: Byte, rest: nat)
    | End(rest: nat)
    | Match(len: nat, dist: nat, rest: nat)
    | BadCode

  /** A base value plus as many bits as its symbol asks for. */
  function WithExtra(base: nat, extra: nat, v: nat): (r: nat)
    ensures r >= base
  {
    base + v % Pow2(extra)
  }

  /** The first item of the stream `v`. */
  ghost function ItemAt(lens: seq<nat>, dists: seq<nat>, v: nat): Item
    requires |lens| <= 288 && |dists| <= 32
  {
    var z := FrontSymbol(lens, v);
    if z < 0 then BadCode
    else if z < 256 then Literal(z, ShiftRight(v, lens[z]))
    else if z == 256 then End(ShiftRight(v, lens[z]))
    else MatchAt(dists, ShiftRight(v, lens[z]), z - 257)
  }

  /** The rest of a match, after length symbol `z`; with the reserved symbols its length or its distance is 0. */
  ghost function MatchAt(dists: seq<nat>, v: nat, z: nat): (r: Item)
    requires z < 31 && |dists| <= 32
    ensures r.Match? || r.BadCode?
  {
    var v2 := ShiftRight(v, LengthExtra(z));
    var d := FrontSymbol(dists, v2);
    if d < 0 then BadCode
    else
      var v3 := ShiftRight(v2, dists[d]);
      Match(WithExtra(LengthBase(z), LengthExtra(z), v), WithExtra(DistBase(d), DistExtra(d), v3),
            ShiftRight(v3, DistExtra(d)))
  }

  /** A match is of a length that its symbol stands for, symbol 257 being the first, with the next bits of the stream as
      extra bits, and likewise of a distance; a reserved symbol means 0. */
  lemma MatchMeans(lens: seq<nat>, dists: seq<nat>, v: nat)
    requires |lens| <= 288 && |dists| <= 32 && ItemAt(lens, dists, v).Match?
    ensures var z, item := FrontSymbol(lens, v), ItemAt(lens, dists, v);
      && 257 <= z < |lens|
      && (if z <= 285 then LengthToken(z - 257, ShiftRight(v, lens[z]) % Pow2(LengthExtra(z - 257)), item.len) else item.len == 0)
      && var v2 := ShiftRight(ShiftRight(v, lens[z]), LengthExtra(z - 257));
         var d := FrontSymbol(dists, v2);
         && 0 <= d < |dists|
         && if d < 30 then DistToken(d, ShiftRight(v2, dists[d]) % Pow2(DistExtra(d)), item.dist) else item.dist == 0
  {
    hide FrontSymbol, ShiftRight, Pow2;
    var z := FrontSymbol(lens, v) - 257;
    NoExtra(ShiftRight(v, lens[z + 257]));
    var v2 := ShiftRight(ShiftRight(v, lens[z + 257]), LengthExtra(z));
    NoExtra(ShiftRight(v2, dists[FrontSymbol(dists, v2)]));
  }

  /** `len` more elements, each equal to the one `dist` places before it. */
  function Copied<T>(out: seq<T>, dist: nat, len: nat): (r: seq<T>)
    requires 0 < dist <= |out|
    ensures |r| == |out| + len && r[..|out|] == out
  {
    if len == 0 then out
    else var r := Copied(out, dist, len - 1); r + [r[|r| - dist]]
  }

  /** A byte of the output; `None` where a match of distance 0 has copied to itself whatever the memory held. */
  type Cell = Option<Byte>

  function Known(out: seq<Byte>): (cells: seq<Cell>)
    ensures |cells| == |out|
  {
    seq(|out|, i requires 0 <= i < |out| => Some(out[i]))
  }

  /** The bytes are those of the cells that are known. */
  ghost predicate Holds(out: seq<Byte>, cells: seq<Cell>) {
    |out| == |cells| && forall i :: 0 <= i < |cells| && cells[i].Some? ==> out[i] == cells[i].value
  }

  /** The output after a match. */
  function Repeated(out: seq<Cell>, dist: nat, len: nat): (r: seq<Cell>)
    requires dist <= |out|
    ensures |r| == |out| + len && r[..|out|] == out
  {
    if dist == 0 then out + seq(len, _ => None) else Copied(out, dist, len)
  }

  /** The end of a block: complete, corrupt, or more output than there is room for; or there is none. */
  datatype BlockEnd = Complete(out: seq<Cell>, rest: nat) | Corrupt | NoRoom | Endless

  /** The decoding loop between two turns: the output and the stream, or how it has ended. */
  datatype Loop = Running(out: seq<Cell>, v: nat) | Ended(end: BlockEnd)

  /** One turn of the loop. */
  ghost function Turn(lens: seq<nat>, dists: seq<nat>, v: nat, out: seq<Cell>, room: nat): (next: Loop)
    requires |lens| <= 288 && |dists| <= 32 && |out| <= room
    ensures next.Running? ==> |next.out| <= room
  {
    match ItemAt(lens, dists, v)
    case BadCode => Ended(Corrupt)
    case End(rest) => Ended(Complete(out, rest))
    case Literal(b, rest) => if |out| + 1 > room then Ended(NoRoom) else Running(out + [Some(b)], rest)
    case Match(len, dist, rest) =>
      if |out| < dist then Ended(Corrupt)
      else if |out| + len > room then Ended(NoRoom)
      else Running(Repeated(out, dist, len), rest)
  }

  /** What the block at the front of the stream means: turn by turn, until one of them ends it or leaves everything as
      it was. */
  ghost function Block(lens: seq<nat>, dists: seq<nat>, v: nat, out: seq<Cell>, room: nat): BlockEnd
    requires |lens| <= 288 && |dists| <= 32 && |out| <= room
    decreases room - |out|, v
  {
    match Turn(lens, dists, v, out, room)
    case Ended(end) => end
    case Running(out', v') =>
      TurnProgress(lens, dists, v, out, room);
      if out' == out && v' == v then Endless else Block(lens, dists, v', out', room)
  }

  lemma ShiftLess(v: nat, n: nat)
    ensures ShiftRight(v, n) <= v && (v > 0 && n > 0 ==> ShiftRight(v, n) < v)
  {
    if n > 0 && v > 0 {
      Pow2Grows(1, n);
      DivLess(v, Pow2(n));
    } else if v > 0 {
      NoExtra(v);
    }
  }

  lemma DivLess(v: nat, p: nat)
    requires v > 0 && p > 1
    ensures v / p < v
  {
    MulLess(v, v, p);
    Grows(2, p, v);
  }

  /** A match without length comes from a reserved length symbol. */
  lemma NoLength(z: nat, v: nat)
    requires z < 31
    ensures WithExtra(LengthBase(z), LengthExtra(z), v) == 0 <==> z >= 29
    ensures z >= 29 ==> LengthExtra(z) == 0
  {
    if z >= 29 {
      NoExtra(v);
    }
  }

  /** A turn that goes on adds to the output, or uses up some of the stream, or changes nothing. */
  lemma TurnProgress(lens: seq<nat>, dists: seq<nat>, v: nat, out: seq<Cell>, room: nat)
    requires |lens| <= 288 && |dists| <= 32 && |out| <= room && Turn(lens, dists, v, out, room).Running?
    ensures var next := Turn(lens, dists, v, out, room);
      |next.out| > |out| || (next.out == out && (next.v < v || next.v == v == 0))
  {
    hide FrontSymbol, LengthBase, LengthExtra, DistBase, DistExtra, WithExtra, ShiftRight;
    var z := FrontSymbol(lens, v);
    if z > 256 {
      var v1 := ShiftRight(v, lens[z]);
      var v2 := ShiftRight(v1, LengthExtra(z - 257));
      var d := FrontSymbol(dists, v2);
      NoLength(z - 257, v1);
      ShiftLess(v, lens[z]);
      ShiftLess(v1, LengthExtra(z - 257));
      ShiftLess(v2, dists[d]);
      ShiftLess(ShiftRight(v2, dists[d]), DistExtra(d));
    }
  }

  function Phase(i: nat, dist: nat): (r: nat)
    requires dist > 0
    ensures r < dist
  {
    i % dist
  }

  lemma PhaseSteps(i: nat, dist: nat)
    requires dist > 0
    ensures i < dist ==> Phase(i, dist) == i
    ensures Phase(i + dist, dist) == Phase(i, dist)
  {
    NextWithRemainder(i, dist);
    if i < dist {
      DivUnique(i, dist, 0, i);
    }
  }

  /** A block is its first item followed by the rest. */
  lemma BlockStep(lens: seq<nat>, dists: seq<nat>, v: nat, out: seq<Cell>, room: nat)
    requires |lens| <= 288 && |dists| <= 32 && |out| <= room
    ensures var z, end := FrontSymbol(lens, v), Block(lens, dists, v, out, room);
      if z < 0 then end == Corrupt
      else
        var rest := ShiftRight(v, lens[z]);
        if z < 256 then end == if |out| + 1 > room then NoRoom else Block(lens, dists, rest, out + [Some(z)], room)
        else if z == 256 then end == Complete(out, rest)
        else
          var m := MatchAt(dists, rest, z - 257);
          end == if m.BadCode? || |out| < m.dist then Corrupt else if |out| + m.len > room then NoRoom
                 else Block(lens, dists, m.rest, Repeated(out, m.dist, m.len), room)
  {
    hide FrontSymbol, MatchAt, ShiftRight, Repeated;
  }

  /** While the block has an end, every turn adds to the output or uses up some of the stream. */
  lemma TurnCounts(lens: seq<nat>, dists: seq<nat>, v: nat, out: seq<Cell>, room: nat)
    requires |lens| <= 288 && |dists| <= 32 && |out| <= room && !Block(lens, dists, v, out, room).Endless?
    ensures var next := Turn(lens, dists, v, out, room);
      next.Running? ==> |next.out| > |out| || (|next.out| == |out| && next.v < v)
  {
    hide Turn;
    if Turn(lens, dists, v, out, room).Running? {
      TurnProgress(lens, dists, v, out, room);
    }
  }

  /** A match repeats the last `dist` bytes over and over. */
  lemma {:induction false} CopiedRepeats<T>(out: seq<T>, dist: nat, len: nat, i: nat)
    requires 0 < dist <= |out| && i < len
    ensures Copied(out, dist, len)[|out| + i] == out[|out| - dist + Phase(i, dist)]
  {
    hide Phase;
    var r := Copied(out, dist, len - 1);
    if i < len - 1 {
      CopiedRepeats(out, dist, len - 1, i);
    } else if i < dist {
      PhaseSteps(i, dist);
      assert r[|out| + i - dist] == r[..|out|][|out| + i - dist];
    } else {
      CopiedRepeats(out, dist, len - 1, i - dist);
      PhaseSteps(i - dist, dist);
    }
  }

  lemma {:induction false} CopiedRun<T>(out: seq<T>, len: nat)
    requires out != []
    ensures Copied(out, 1, len) == out + seq(len, _ => out[|out| - 1])
  {
    if len > 0 {
      CopiedRun(out, len - 1);
    }
  }

  lemma CopiedNone<T>(out: seq<T>, dist: nat)
    requires 0 < dist <= |out|
    ensures Copied(out, dist, 0) == out
  {}

  lemma CopiedNext<T>(out: seq<T>, dist: nat, k: nat)
    requires 0 < dist <= |out|
    ensures Copied(out, dist, k + 1) == Copied(out, dist, k) + [Copied(out, dist, k)[|out| + k - dist]]
  {}

  /** Copying bytes copies what is known of them. */
  lemma {:induction false} CopiedHolds(out: seq<Byte>, cells: seq<Cell>, dist: nat, len: nat)
    requires Holds(out, cells) && 0 < dist <= |out|
    ensures Holds(Copied(out, dist, len), Copied(cells, dist, len))
  {
    if len > 0 {
      CopiedHolds(out, cells, dist, len - 1);
    }
  }

  lemma {:induction false} CopiedKnown(out: seq<Byte>, dist: nat, len: nat)
    requires 0 < dist <= |out|
    ensures Copied(Known(out), dist, len) == Known(Copied(out, dist, len))
  {
    if len > 0 {
      CopiedKnown(out, dist, len - 1);
    }
  }

  lemma KnownHolds(out: seq<Byte>, out': seq<Byte>)
    ensures Holds(out', Known(out)) <==> out' == out
  {
    if Holds(out', Known(out)) {
      forall i | 0 <= i < |out|
        ensures out'[i] == out[i]
      {
        assert Known(out)[i].Some?;
      }
    }
  }

  lemma KnownAppend(out: seq<Byte>, b: Byte)
    ensures Known(out + [b]) == Known(out) + [Some(b)]
  {}

  // ----- compressing and decompressing

  /** What a compressor writes: a byte, or a match given by its two symbols and their extra bits. */
  datatype Token =
    | Plain(b: Byte)
    | Repeat(l: nat, lengthBits: nat, d: nat, distBits: nat)

  /** The token's symbols are not reserved. */
  predicate Meaningful(token: Token) {
    token.Repeat? ==> token.l < 29 && token.d < 30
  }

  /** The token's symbols have codes, and its extra bits fit. */
  ghost predicate Usable(lens: seq<nat>, dists: seq<nat>, token: Token) {
    && Meaningful(token)
    && match token
       case Plain(b) => b < |lens| && lens[b] > 0
       case Repeat(l, x, d, y) =>
         && 257 + l < |lens| && lens[257 + l] > 0 && x < Pow2(LengthExtra(l))
         && d < |dists| && dists[d] > 0 && y < Pow2(DistExtra(d))
  }

  ghost function EncodeToken(lens: seq<nat>, dists: seq<nat>, token: Token, rest: nat): nat
    requires Usable(lens, dists, token)
  {
    match token
    case Plain(b) => Encode(lens, b, rest)
    case Repeat(l, x, d, y) =>
      Encode(lens, 257 + l, Packed(x, LengthExtra(l), Encode(dists, d, Packed(y, DistExtra(d), rest))))
  }

  /** The output after a token; a match must not reach back beyond the start of the output. */
  function Meaning(token: Token, out: seq<Byte>): Option<seq<Byte>>
    requires Meaningful(token)
  {
    match token
    case Plain(b) => Some(out + [b])
    case Repeat(l, x, d, y) =>
      if |out| < DistBase(d) + y || DistBase(d) == 0 then None else Some(Copied(out, DistBase(d) + y, LengthBase(l) + x))
  }

  ghost predicate AllUsable(lens: seq<nat>, dists: seq<nat>, tokens: seq<Token>) {
    forall i :: 0 <= i < |tokens| ==> Usable(lens, dists, tokens[i])
  }

  ghost predicate AllMeaningful(tokens: seq<Token>) {
    forall i :: 0 <= i < |tokens| ==> Meaningful(tokens[i])
  }

  /** The encodings of the tokens in order, then the end symbol. */
  ghost function EncodeBlock(lens: seq<nat>, dists: seq<nat>, tokens: seq<Token>, rest: nat): nat
    requires |lens| > 256 && AllUsable(lens, dists, tokens)
  {
    if tokens == [] then Encode(lens, 256, rest)
    else EncodeToken(lens, dists, tokens[0], EncodeBlock(lens, dists, tokens[1..], rest))
  }

  ghost function BlockMeaning(tokens: seq<Token>, out: seq<Byte>): Option<seq<Byte>>
    requires AllMeaningful(tokens)
  {
    if tokens == [] then Some(out)
    else match Meaning(tokens[0], out)
      case Some(o) => BlockMeaning(tokens[1..], o)
      case None => None
  }

  lemma EncodedFront(lens: seq<nat>, i: nat, rest: nat)
    requires ValidLengths(lens) && Kraft(lens) <= Pow2(MAX_BITS) && i < |lens| && lens[i] > 0
    ensures FrontSymbol(lens, Encode(lens, i, rest)) == i
    ensures ShiftRight(Encode(lens, i, rest), lens[i]) == rest
  {
    EncodedAtFront(lens, i, rest);
    FrontSymbolIs(lens, Encode(lens, i, rest), i);
  }

  lemma ExtraRead(base: nat, extra: nat, x: nat, rest: nat)
    requires x < Pow2(extra)
    ensures WithExtra(base, extra, Packed(x, extra, rest)) == base + x
    ensures ShiftRight(Packed(x, extra, rest), extra) == rest
  {
    DivUnique(Packed(x, extra, rest), Pow2(extra), rest, x);
  }

  lemma BasesPositive(l: nat, d: nat)
    requires l < 29 && d < 30
    ensures LengthBase(l) > 0 && DistBase(d) > 0
  {}

  lemma RepeatRead(dists: seq<nat>, l: nat, x: nat, d: nat, y: nat, rest: nat)
    requires ValidLengths(dists) && Kraft(dists) <= Pow2(MAX_BITS) && |dists| <= 32
    requires l < 29 && x < Pow2(LengthExtra(l)) && d < |dists| && d < 30 && dists[d] > 0 && y < Pow2(DistExtra(d))
    ensures MatchAt(dists, Packed(x, LengthExtra(l), Encode(dists, d, Packed(y, DistExtra(d), rest))), l)
      == Match(LengthBase(l) + x, DistBase(d) + y, rest)
  {
    BasesPositive(l, d);
    hide Pow2, Encode, ShiftRight, WithExtra, LengthExtra, DistExtra, LengthBase, DistBase, Packed, Kraft;
    var v3 := Packed(y, DistExtra(d), rest);
    ExtraRead(LengthBase(l), LengthExtra(l), x, Encode(dists, d, v3));
    EncodedFront(dists, d, v3);
    ExtraRead(DistBase(d), DistExtra(d), y, rest);
  }

  /** Decoding the first token of an encoded block. */
  lemma TokenRead(lens: seq<nat>, dists: seq<nat>, token: Token, rest: nat, out: seq<Byte>, room: nat)
    requires ValidLengths(lens) && Kraft(lens) <= Pow2(MAX_BITS) && 256 < |lens|
    requires ValidLengths(dists) && Kraft(dists) <= Pow2(MAX_BITS) && |dists| <= 32 && |out| <= room
    requires Usable(lens, dists, token) && Meaning(token, out).Some? && |Meaning(token, out).value| <= room
    ensures Block(lens, dists, EncodeToken(lens, dists, token, rest), Known(out), room)
      == Block(lens, dists, rest, Known(Meaning(token, out).value), room)
  {
    hide Pow2, Encode, ShiftRight, LengthBase, LengthExtra, DistBase, DistExtra, Copied, Block, MatchAt, Kraft, Packed, Known;
    BlockStep(lens, dists, EncodeToken(lens, dists, token, rest), Known(out), room);
    match token
    case Plain(b) =>
      EncodedFront(lens, b, rest);
      KnownAppend(out, b);
    case Repeat(l, x, d, y) =>
      EncodedFront(lens, 257 + l, Packed(x, LengthExtra(l), Encode(dists, d, Packed(y, DistExtra(d), rest))));
      RepeatRead(dists, l, x, d, y, rest);
      BasesPositive(l, d);
      CopiedKnown(out, DistBase(d) + y, LengthBase(l) + x);
  }

  lemma UsableMeaning(lens: seq<nat>, dists: seq<nat>, tokens: seq<Token>)
    requires AllUsable(lens, dists, tokens)
    ensures AllMeaningful(tokens)
    ensures tokens != [] ==> Usable(lens, dists, tokens[0]) && AllUsable(lens, dists, tokens[1..]) && AllMeaningful(tokens[1..])
  {}

  /** Decoding what a compressor encoded gives the bytes its tokens stand for, and leaves the stream just after
      the block. */
  lemma {:induction false} BlockRoundTrip(lens: seq<nat>, dists: seq<nat>, tokens: seq<Token>, rest: nat, out: seq<Byte>, room: nat)
    requires ValidLengths(lens) && Kraft(lens) <= Pow2(MAX_BITS) && 256 < |lens| && lens[256] > 0
    requires ValidLengths(dists) && Kraft(dists) <= Pow2(MAX_BITS) && |dists| <= 32 && |out| <= room
    requires AllUsable(lens, dists, tokens) && AllMeaningful(tokens)
    requires BlockMeaning(tokens, out).Some? && |BlockMeaning(tokens, out).value| <= room
    ensures Block(lens, dists, EncodeBlock(lens, dists, tokens, rest), Known(out), room)
      == Complete(Known(BlockMeaning(tokens, out).value), rest)
    decreases |tokens|
  {
    hide Pow2, Encode, ShiftRight, Block, Kraft, Usable, EncodeToken, Meaning;
    UsableMeaning(lens, dists, tokens);
    if tokens == [] {
      BlockStep(lens, dists, EncodeBlock(lens, dists, tokens, rest), Known(out), room);
      EncodedFront(lens, 256, rest);
    } else {
      var out' := Meaning(tokens[0], out).value;
      OutputGrows(tokens[1..], out');
      TokenRead(lens, dists, tokens[0], EncodeBlock(lens, dists, tokens[1..], rest), out, room);
      BlockRoundTrip(lens, dists, tokens[1..], rest, out', room);
    }
  }

  lemma {:induction false} OutputGrows(tokens: seq<Token>, out: seq<Byte>)
    requires AllMeaningful(tokens) && BlockMeaning(tokens, out).Some?
    ensures |out| <= |BlockMeaning(tokens, out).value|
    decreases |tokens|
  {
    if tokens != [] {
      OutputGrows(tokens[1..], Meaning(tokens[0], out).value);
    }
  }

  // ----- when the loop ends

  /** The loop after `n` turns. */
  ghost function Turns(lens: seq<nat>, dists: seq<nat>, v: nat, out: seq<Cell>, room: nat, n: nat): Loop
    requires |lens| <= 288 && |dists| <= 32 && |out| <= room
    decreases n
  {
    if n == 0 then Running(out, v)
    else match Turn(lens, dists, v, out, room)
      case Ended(end) => Ended(end)
      case Running(out', v') => Turns(lens, dists, v', out', room, n - 1)
  }

  ghost predicate LoopEnds(lens: seq<nat>, dists: seq<nat>, v: nat, out: seq<Cell>, room: nat)
    requires |lens| <= 288 && |dists| <= 32 && |out| <= room
  {
    exists n :: Turns(lens, dists, v, out, room, n).Ended?
  }

  /** The first of the symbols with the shortest codewords: its codeword is all zeros. */
  predicate Leads(lens: seq<nat>, i: nat) {
    i < |lens| && lens[i] > 0 && forall j :: 0 <= j < |lens| && lens[j] > 0 ==> lens[i] < lens[j] || (lens[i] == lens[j] && i <= j)
  }

  /** A reserved length symbol has the codeword of zeros, and the distance symbol with the codeword of zeros does not
      reach back beyond `size` bytes of output. */
  predicate Stalls(lens: seq<nat>, dists: seq<nat>, size: nat) {
    exists z, d :: 286 <= z < |lens| && Leads(lens, z) && 0 <= d < |dists| && d < 32 && Leads(dists, d) && DistBase(d) <= size
  }

  lemma {:induction false} NoneShorter(lens: seq<nat>, l: nat)
    requires forall j :: 0 <= j < |lens| && lens[j] > 0 ==> l < lens[j]
    ensures EndCode(lens, l) == 0 && FirstCode(lens, l + 1) == 0
  {
    if l > 0 {
      NoneShorter(lens, l - 1);
      NoneCounted(lens, l);
    }
  }

  lemma {:induction false} NoneCounted(lens: seq<nat>, l: nat)
    requires forall j :: 0 <= j < |lens| ==> lens[j] != l
    ensures Count(lens, l) == 0
  {
    if lens != [] {
      NoneCounted(lens[..|lens| - 1], l);
    }
  }

  lemma {:induction false} ReversedZeros(n: nat)
    ensures Rev(0, n) == 0
  {
    if n > 0 {
      ReversedZeros(n - 1);
    }
  }

  lemma {:induction false} LeaderExists(lens: seq<nat>, n: nat) returns (i: nat)
    requires n <= |lens| && exists j :: 0 <= j < n && lens[j] > 0
    ensures i < n && Leads(lens[..n], i)
  {
    var j :| 0 <= j < n && lens[j] > 0;
    if k: nat :| k < n - 1 && lens[k] > 0 {
      i := LeaderExists(lens, n - 1);
      if 0 < lens[n - 1] < lens[i] {
        i := n - 1;
      }
    } else {
      i := j;
    }
  }

  /** The zeros behind the end of the input begin with the symbol that leads. */
  lemma ZerosLead(lens: seq<nat>, i: nat)
    ensures AtFront(lens, 0, i) <==> Leads(lens, i)
  {
    if i < |lens| && lens[i] > 0 {
      if Leads(lens, i) {
        LeaderAtFront(lens, i);
      } else if AtFront(lens, 0, i) {
        var m := LeaderExists(lens, |lens|);
        assert lens[..|lens|] == lens;
        LeaderAtFront(lens, m);
        PrefixFree(lens, 0, i, m);
      }
    }
  }

  lemma LeaderAtFront(lens: seq<nat>, i: nat)
    requires Leads(lens, i)
    ensures AtFront(lens, 0, i)
  {
    NoneShorter(lens, lens[i] - 1);
    NoneCounted(lens[..i], lens[i]);
    ReversedZeros(lens[i]);
  }

  /** A turn leaves everything as it was exactly when only zeros are left and the codes stall: the source's loop then
      repeats it for ever. */
  lemma StallsOnReserved(lens: seq<nat>, dists: seq<nat>, v: nat, out: seq<Cell>, room: nat)
    requires |lens| <= 288 && |dists| <= 32 && |out| <= room
    ensures Turn(lens, dists, v, out, room) == Running(out, v) <==> v == 0 && Stalls(lens, dists, |out|)
  {
    hide FrontSymbol, LengthBase, LengthExtra, DistBase, DistExtra, WithExtra, ShiftRight, Leads;
    if Turn(lens, dists, v, out, room) == Running(out, v) {
      TurnProgress(lens, dists, v, out, room);
      var z := FrontSymbol(lens, 0);
      ZerosMatch(lens, dists);
      ZerosLead(lens, z);
      ZerosLead(dists, FrontSymbol(dists, 0));
    }
    if v == 0 && Stalls(lens, dists, |out|) {
      var z, d :| 286 <= z < |lens| && Leads(lens, z) && 0 <= d < |dists| && d < 32 && Leads(dists, d) && DistBase(d) <= |out|;
      ZerosLead(lens, z);
      ZerosLead(dists, d);
      FrontSymbolIs(lens, 0, z);
      FrontSymbolIs(dists, 0, d);
      ZerosMatch(lens, dists);
    }
  }

  /** The item at the front of zeros, after a length symbol. */
  lemma ZerosMatch(lens: seq<nat>, dists: seq<nat>)
    requires |lens| <= 288 && |dists| <= 32 && FrontSymbol(lens, 0) > 256
    ensures var z, d := FrontSymbol(lens, 0), FrontSymbol(dists, 0);
      ItemAt(lens, dists, 0) == if d < 0 then BadCode else Match(LengthBase(z - 257), DistBase(d), 0)
    ensures LengthBase(FrontSymbol(lens, 0) - 257) == 0 <==> FrontSymbol(lens, 0) >= 286
  {
    hide FrontSymbol, LengthExtra, DistBase, DistExtra, ShiftRight;
    var z, d := FrontSymbol(lens, 0), FrontSymbol(dists, 0);
    ZerosStay(lens[z]);
    ZerosStay(LengthExtra(z - 257));
    if d >= 0 {
      ZerosStay(dists[d]);
      ZerosStay(DistExtra(d));
    }
  }

  /** The loop reaches the end that the block means, and if the block has none it runs for ever. */
  lemma {:induction false} LoopReaches(lens: seq<nat>, dists: seq<nat>, v: nat, out: seq<Cell>, room: nat)
    requires |lens| <= 288 && |dists| <= 32 && |out| <= room
    ensures var end := Block(lens, dists, v, out, room);
      if end.Endless? then forall n :: Turns(lens, dists, v, out, room, n).Running?
      else exists n :: Turns(lens, dists, v, out, room, n) == Ended(end)
    decreases room - |out|, v
  {
    hide Turn;
    match Turn(lens, dists, v, out, room)
    case Ended(end) =>
      EndIsNotEndless(lens, dists, v, out, room);
      assert Turns(lens, dists, v, out, room, 1) == Ended(end);
    case Running(out', v') =>
      if out' == out && v' == v {
        forall n: nat
          ensures Turns(lens, dists, v, out, room, n).Running?
        {
          Repeats(lens, dists, v, out, room, n);
        }
      } else {
        TurnProgress(lens, dists, v, out, room);
        LoopReaches(lens, dists, v', out', room);
        var end := Block(lens, dists, v', out', room);
        if end.Endless? {
          forall n: nat
            ensures Turns(lens, dists, v, out, room, n).Running?
          {
            assert n > 0 ==> Turns(lens, dists, v, out, room, n) == Turns(lens, dists, v', out', room, n - 1);
          }
        } else {
          var n: nat :| Turns(lens, dists, v', out', room, n) == Ended(end);
          assert Turns(lens, dists, v, out, room, n + 1) == Ended(end);
        }
      }
  }

  lemma {:induction false} Repeats(lens: seq<nat>, dists: seq<nat>, v: nat, out: seq<Cell>, room: nat, n: nat)
    requires |lens| <= 288 && |dists| <= 32 && |out| <= room && Turn(lens, dists, v, out, room) == Running(out, v)
    ensures Turns(lens, dists, v, out, room, n) == Running(out, v)
  {
    if n > 0 {
      Repeats(lens, dists, v, out, room, n - 1);
    }
  }

  lemma StallsGrows(lens: seq<nat>, dists: seq<nat>, size: nat, room: nat)
    requires Stalls(lens, dists, size) && size <= room
    ensures Stalls(lens, dists, room)
  {}

  /** A block without an end comes to zeros with codes that stall. */
  lemma {:induction false} EndlessStalls(lens: seq<nat>, dists: seq<nat>, v: nat, out: seq<Cell>, room: nat)
    requires |lens| <= 288 && |dists| <= 32 && |out| <= room && Block(lens, dists, v, out, room).Endless?
    ensures Stalls(lens, dists, room)
    decreases room - |out|, v
  {
    hide Turn, Stalls;
    EndIsNotEndless(lens, dists, v, out, room);
    var next := Turn(lens, dists, v, out, room);
    if next == Running(out, v) {
      StallsOnReserved(lens, dists, v, out, room);
      StallsGrows(lens, dists, |out|, room);
    } else {
      TurnProgress(lens, dists, v, out, room);
      EndlessStalls(lens, dists, next.v, next.out, room);
    }
  }

  lemma EndIsNotEndless(lens: seq<nat>, dists: seq<nat>, v: nat, out: seq<Cell>, room: nat)
    requires |lens| <= 288 && |dists| <= 32 && |out| <= room
    ensures Turn(lens, dists, v, out, room) != Ended(Endless)
  {}

  /** The loop ends on every stream and for every output so far exactly when the codes do not stall. */
  lemma LoopEndsIff(lens: seq<nat>, dists: seq<nat>, room: nat)
    requires |lens| <= 288 && |dists| <= 32
    ensures (forall v: nat, out: seq<Cell> :: |out| <= room ==> LoopEnds(lens, dists, v, out, room)) <==> !Stalls(lens, dists, room)
  {
    hide Turn, Turns, Stalls, Block;
    forall v: nat, out: seq<Cell> | |out| <= room && !LoopEnds(lens, dists, v, out, room)
      ensures Stalls(lens, dists, room)
    {
      LoopReaches(lens, dists, v, out, room);
      EndlessStalls(lens, dists, v, out, room);
    }
    if Stalls(lens, dists, room) {
      var out: seq<Cell> := seq(room, _ => None);
      StallsOnReserved(lens, dists, 0, out, room);
      forall n: nat
        ensures Turns(lens, dists, 0, out, room, n).Running?
      {
        Repeats(lens, dists, 0, out, room, n);
      }
      assert !LoopEnds(lens, dists, 0, out, room);
    }
  }

  /** The fixed codes (section 3.2.6 of RFC 1951), reserved symbols included. */
  function FixedLengths(): (lens: seq<nat>)
    ensures |lens| == 288
  {
    seq(288, i => if i < 144 then 8 else if i < 256 then 9 else if i < 280 then 7 else 8)
  }

  function FixedDistances(): (dists: seq<nat>)
    ensures |dists| == 32
  {
    seq(32, _ => 5)
  }

  /** With the fixed codes every block ends. */
  lemma FixedCodesEnd(v: nat, out: seq<Cell>, room: nat)
    requires |out| <= room
    ensures LoopEnds(FixedLengths(), FixedDistances(), v, out, room)
  {
    assert FixedLengths()[256] == 7;
    LoopEndsIff(FixedLengths(), FixedDistances(), room);
  }

  lemma ZerosStay(n: nat)
    ensures ShiftRight(0, n) == 0 && 0 % Pow2(n) == 0
  {}

  /** A code of one symbol, number `n`, whose codeword is a single zero. */
  function OneCode(n: nat): (lens: seq<nat>)
    ensures |lens| == n + 1
  {
    seq(n, _ => 0) + [1]
  }

  lemma {:induction false} NothingToSum(lens: seq<nat>)
    requires forall i :: 0 <= i < |lens| ==> lens[i] == 0
    ensures KraftUpTo(lens, MAX_BITS) == 0
  {
    if lens != [] {
      NothingToSum(lens[..|lens| - 1]);
    }
  }

  lemma OneCodeLeads(n: nat)
    requires n < 288
    ensures ValidLengths(OneCode(n)) && Kraft(OneCode(n)) <= Pow2(MAX_BITS) && Leads(OneCode(n), n)
  {
    var lens := OneCode(n);
    assert lens[..n] == seq(n, _ => 0) && lens[n] == 1;
    NothingToSum(lens[..n]);
    Pow2Grows(MAX_BITS - 1, MAX_BITS);
  }

  /** Codes that stall exist, and are accepted: one length symbol, reserved, and one distance symbol, which may be
      reserved as well. */
  lemma StallingCode(d: nat, out: seq<Cell>, room: nat)
    requires d < 32 && DistBase(d) <= |out| <= room
    ensures var lens, dists := OneCode(286), OneCode(d);
      && ValidLengths(lens) && Kraft(lens) <= Pow2(MAX_BITS) && ValidLengths(dists) && Kraft(dists) <= Pow2(MAX_BITS)
      && Turn(lens, dists, 0, out, room) == Running(out, 0) && !LoopEnds(lens, dists, 0, out, room)
  {
    hide ValidLengths, Kraft, OneCode, Turn, Leads, Turns, DistBase;
    var lens, dists := OneCode(286), OneCode(d);
    OneCodeLeads(286);
    OneCodeLeads(d);
    StallsOnReserved(lens, dists, 0, out, room);
    forall n: nat
      ensures Turns(lens, dists, 0, out, room, n).Running?
    {
      Repeats(lens, dists, 0, out, room, n);
    }
  }

  // ----- the output buffer

  /** The largest size doubling reaches within `memory`. */
  function MaxLimit(limit: nat, memory: nat): (m: nat)
    requires limit > 0
    ensures m >= limit
    decreases memory - limit
  {
    if 2 * limit <= memory then MaxLimit(2 * limit, memory) else limit
  }

  /** It is the size doubled some times, up to the last time that memory allows. */
  lemma {:induction false} RoomIsDoubled(limit: nat, memory: nat)
    requires limit > 0
    ensures 2 * MaxLimit(limit, memory) > memory && (MaxLimit(limit, memory) <= memory || MaxLimit(limit, memory) == limit)
    ensures exists k: nat :: MaxLimit(limit, memory) == limit * Pow2(k)
    decreases memory - limit
  {
    if 2 * limit <= memory {
      RoomIsDoubled(2 * limit, memory);
      var k: nat :| MaxLimit(2 * limit, memory) == 2 * limit * Pow2(k);
      DoubledOnce(limit, k);
    } else {
      assert limit * Pow2(0) == limit;
    }
  }

  lemma DoubledOnce(limit: nat, k: nat)
    ensures limit * Pow2(k + 1) == 2 * limit * Pow2(k)
  {
    Pow2Add(1, k);
    assert Pow2(1) == 2;
    hide Pow2;
    Regroup(limit, 2, Pow2(k));
  }

  lemma HoldsSize(out: seq<Byte>, cells: seq<Cell>)
    requires Holds(out, cells)
    ensures |out| == |cells|
  {}

  lemma AppendHolds(out: seq<Byte>, cells: seq<Cell>, b: Byte)
    requires Holds(out, cells)
    ensures Holds(out + [b], cells + [Some(b)])
  {}

  lemma RepeatedHolds(out: seq<Byte>, cells: seq<Cell>, dist: nat, len: nat, out': seq<Byte>)
    requires Holds(out, cells) && dist <= |cells| && |out'| == |out| + len
    requires if dist == 0 then out'[..|out|] == out else out' == Copied(out, dist, len)
    ensures Holds(out', Repeated(cells, dist, len))
  {
    if dist > 0 {
      CopiedHolds(out, cells, dist, len);
    } else {
      forall i | 0 <= i < |cells| && cells[i].Some?
        ensures out'[i] == cells[i].value
      {
        assert out'[i] == out'[..|out|][i];
      }
    }
  }

  lemma HasEnd(lens: seq<nat>, dists: seq<nat>, v: nat, out: seq<Cell>, room: nat)
    requires |lens| <= 288 && |dists| <= 32 && |out| <= room
    requires Stalls(lens, dists, room) ==> LoopEnds(lens, dists, v, out, room)
    ensures !Block(lens, dists, v, out, room).Endless?
  {
    hide Stalls, Block, Turns;
    if Block(lens, dists, v, out, room).Endless? {
      EndlessStalls(lens, dists, v, out, room);
      LoopReaches(lens, dists, v, out, room);
    }
  }

  class Inflater {
    const bits: ZBuf
    const lengths: ZHuffman
    const distances: ZHuffman
    const expandable: bool
    /** The largest buffer that can be had. */
    const memory: nat
    var buffer: array<Byte>
    var n: nat

    constructor (bits: ZBuf, lengths: ZHuffman, distances: ZHuffman, buffer: array<Byte>, expandable: bool, memory: nat)
      requires 0 < buffer.Length <= memory <= 0x3FFF_FE00
      ensures this.bits == bits && this.lengths == lengths && this.distances == distances
      ensures Shape() && this.buffer == buffer && Out() == [] && this.expandable == expandable && this.memory == memory
    {
      this.bits, this.lengths, this.distances := bits, lengths, distances;
      this.buffer, this.expandable, this.memory := buffer, expandable, memory;
      n := 0;
    }

    ghost predicate Shape()
      reads this
    {
      n <= buffer.Length && 0 < buffer.Length <= memory <= 0x3FFF_FE00
    }

    ghost function Out(): seq<Byte>
      requires n <= buffer.Length
      reads this, buffer
    {
      buffer[..n]
    }

    /** How much output can ever be held. */
    ghost function Room(): nat
      requires Shape()
      reads this
    {
      if expandable then MaxLimit(buffer.Length, memory) else buffer.Length
    }

    /** The tables decode the two codes, and the output does not overlay them. */
    ghost predicate Tables(lens: seq<nat>, dists: seq<nat>)
      reads lengths.fast, lengths.firstcode, lengths.maxcode, lengths.firstsymbol, lengths.size, lengths.value
      reads distances.fast, distances.firstcode, distances.maxcode, distances.firstsymbol, distances.size, distances.value
    {
      lengths.Decodes(lens) && distances.Decodes(dists) && |lens| <= 288 && |dists| <= 32
    }

    ghost predicate Apart(buffer: array<Byte>) {
      buffer != lengths.size && buffer != distances.size
    }

    /** Makes room for `need` more bytes, which do not fit, by doubling the buffer; fails exactly when no
        buffer that can be had is large enough. */
    method Expand(need: nat) returns (ok: bool)
      requires Shape() && need <= 0x200 && n + need > buffer.Length
      modifies this`buffer
      ensures Shape() && Out() == old(Out()) && Room() == old(Room())
      ensures ok <==> n + need <= Room()
      ensures ok ==> fresh(buffer) && n + need <= buffer.Length
      ensures !ok ==> buffer == old(buffer)
    {
      if !expandable {
        return false;
      }
      ghost var room := MaxLimit(buffer.Length, memory);
      var limit := buffer.Length;
      while n + need > limit
        invariant 0 < limit < 0x8000_0000
        invariant if limit <= memory then MaxLimit(limit, memory) == room else n + need > room
        decreases n + need - limit
        modifies {}
      {
        limit := limit * 2;
      }
      if limit > memory {
        return false;
      }
      var larger := new Byte[limit];
      for i := 0 to n
        invariant buffer == old(buffer) && buffer[..] == old(buffer[..])
        invariant larger[..i] == buffer[..i]
      {
        larger[i] := buffer[i];
      }
      buffer := larger;
      ok := true;
    }

    /** Appends one byte. */
    method Put(b: Byte) returns (ok: bool)
      requires Shape()
      modifies this`buffer, this`n, buffer
      ensures Shape() && Room() == old(Room()) && (fresh(buffer) || buffer == old(buffer))
      ensures ok <==> |old(Out())| + 1 <= Room()
      ensures ok ==> Out() == old(Out()) + [b]
    {
      RoomAtLeast();
      if n >= buffer.Length {
        ok := Expand(1);
        if !ok {
          return;
        }
      }
      buffer[n] := b;
      n := n + 1;
      ok := true;
    }

    lemma RoomAtLeast()
      requires Shape()
      ensures buffer.Length <= Room()
    {}

    /** The copy of a match, a run of one byte being filled in directly; with distance 0 the bytes are those that the
        memory held. */
    method CopyMatch(dist: nat, len: nat)
      requires Shape() && dist <= n && n + len <= buffer.Length
      modifies buffer, this`n
      ensures Shape() && n == old(n) + len
      ensures dist > 0 ==> Out() == Copied(old(Out()), dist, len)
      ensures dist == 0 ==> buffer[..] == old(buffer[..])
    {
      hide Copied;
      ghost var out := Out();
      if dist != 0 {
        CopiedNone(out, dist);
      }
      if dist == 1 {
        var v := buffer[n - dist];
        CopiedRun(out, len);
        for k := 0 to len
          invariant n == |out| + k && buffer[..n] == out + seq(k, _ => v)
        {
          buffer[n] := v;
          n := n + 1;
        }
      } else {
        var p := n - dist;
        for k := 0 to len
          invariant n == |out| + k && p == n - dist
          invariant if dist == 0 then buffer[..] == old(buffer[..]) else buffer[..n] == Copied(out, dist, k)
        {
          if dist > 0 {
            CopiedNext(out, dist, k);
          }
          buffer[n] := buffer[p];
          n := n + 1;
          p := p + 1;
        }
      }
    }

    /** The length and distance of the match that length symbol `z` begins. */
    method ReadMatch(z: nat, ghost dists: seq<nat>) returns (len: nat, dist: nat, ok: bool)
      requires bits.Valid() && distances.Decodes(dists) && z < 31 && |dists| <= 32
      modifies bits
      ensures bits.Valid() && len <= 0x200
      ensures MatchAt(dists, old(bits.Stream()), z) == if ok then Match(len, dist, bits.Stream()) else BadCode
    {
      hide ZBuf.Stream, ZBuf.Valid, ZHuffman.Decodes, Pow2, ShiftRight, DistBase, DistExtra, LengthBase, LengthExtra;
      ExtraIsSmall(LengthExtra(z));
      len, dist := LengthBase(z), 0;
      NoExtra(bits.Stream());
      if LengthExtra(z) != 0 {
        var more := bits.Receive(LengthExtra(z));
        len := len + more;
      }
      ghost var v := bits.Stream();
      var d := bits.Decode(distances, dists);
      FrontSymbolIs(dists, v, d);
      if d < 0 {
        return len, dist, false;
      }
      dist := DistBase(d);
      NoExtra(bits.Stream());
      if DistExtra(d) != 0 {
        var more := bits.Receive(DistExtra(d));
        dist := dist + more;
      }
      ok := true;
    }

    /** The match that length symbol `z` begins is read and copied to the output. */
    method TakeMatch(z: nat, ghost lens: seq<nat>, ghost dists: seq<nat>, ghost cells: seq<Cell>) returns (ok: bool)
      requires Shape() && bits.Valid() && Tables(lens, dists) && Apart(buffer) && z < 31 && Holds(Out(), cells)
      modifies this`buffer, this`n, buffer, bits
      ensures Shape() && bits.Valid() && Room() == old(Room()) && (fresh(buffer) || buffer == old(buffer))
      ensures var item := MatchAt(dists, old(bits.Stream()), z);
        && (ok <==> item.Match? && item.dist <= |cells| && |cells| + item.len <= Room())
        && (ok ==> Holds(Out(), Repeated(cells, item.dist, item.len)) && bits.Stream() == item.rest)
    {
      hide ZHuffman.Decodes, ZBuf.Valid, ZBuf.Stream, MatchAt, Copied, MaxLimit, Holds;
      HoldsSize(Out(), cells);
      var len, dist, found := ReadMatch(z, dists);
      if !found || n < dist {
        return false;
      }
      RoomAtLeast();
      if n + len > buffer.Length {
        ok := Expand(len);
        if !ok {
          return;
        }
      }
      ghost var out := Out();
      CopyMatch(dist, len);
      assert dist == 0 ==> Out()[..|out|] == out;
      RepeatedHolds(out, cells, dist, len, Out());
      ok := true;
    }

    /** Decodes a block: the output and the rest of the stream are those the block means, or the block is corrupt or
        too long. The codes do not stall, or they do but the stream does not come to that. */
    method ParseHuffmanBlock(ghost lens: seq<nat>, ghost dists: seq<nat>) returns (ok: bool)
      requires Shape() && bits.Valid() && Tables(lens, dists) && Apart(buffer) && |Out()| <= Room()
      requires Stalls(lens, dists, Room()) ==> LoopEnds(lens, dists, bits.Stream(), Known(Out()), Room())
      modifies this`buffer, this`n, buffer, bits
      ensures Shape() && bits.Valid()
      ensures var end := Block(lens, dists, old(bits.Stream()), Known(old(Out())), old(Room()));
        && (ok <==> end.Complete?)
        && (ok ==> Holds(Out(), end.out) && bits.Stream() == end.rest)
    {
      hide ZHuffman.Decodes, ZBuf.Valid, ZBuf.Stream, AtFront, ShiftRight, MatchAt, Copied, MaxLimit, Pow2, Block;
      hide Holds, Repeated, Stalls, LoopEnds;
      ghost var room, cells := Room(), Known(Out());
      ghost var end := Block(lens, dists, bits.Stream(), cells, room);
      HasEnd(lens, dists, bits.Stream(), cells, room);
      KnownHolds(Out(), Out());
      while true
        invariant Shape() && bits.Valid() && Room() == room && (fresh(buffer) || buffer == old(buffer))
        invariant Tables(lens, dists) && !end.Endless?
        invariant Holds(Out(), cells) && |cells| <= room && Block(lens, dists, bits.Stream(), cells, room) == end
        decreases room - |cells|, bits.Stream()
      {
        HoldsSize(Out(), cells);
        RoomAtLeast();
        ghost var v := bits.Stream();
        var z := bits.Decode(lengths, lens);
        FrontSymbolIs(lens, v, z);
        BlockStep(lens, dists, v, cells, room);
        TurnCounts(lens, dists, v, cells, room);
        if z < 256 {
          if z < 0 {
            return false;
          }
          ghost var out := Out();
          var stored := Put(z);
          if !stored {
            return false;
          }
          AppendHolds(out, cells, z);
          cells := cells + [Some(z)];
        } else if z == 256 {
          return true;
        } else {
          ghost var item := MatchAt(dists, bits.Stream(), z - 257);
          var taken := TakeMatch(z - 257, lens, dists, cells);
          if !taken {
            return false;
          }
          cells := Repeated(cells, item.dist, item.len);
        }
      }
    }
  }

  lemma NoExtra(v: nat)
    ensures v % Pow2(0) == 0 && ShiftRight(v, 0) == v
  {}

  lemma ExtraIsSmall(extra: nat)
    requires extra <= 5
    ensures Pow2(extra) <= 32
  {
    Pow2Grows(extra, 5);
    assert Pow2(5) == 32;
  }
}
