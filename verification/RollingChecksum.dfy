/** The rolling checksum (RollingChecksum.cpp, RollingChecksum.h): 32-bit wrap-around sums masked to 16 bits. */
module RollingChecksum {
  import opened ByteStrings

  // ---------- what the checksum means ----------

  /** Sum of the bytes. */
  function Sum(w: Bytes): nat {
    if w == [] then 0 else w[0] + Sum(w[1..])
  }

  /** Sum of the bytes, byte i weighted top - i. */
  function Weighted(w: Bytes, top: int): int {
    if w == [] then 0 else w[0] * top + Weighted(w[1..], top - 1)
  }

  /** Both sums modulo 2^16, packed into 32 bits. */
  function Pack(a: int, b: int): u32 {
    a % TWO_TO_16 + TWO_TO_16 * (b % TWO_TO_16)
  }

  /** The checksum of a whole window: byte i of n weighs n - i + 1. */
  function Checksum(w: Bytes): u32 {
    Pack(Sum(w), Weighted(w, |w| + 1))
  }

  lemma {:induction false} SumAppend(u: Bytes, v: Bytes)
    ensures Sum(u + v) == Sum(u) + Sum(v)
  {
    if u == [] {
      assert u + v == v;
    } else {
      assert (u + v)[1..] == u[1..] + v;
      SumAppend(u[1..], v);
    }
  }

  lemma {:induction false} WeightedAppend(u: Bytes, v: Bytes, top: int)
    ensures Weighted(u + v, top) == Weighted(u, top) + Weighted(v, top - |u|)
  {
    if u == [] {
      assert u + v == v;
    } else {
      assert (u + v)[1..] == u[1..] + v;
      WeightedAppend(u[1..], v, top - 1);
    }
  }

  lemma {:induction false} WeightedShift(w: Bytes, top: int)
    ensures Weighted(w, top + 1) == Weighted(w, top) + Sum(w)
  {
    if w != [] {
      WeightedShift(w[1..], top - 1);
      assert w[0] * (top + 1) == w[0] * top + w[0];
    }
  }

  // ---------- 32-bit arithmetic ----------

  function U32(x: int): u32 { x % TWO_TO_32 }

  /** Masking to 16 bits after wrapping at 32 loses nothing. */
  lemma MaskWrapped(x: int)
    ensures U32(x) % TWO_TO_16 == x % TWO_TO_16
  {
    var q := x / TWO_TO_32;
    assert x == U32(x) + TWO_TO_16 * (TWO_TO_16 * q);
    ModShift(U32(x), TWO_TO_16 * q);
  }

  lemma ModShift(x: int, k: int)
    ensures (x + TWO_TO_16 * k) % TWO_TO_16 == x % TWO_TO_16
  {
  }

  /** Two numbers that differ by a multiple of 2^16 have the same low half. */
  lemma SameLowHalf(x: int, y: int, k: int)
    requires x == y + TWO_TO_16 * k
    ensures x % TWO_TO_16 == y % TWO_TO_16
  {
    ModShift(y, k);
  }

  lemma PackHalves(a: int, b: int)
    ensures Pack(a, b) % TWO_TO_16 == a % TWO_TO_16
    ensures Pack(a, b) / TWO_TO_16 == b % TWO_TO_16
  {
  }

  // ---------- subtracting and adding one byte ----------

  /** Removes the oldest byte of a window of `size` bytes. */
  function Subtract(previous: u32, byteToSubtract: byte, size: nat): u32 {
    var a := previous % TWO_TO_16;
    var b := (previous / TWO_TO_16) % TWO_TO_16;
    var a1 := U32(a + 0x1_0000);
    var a2 := U32(a1 - byteToSubtract) % TWO_TO_16;
    var b1 := U32(b + 0xFFFF_0000);
    var b2 := U32(b1 - U32(byteToSubtract * (size + 1))) % TWO_TO_16;
    a2 + TWO_TO_16 * b2
  }

  /** Appends a byte; `size`, the length of the window with the byte in it, is not used. */
  function Add(previous: u32, byteToAdd: byte, size: nat): u32 {
    var a := previous % TWO_TO_16;
    var b := (previous / TWO_TO_16) % TWO_TO_16;
    var a1 := U32(a + byteToAdd) % TWO_TO_16;
    var b1 := U32(b + a1);
    var b2 := U32(b1 + byteToAdd) % TWO_TO_16;
    a1 + TWO_TO_16 * b2
  }

  lemma WrappedDifferenceLowHalf(x: int, y: int)
    ensures U32(U32(x) - U32(y)) % TWO_TO_16 == (x - y) % TWO_TO_16
  {
    MaskWrapped(U32(x) - U32(y));
    SplitWrap(x);
    SplitWrap(y);
    SameLowHalf(U32(x) - U32(y), x - y, TWO_TO_16 * (y / TWO_TO_32) - TWO_TO_16 * (x / TWO_TO_32));
  }

  lemma LowHalfDifference(a: int, y: int, k: int)
    ensures (a % TWO_TO_16 + TWO_TO_16 * k - y) % TWO_TO_16 == (a - y) % TWO_TO_16
  {
    SameLowHalf(a % TWO_TO_16 + TWO_TO_16 * k - y, a - y, k - a / TWO_TO_16);
  }

  lemma SubtractLowHalf(a: int, k: byte)
    ensures U32(U32(a % TWO_TO_16 + 0x1_0000) - k) % TWO_TO_16 == (a - k) % TWO_TO_16
  {
    assert U32(k) == k;
    WrappedDifferenceLowHalf(a % TWO_TO_16 + 0x1_0000, k);
    LowHalfDifference(a, k, 1);
  }

  lemma SubtractHighHalf(b: int, p: int)
    ensures U32(U32(b % TWO_TO_16 + 0xFFFF_0000) - U32(p)) % TWO_TO_16 == (b - p) % TWO_TO_16
  {
    WrappedDifferenceLowHalf(b % TWO_TO_16 + 0xFFFF_0000, p);
    LowHalfDifference(b, p, 0xFFFF);
  }

  lemma SubtractPacked(a: int, b: int, k: byte, size: nat)
    ensures Subtract(Pack(a, b), k, size) == Pack(a - k, b - k * (size + 1))
  {
    hide U32;
    PackHalves(a, b);
    SubtractLowHalf(a, k);
    SubtractHighHalf(b, k * (size + 1));
  }

  lemma SplitWrap(x: int)
    ensures x == U32(x) + TWO_TO_16 * (TWO_TO_16 * (x / TWO_TO_32))
  {
  }

  /** A wrapped sum of low halves and bytes has the low half of the unwrapped sum. */
  lemma WrappedSumLowHalf(x: int, y: int, z: int)
    ensures U32(U32(x) + y) % TWO_TO_16 == (x + y) % TWO_TO_16
    ensures (x % TWO_TO_16 + y + z) % TWO_TO_16 == (x + y + z) % TWO_TO_16
  {
    MaskWrapped(U32(x) + y);
    SplitWrap(x);
    SameLowHalf(U32(x) + y, x + y, -(TWO_TO_16 * (x / TWO_TO_32)));
    SameLowHalf(x % TWO_TO_16 + y + z, x + y + z, -(x / TWO_TO_16));
  }

  lemma AddLowHalf(a: int, k: byte)
    ensures U32(a % TWO_TO_16 + k) % TWO_TO_16 == (a + k) % TWO_TO_16
  {
    MaskWrapped(a % TWO_TO_16 + k);
    WrappedSumLowHalf(a, k, 0);
  }

  lemma AddHighHalf(a: int, b: int, k: byte)
    ensures U32(U32(b % TWO_TO_16 + (a + k) % TWO_TO_16) + k) % TWO_TO_16 == (b + a + 2 * k) % TWO_TO_16
  {
    var a1 := (a + k) % TWO_TO_16;
    WrappedSumLowHalf(b % TWO_TO_16 + a1, k, 0);
    WrappedSumLowHalf(b, a1, k);
    WrappedSumLowHalf(a + k, b, k);
  }

  lemma AddPacked(a: int, b: int, k: byte, size: nat)
    ensures Add(Pack(a, b), k, size) == Pack(a + k, b + a + 2 * k)
  {
    hide U32;
    PackHalves(a, b);
    AddLowHalf(a, k);
    AddHighHalf(a, b, k);
  }

  /** Popping the oldest byte and subtracting it gives the checksum of what is left. */
  lemma SubtractIsPop(w: Bytes)
    requires w != []
    ensures Subtract(Checksum(w), w[0], |w|) == Checksum(w[1..])
  {
    SubtractPacked(Sum(w), Weighted(w, |w| + 1), w[0], |w|);
  }

  /** Pushing a byte and adding it gives the checksum of the longer window. */
  lemma AddIsPush(w: Bytes, k: byte)
    ensures Add(Checksum(w), k, |w| + 1) == Checksum(w + [k])
  {
    SumAppend(w, [k]);
    WeightedAppend(w, [k], |w| + 2);
    WeightedShift(w, |w| + 1);
    AddPacked(Sum(w), Weighted(w, |w| + 1), k, |w| + 1);
    assert Sum([k]) == k + Sum([]);
    assert Weighted([k], 2) == k * 2 + Weighted([], 1);
  }

  // ---------- any run of pops and pushes ----------

  /** One step of a sliding window: pop the oldest byte, and push a new one unless the file has ended. */
  datatype Roll = Slide(incoming: byte) | Shrink

  function RolledWindow(w: Bytes, steps: seq<Roll>): Bytes
    decreases |steps|
  {
    if steps == [] || w == [] then w
    else match steps[0]
      case Slide(k) => RolledWindow(w[1..] + [k], steps[1..])
      case Shrink => RolledWindow(w[1..], steps[1..])
  }

  function RolledChecksum(checksum: u32, w: Bytes, steps: seq<Roll>): u32
    decreases |steps|
  {
    if steps == [] || w == [] then checksum
    else
      var popped := Subtract(checksum, w[0], |w|);
      match steps[0]
      case Slide(k) => RolledChecksum(Add(popped, k, |w|), w[1..] + [k], steps[1..])
      case Shrink => RolledChecksum(popped, w[1..], steps[1..])
  }

  /** However far the window rolls or shrinks, the rolled value is the one computed from scratch. */
  lemma {:induction false} RollingIsRecomputing(w: Bytes, steps: seq<Roll>)
    ensures RolledChecksum(Checksum(w), w, steps) == Checksum(RolledWindow(w, steps))
    decreases |steps|
  {
    if steps != [] && w != [] {
      SubtractIsPop(w);
      match steps[0] {
        case Slide(k) =>
          AddIsPush(w[1..], k);
          RollingIsRecomputing(w[1..] + [k], steps[1..]);
        case Shrink =>
          RollingIsRecomputing(w[1..], steps[1..]);
      }
    }
  }

  // ---------- feeding a window in pieces ----------

  /** The value the piecewise computation returns for one piece of a window of `logicalSize` bytes. */
  function Piece(previous: u32, piece: Bytes, offset: nat, logicalSize: nat): u32 {
    Pack(previous % TWO_TO_16 + Sum(piece), previous / TWO_TO_16 + Weighted(piece, logicalSize - offset + 1))
  }

  function FeedPieces(previous: u32, pieces: seq<Bytes>, offset: nat, logicalSize: nat): u32
    decreases |pieces|
  {
    if pieces == [] then previous
    else FeedPieces(Piece(previous, pieces[0], offset, logicalSize), pieces[1..], offset + |pieces[0]|, logicalSize)
  }

  lemma PackModular(a: int, b: int, c: int, d: int)
    ensures Pack(a % TWO_TO_16 + c, b % TWO_TO_16 + d) == Pack(a + c, b + d)
  {
    SameLowHalf(a + c, a % TWO_TO_16 + c, a / TWO_TO_16);
    SameLowHalf(b + d, b % TWO_TO_16 + d, b / TWO_TO_16);
  }

  lemma PieceOfPacked(a: int, b: int, piece: Bytes, offset: nat, logicalSize: nat)
    ensures Piece(Pack(a, b), piece, offset, logicalSize)
         == Pack(a + Sum(piece), b + Weighted(piece, logicalSize - offset + 1))
  {
    PackHalves(a, b);
    PackModular(a, b, Sum(piece), Weighted(piece, logicalSize - offset + 1));
  }

  lemma {:induction false} FeedPiecesFrom(a: int, b: int, pieces: seq<Bytes>, offset: nat, logicalSize: nat)
    ensures FeedPieces(Pack(a, b), pieces, offset, logicalSize)
         == Pack(a + Sum(Flatten(pieces)), b + Weighted(Flatten(pieces), logicalSize - offset + 1))
    decreases |pieces|
  {
    if pieces == [] {
      assert Flatten(pieces) == [];
    } else {
      var p := pieces[0];
      var top := logicalSize - offset + 1;
      hide Pack;
      hide Piece;
      PieceOfPacked(a, b, p, offset, logicalSize);
      FeedPiecesFrom(a + Sum(p), b + Weighted(p, top), pieces[1..], offset + |p|, logicalSize);
      SumAppend(p, Flatten(pieces[1..]));
      WeightedAppend(p, Flatten(pieces[1..]), top);
    }
  }

  /** However a window is cut into pieces, feeding them in order gives the checksum of the whole. */
  lemma PiecewiseIsWhole(pieces: seq<Bytes>)
    ensures FeedPieces(0, pieces, 0, |Flatten(pieces)|) == Checksum(Flatten(pieces))
  {
    FeedPiecesFrom(0, 0, pieces, 0, |Flatten(pieces)|);
  }

  // ---------- the loops ----------

  lemma PrefixStep(w: Bytes, i: nat, top: int)
    requires i < |w|
    ensures Sum(w[..i + 1]) == Sum(w[..i]) + w[i]
    ensures Weighted(w[..i + 1], top) == Weighted(w[..i], top) + w[i] * (top - i)
  {
    assert w[..i + 1] == w[..i] + [w[i]];
    SumAppend(w[..i], [w[i]]);
    WeightedAppend(w[..i], [w[i]], top);
    assert Sum([w[i]]) == w[i] + Sum([]);
    assert Weighted([w[i]], top - i) == w[i] * (top - i) + Weighted([], top - i - 1);
  }

  /** b = b + k * (rolling_checksum_t)weight, on 32 bits. */
  function AddTerm(b: u32, k: byte, weight: int): u32 {
    U32(b + U32(k * U32(weight)))
  }

  /** A 32-bit accumulator that adds k times a 32-bit-truncated weight holds the wrapped weighted sum. */
  lemma AccumulateWrapped(b: u32, s: int, k: byte, weight: int)
    requires b == U32(s)
    ensures AddTerm(b, k, weight) == U32(s + k * weight)
  {
    var m := k * weight;
    assert weight == U32(weight) + TWO_TO_32 * (weight / TWO_TO_32);
    assert m == k * U32(weight) + TWO_TO_32 * (k * (weight / TWO_TO_32)) by {
      Distribute(k, U32(weight), weight / TWO_TO_32);
    }
    WrapShift(k * U32(weight), k * (weight / TWO_TO_32));
    assert U32(m) == U32(k * U32(weight));
    WrapAdd(s, m);
  }

  lemma Distribute(k: int, x: int, q: int)
    ensures k * (x + TWO_TO_32 * q) == k * x + TWO_TO_32 * (k * q)
  {
    assert k * (TWO_TO_32 * q) == TWO_TO_32 * (k * q);
  }

  lemma WrapShift(x: int, q: int)
    ensures U32(x + TWO_TO_32 * q) == U32(x)
  {
  }

  lemma WrapAdd(x: int, y: int)
    ensures U32(U32(x) + U32(y)) == U32(x + y)
  {
    assert x + y == U32(x) + U32(y) + TWO_TO_32 * (x / TWO_TO_32 + y / TWO_TO_32);
    WrapShift(U32(x) + U32(y), x / TWO_TO_32 + y / TWO_TO_32);
  }

  /** One turn of the loop: the 32-bit accumulators go from the first i bytes to the first i + 1. */
  lemma LoopStep(w: Bytes, i: nat, top: int, a0: int, b0: int, a: u32, b: u32)
    requires i < |w|
    requires a == U32(a0 + Sum(w[..i])) && b == U32(b0 + Weighted(w[..i], top))
    ensures U32(a + w[i]) == U32(a0 + Sum(w[..i + 1]))
    ensures AddTerm(b, w[i], top - i) == U32(b0 + Weighted(w[..i + 1], top))
  {
    hide Sum, Weighted, AddTerm;
    PrefixStep(w, i, top);
    var k: byte, s := w[i], b0 + Weighted(w[..i], top);
    assert U32(k) == k;
    hide U32;
    AccumulateWrapped(b, s, k, top - i);
    WrapAdd(a0 + Sum(w[..i]), k);
  }

  /** a &= 0xFFFF; b &= 0xFFFF; a | (b << 16). */
  function PackWords(a: u32, b: u32): u32 {
    a % TWO_TO_16 + TWO_TO_16 * (b % TWO_TO_16)
  }

  /** Masking the accumulators of the whole window packs the two sums. */
  lemma LoopEnd(w: Bytes, top: int, a0: int, b0: int, a: u32, b: u32)
    requires a == U32(a0 + Sum(w[..|w|])) && b == U32(b0 + Weighted(w[..|w|], top))
    ensures PackWords(a, b) == Pack(a0 + Sum(w), b0 + Weighted(w, top))
  {
    assert w[..|w|] == w;
    MaskWrapped(a0 + Sum(w));
    MaskWrapped(b0 + Weighted(w, top));
  }

  /** The accumulators before the first byte. */
  lemma NothingSummed(w: Bytes, top: int)
    ensures U32(0 + Sum(w[..0])) == 0 && U32(0 + Weighted(w[..0], top)) == 0
    ensures Sum(w[..0]) == 0 && Weighted(w[..0], top) == 0
  {
  }

  lemma WindowStarts(w: Bytes)
    ensures U32(0 + Sum(w[..0])) == 0 && U32(0 + Weighted(w[..0], |w| + 1)) == 0
    ensures Checksum(w) == Pack(0 + Sum(w), 0 + Weighted(w, |w| + 1))
  {
    NothingSummed(w, |w| + 1);
    hide Sum, Weighted, Pack;
  }

  /** The checksum of a window lying in one piece. */
  method ComputeChecksum(buffer: Bytes) returns (checksum: u32)
    ensures checksum == Checksum(buffer)
  {
    var size := |buffer|;
    var a: u32, b: u32 := 0, 0;
    hide Sum, Weighted, U32, AddTerm, PackWords, Pack, Checksum;
    WindowStarts(buffer);
    for i := 0 to size
      invariant a == U32(0 + Sum(buffer[..i]))
      invariant b == U32(0 + Weighted(buffer[..i], size + 1))
    {
      LoopStep(buffer, i, size + 1, 0, 0, a, b);
      var k := buffer[i];
      a := U32(a + k);
      b := AddTerm(b, k, size + 1 - i);
    }
    LoopEnd(buffer, size + 1, 0, 0, a, b);
    checksum := PackWords(a, b);
  }

  lemma PieceStarts(piece: Bytes, offset: nat, logicalSize: nat, previous: u32)
    ensures var a0, b0, top := previous % TWO_TO_16, previous / TWO_TO_16, logicalSize - offset + 1;
            && a0 == U32(a0 + Sum(piece[..0])) && b0 == U32(b0 + Weighted(piece[..0], top))
            && Piece(previous, piece, offset, logicalSize) == Pack(a0 + Sum(piece), b0 + Weighted(piece, top))
  {
    NothingSummed(piece, logicalSize - offset + 1);
    hide Sum, Weighted, Pack;
  }

  /** The piecewise computation: `piece` stands at `offset` in a window of `logicalSize` bytes. */
  method ComputePiece(piece: Bytes, offset: nat, logicalSize: nat, previous: u32) returns (checksum: u32)
    ensures checksum == Piece(previous, piece, offset, logicalSize)
  {
    hide Sum, Weighted, U32, AddTerm, PackWords, Piece, Pack;
    ghost var top := logicalSize - offset + 1;
    var a: u32, b: u32 := previous % TWO_TO_16, previous / TWO_TO_16;
    ghost var a0, b0 := a, b;
    PieceStarts(piece, offset, logicalSize, previous);
    for i := 0 to |piece|
      invariant a == U32(a0 + Sum(piece[..i]))
      invariant b == U32(b0 + Weighted(piece[..i], top))
    {
      LoopStep(piece, i, top, a0, b0, a, b);
      var k := piece[i];
      a := U32(a + k);
      b := AddTerm(b, k, logicalSize + 1 - (i + offset));
    }
    LoopEnd(piece, top, a0, b0, a, b);
    checksum := PackWords(a, b);
  }
}
