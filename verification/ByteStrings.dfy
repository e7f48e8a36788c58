/** Fixed-width integers, byte strings and the few facts about them that every other module uses. */
module ByteStrings {

  const TWO_TO_16 := 0x1_0000
  const TWO_TO_32 := 0x1_0000_0000
  const TWO_TO_63 := 0x8000_0000_0000_0000
  const TWO_TO_64 := 0x1_0000_0000_0000_0000

  type byte = x: int | 0 <= x < 256
  type u32 = x: int | 0 <= x < TWO_TO_32
  type u64 = x: int | 0 <= x < TWO_TO_64

  type Bytes = seq<byte>

  datatype Option<+T> = None | Some(value: T)

  function Min(a: int, b: int): (m: int)
    ensures m <= a && m <= b && (m == a || m == b)
  {
    if a <= b then a else b
  }

  /** The remainder of unsigned integers, by repeated subtraction. */
  function Mod(x: nat, m: nat): (r: nat)
    requires m > 0
    ensures r < m
    ensures x < m ==> r == x
    ensures m <= x < m + m ==> r == x - m
  {
    if x < m then x else Mod(x - m, m)
  }

  lemma {:induction false} ModIsRemainder(x: nat, m: nat)
    requires m > 0
    ensures Mod(x, m) == x % m
  {
    if x >= m {
      ModIsRemainder(x - m, m);
      RemainderStep(x, m);
    } else {
      RemainderSmall(x, m);
    }
  }

  lemma RemainderSmall(x: nat, m: nat)
    requires x < m
    ensures x % m == x
  {
  }

  lemma RemainderStep(x: nat, m: nat)
    requires 0 < m <= x
    ensures (x - m) % m == x % m
  {
    var q, r := (x - m) / m, (x - m) % m;
    assert x == (q + 1) * m + r;
    RemainderUnique(x, m, q + 1, r);
  }

  lemma MultipleIsFar(d: int, m: nat)
    ensures d >= 1 ==> d * m >= m
    ensures d <= -1 ==> d * m <= 0 - m
  {
  }

  lemma RemainderUnique(x: nat, m: nat, q: int, r: nat)
    requires m > 0 && r < m && x == q * m + r
    ensures x % m == r && x / m == q
  {
    var d := q - x / m;
    assert d * m == x % m - r;
    MultipleIsFar(d, m);
  }

  lemma {:induction false} ModOfSum(x: nat, y: nat, m: nat)
    requires m > 0
    ensures Mod(x, m) == 0 ==> Mod(x + y, m) == Mod(y, m)
  {
    if x >= m {
      ModOfSum(x - m, y, m);
    }
  }

  /** The pieces of a byte string, joined in order. */
  function Flatten(pieces: seq<Bytes>): Bytes {
    if pieces == [] then [] else pieces[0] + Flatten(pieces[1..])
  }

  lemma {:induction false} FlattenAppend(a: seq<Bytes>, b: seq<Bytes>)
    ensures Flatten(a + b) == Flatten(a) + Flatten(b)
  {
    if a == [] {
      assert a + b == b;
    } else {
      assert (a + b)[1..] == a[1..] + b;
      FlattenAppend(a[1..], b);
    }
  }

  lemma FlattenSnoc(a: seq<Bytes>, x: Bytes)
    ensures Flatten(a + [x]) == Flatten(a) + x
  {
    FlattenAppend(a, [x]);
    assert Flatten([x]) == x + Flatten([]);
  }

  lemma Associative<T>(a: seq<T>, b: seq<T>, c: seq<T>)
    ensures a + (b + c) == (a + b) + c
  {
  }

  lemma TailOfSum<T>(a: seq<T>, b: seq<T>)
    requires a != []
    ensures (a + b)[0] == a[0] && (a + b)[1..] == a[1..] + b
  {
  }

  /** What is left of a file from an offset that may lie beyond its end. */
  function From(file: Bytes, offset: nat): (r: Bytes)
    ensures |r| == if offset <= |file| then |file| - offset else 0
  {
    if offset <= |file| then file[offset..] else []
  }

  /** The first n bytes, or all of them when there are fewer. */
  function Take(s: Bytes, n: nat): (r: Bytes)
    ensures |r| == Min(n, |s|)
  {
    s[..Min(n, |s|)]
  }

  /** The bytes a read of `size` bytes at `offset` delivers: the slice, cut at the end of the file. */
  function Slice(file: Bytes, offset: nat, size: nat): (r: Bytes)
    ensures |r| == if offset <= |file| then Min(size, |file| - offset) else 0
  {
    Take(From(file, offset), size)
  }

  lemma SliceIs(file: Bytes, offset: nat, size: nat)
    requires offset <= |file|
    ensures Slice(file, offset, size) == file[offset..offset + Min(size, |file| - offset)]
  {
  }

  lemma SliceSplit(file: Bytes, offset: nat, a: nat, b: nat)
    ensures Slice(file, offset, a + b) == Slice(file, offset, a) + Slice(file, offset + a, b)
  {
  }

  lemma SliceOfTail(file: Bytes, n: nat, offset: nat, size: nat)
    requires n <= |file| && n <= offset
    ensures Slice(file[n..], offset - n, size) == Slice(file, offset, size)
  {
    assert From(file[n..], offset - n) == From(file, offset);
  }

  lemma SliceOfLeft(a: Bytes, b: Bytes, offset: nat, n: nat)
    requires offset + n <= |a|
    ensures Slice(a + b, offset, n) == Slice(a, offset, n)
  {
    SliceIs(a + b, offset, n);
    SliceIs(a, offset, n);
  }

  lemma SliceOfRight(a: Bytes, b: Bytes, offset: nat, n: nat)
    requires |a| <= offset <= |a| + |b|
    ensures Slice(a + b, offset, n) == Slice(b, offset - |a|, n)
  {
    SliceIs(a + b, offset, n);
    SliceIs(b, offset - |a|, n);
  }

  lemma SliceOfSlice(file: Bytes, at: nat, size: nat, offset: nat, n: nat)
    requires at + size <= |file| && offset + n <= size
    ensures Slice(Slice(file, at, size), offset, n) == Slice(file, at + offset, n)
  {
    SliceIs(file, at, size);
    SliceIs(file, at + offset, n);
    SliceIs(Slice(file, at, size), offset, n);
  }

  lemma FromAfterSlice(file: Bytes, offset: nat, size: nat)
    ensures From(file, offset)[|Slice(file, offset, size)|..] == From(file, offset + size)
  {
  }

  lemma SlicePrefix(file: Bytes, a: nat, b: nat)
    requires a + b <= |file|
    ensures file[..a] + Slice(file, a, b) == file[..a + b]
  {
  }
}
