/** The ring buffer (circular_buffer.h, circular_buffer.cpp), refining a bounded FIFO queue of bytes. */
module RingBuffer {
  import opened ByteStrings
  import opened RollingChecksum

  /** What push_buffer stores when it takes n bytes and `room` bytes remain before the end of the array.
      The part that wraps to the front is copied from the start of the argument again. */
  function Pushed(buf: Bytes, n: nat, room: nat): (r: Bytes)
    requires n <= |buf|
    ensures |r| == n
  {
    if n <= room then buf[..n] else buf[..room] + buf[..n - room]
  }

  /** push_buffer stores what it was given, for every content, exactly when the bytes do not wrap. */
  lemma PushedFaithful(n: nat, room: nat)
    requires 0 < room
    ensures (forall buf: Bytes | |buf| == n :: Pushed(buf, n, room) == buf) <==> n <= room
  {
    if room < n {
      PushedWrapFails(n, room);
    } else {
      forall buf: Bytes | |buf| == n
        ensures Pushed(buf, n, room) == buf
      {
        assert buf[..n] == buf;
      }
    }
  }

  /** The failing input: the first byte that wraps differs from the first byte of the argument. */
  lemma PushedWrapFails(n: nat, room: nat)
    requires 0 < room < n
    ensures var buf := seq(n, i => if i < room then 0 else 1);
            |buf| == n && Pushed(buf, n, room) != buf
  {
    var buf: Bytes := seq(n, i => if i < room then 0 else 1);
    assert Pushed(buf, n, room)[room] == buf[0];
  }

  /** The queue held in memory `mem`: size bytes from start, continuing at the front of the memory. */
  function Queue(mem: Bytes, start: nat, size: nat): (s: Bytes)
    requires size <= |mem| && start <= |mem|
    ensures |s| == size
  {
    if start + size <= |mem| then mem[start..start + size] else mem[start..] + mem[..start + size - |mem|]
  }

  /** The memory after memcpy(mem + at, src, n). */
  function Copied(mem: Bytes, at: nat, src: Bytes, n: nat): (m: Bytes)
    requires n <= |src| && at + n <= |mem|
    ensures |m| == |mem|
  {
    mem[..at] + src[..n] + mem[at + n..]
  }

  /** The bytes from `from` up to the end of a copy that lies behind it. */
  lemma CopiedBehind(mem: Bytes, at: nat, src: Bytes, n: nat, from: nat)
    requires from <= at && n <= |src| && at + n <= |mem|
    ensures Copied(mem, at, src, n)[from..at + n] == mem[from..at] + src[..n]
  {
  }

  /** A copy does not reach what stands behind it. */
  lemma CopiedBefore(mem: Bytes, at: nat, src: Bytes, n: nat, from: nat)
    requires at + n <= from <= |mem| && n <= |src|
    ensures Copied(mem, at, src, n)[from..] == mem[from..]
    ensures Copied(mem, at, src, n)[..at + n] == mem[..at] + src[..n]
  {
  }

  lemma PushWithoutWrap(mem: Bytes, start: nat, size: nat, buf: Bytes, n: nat)
    requires start <= |mem| && 0 < |mem| && size + n <= |mem| && n <= |buf|
    requires Mod(start + size, |mem|) + n <= |mem|
    ensures Queue(Copied(mem, Mod(start + size, |mem|), buf, n), start, size + n)
         == Queue(mem, start, size) + buf[..n]
  {
    var at := Mod(start + size, |mem|);
    if start + size < |mem| {
      CopiedBehind(mem, at, buf, n, start);
    } else if n == 0 {
      assert Copied(mem, at, buf, n) == mem;
    } else {
      assert at == start + size - |mem| && at + n <= start;
      CopiedBefore(mem, at, buf, n, start);
      hide Copied, Mod;
      Associative(mem[start..], mem[..at], buf[..n]);
      assert mem[start..] + mem[..0] == mem[start..];
    }
  }

  lemma PushAcrossWrap(mem: Bytes, start: nat, size: nat, buf: Bytes, n: nat, room: nat)
    requires start < |mem| && size + n <= |mem| && n <= |buf|
    requires start + size + room == |mem| && room < n
    ensures Queue(Copied(Copied(mem, start + size, buf, room), 0, buf, n - room), start, size + n)
         == Queue(mem, start, size) + Pushed(buf, n, room)
  {
    hide Copied, Queue, Pushed;
    var first := Copied(mem, start + size, buf, room);
    var after := Copied(first, 0, buf, n - room);
    QueueStraight(mem, start, size);
    QueueWraps(after, start, size + n);
    CopiedBehind(mem, start + size, buf, room, start);
    CopiedBefore(first, 0, buf, n - room, start);
    var x, y, z := mem[start..start + size], buf[..room], buf[..n - room];
    assert after[start..] == x + y by {
      WholeTail(first, start);
    }
    assert after[..n - room] == z by {
      EmptyLeft(first[..0], z);
    }
    PushedWraps(buf, n, room);
    Associative(x, y, z);
  }

  lemma QueueStraight(mem: Bytes, start: nat, size: nat)
    requires start + size <= |mem|
    ensures Queue(mem, start, size) == mem[start..start + size]
  {
  }

  lemma QueueWraps(mem: Bytes, start: nat, size: nat)
    requires size <= |mem| && start <= |mem| < start + size
    ensures Queue(mem, start, size) == mem[start..] + mem[..start + size - |mem|]
  {
  }

  lemma PushedWraps(buf: Bytes, n: nat, room: nat)
    requires room < n <= |buf|
    ensures Pushed(buf, n, room) == buf[..room] + buf[..n - room]
  {
  }

  lemma WholeTail(mem: Bytes, start: nat)
    requires start <= |mem|
    ensures mem[start..|mem|] == mem[start..]
  {
  }

  lemma EmptyLeft(empty: Bytes, x: Bytes)
    requires empty == []
    ensures empty + x == x
  {
  }

  /** The memory after push_buffer has copied n bytes in behind the queue. */
  function Stored(mem: Bytes, start: nat, size: nat, buf: Bytes, n: nat): (m: Bytes)
    requires start <= |mem| && 0 < |mem| && size + n <= |mem| && n <= |buf|
    ensures |m| == |mem|
  {
    var at := Mod(start + size, |mem|);
    var room := |mem| - at;
    if n <= room then Copied(mem, at, buf, n)
    else Copied(Copied(mem, at, buf, room), 0, buf, n - room)
  }

  lemma StoredQueue(mem: Bytes, start: nat, size: nat, buf: Bytes, n: nat)
    requires start <= |mem| && 0 < |mem| && size + n <= |mem| && n <= |buf|
    ensures Queue(Stored(mem, start, size, buf, n), start, size + n)
         == Queue(mem, start, size) + Pushed(buf, n, |mem| - Mod(start + size, |mem|))
  {
    hide Queue;
    hide Copied;
    hide Mod;
    var room := |mem| - Mod(start + size, |mem|);
    if n <= room {
      PushWithoutWrap(mem, start, size, buf, n);
      assert Pushed(buf, n, room) == buf[..n];
    } else {
      assert start < |mem| && Mod(start + size, |mem|) == start + size;
      hide Pushed;
      PushAcrossWrap(mem, start, size, buf, n, room);
    }
  }

  lemma QueueDrop(mem: Bytes, start: nat, size: nat, n: nat)
    requires n <= size <= |mem| && start <= |mem|
    ensures start + n <= |mem| ==> Queue(mem, start + n, size - n) == Queue(mem, start, size)[n..]
  {
  }

  /** A piece at the front of the queue is stored as the queue is. */
  lemma PushedPrefix(piece: Bytes, queue: Bytes, n: nat, room: nat)
    requires piece <= queue && n <= |piece|
    ensures Pushed(piece, n, room) == Pushed(queue, n, room)
  {
  }

  lemma PushedNothing(piece: Bytes, room: nat)
    ensures Pushed(piece, 0, room) == []
  {
  }

  lemma TwoPieces(pieces: seq<Bytes>, all: Bytes)
    requires Flatten(pieces) == all && (|pieces| == 1 || |pieces| == 2)
    ensures all == pieces[0] + if |pieces| == 2 then pieces[1] else []
  {
    if |pieces| == 2 {
      assert pieces[1..] == [pieces[1]] && pieces[1..][1..] == [];
      assert Flatten([pieces[1]]) == pieces[1] + Flatten([]);
      assert all == pieces[0] + pieces[1];
    } else {
      assert pieces[1..] == [];
    }
  }

  class CircularBuffer {
    /** The bytes in the queue, oldest first. */
    ghost var Contents: Bytes

    var data: array<byte>
    var size: nat
    var start: nat

    /** The fields are in range and the memory holds the queue. PopBuffer may leave start at the capacity; the queue
        then begins at the front of the array. */
    ghost predicate InRange()
      reads this, data
      ensures InRange() ==> |Contents| == size <= data.Length && start <= data.Length
    {
      && size <= data.Length && start <= data.Length
      && Contents == Queue(data[..], start, size)
    }

    /** process_whole also yields the queue. It yields nothing of a full buffer whose start is at the capacity, because
        it takes the end of the queue modulo the capacity. */
    ghost predicate Valid()
      reads this, data
      ensures Valid() ==> InRange()
      ensures Valid() ==> |Contents| == size <= data.Length && start <= data.Length
    {
      InRange() && (start == data.Length ==> size == 0 || size < data.Length)
    }

    predicate SinglePiece()
      reads this
    {
      start + size <= data.Length
    }

    constructor (initialSize: nat)
      ensures Valid() && fresh(data)
      ensures data.Length == initialSize && start == 0 && size == initialSize
    {
      data := new byte[initialSize](_ => 0);
      size := initialSize;
      start := 0;
      new;
      Contents := data[..];
    }

    /** Makes the capacity n; the old array is kept when it already has that capacity. */
    method Realloc(n: nat)
      modifies this
      ensures Valid() && data.Length == n && start == 0 && size == n
      ensures data == old(data) || fresh(data)
    {
      if data.Length != n {
        data := new byte[n](_ => 0);
      }
      Reset();
    }

    method Reset()
      modifies this`size, this`start, this`Contents
      ensures Valid() && start == 0 && size == data.Length
    {
      size := data.Length;
      start := 0;
      Contents := data[..];
    }

    method ResetSize()
      requires Valid()
      modifies this`size, this`Contents
      ensures Valid() && size == 0 && Contents == []
    {
      size := 0;
      Contents := [];
    }

    /** Cuts the queue to its n oldest bytes. */
    method Trim(n: nat)
      requires Valid()
      modifies this`size, this`Contents
      ensures Valid()
      ensures Contents == Take(old(Contents), n)
    {
      if n > size {
        return;
      }
      size := n;
      Contents := Contents[..n];
    }

    /** Reads at `start`, so a queue that is not empty must start inside the array. */
    method Pop() returns (oldest: byte)
      requires InRange()
      requires size > 0 ==> start < data.Length
      modifies this`size, this`start, this`Contents
      ensures Valid()
      ensures old(size) == 0 ==> oldest == 0 && start == old(start) && size == 0
      ensures old(size) > 0 ==> [oldest] + Contents == old(Contents)
      ensures old(size) > 0 ==> start == Mod(old(start) + 1, data.Length) < data.Length
      ensures old(SinglePiece()) ==> SinglePiece()
    {
      if size == 0 {
        return 0;
      }
      oldest := data[start];
      start := start + 1;
      start := Mod(start, data.Length);
      size := size - 1;
      Contents := Contents[1..];
    }

    /** A full buffer ignores the byte and returns 0. */
    method Push(incoming: byte) returns (stored: byte)
      requires InRange()
      modifies this`size, this`Contents, data
      ensures InRange() && size == Min(old(size) + 1, data.Length)
      ensures Valid() <==> (start == data.Length ==> size == 0 || size < data.Length)
      ensures old(size) == data.Length ==> stored == 0 && Contents == old(Contents)
      ensures old(size) < data.Length ==> stored == incoming && Contents == old(Contents) + [incoming]
    {
      if size == data.Length {
        return 0;
      }
      data[Mod(start + size, data.Length)] := incoming;
      size := size + 1;
      Contents := Contents + [incoming];
      stored := incoming;
    }

    /** Copies the n first bytes of src into the array at `at`. */
    method MemCpy(at: nat, src: Bytes, n: nat)
      requires n <= |src| && at + n <= data.Length
      modifies data
      ensures data[..] == Copied(old(data[..]), at, src, n)
    {
      forall i | at <= i < at + n {
        data[i] := src[i - at];
      }
    }

    /** Where the next byte goes, and how many fit from there before the array ends. */
    ghost function Room(): (room: nat)
      reads this
      requires data.Length > 0
    {
      data.Length - Mod(start + size, data.Length)
    }

    /** The two copies of push_buffer. */
    method Store(buf: Bytes, n: nat)
      requires start <= data.Length && 0 < data.Length && size + n <= data.Length && n <= |buf|
      modifies data
      ensures data[..] == Stored(old(data[..]), start, size, buf, n)
    {
      hide Mod, Queue, Copied, Pushed;
      var at := Mod(start + size, data.Length);
      ghost var mem := data[..];
      if at + n <= data.Length {
        MemCpy(at, buf, n);
        assert data[..] == Copied(mem, at, buf, n);
      } else {
        MemCpy(at, buf, data.Length - at);
        ghost var first := data[..];
        assert first == Copied(mem, at, buf, |mem| - at);
        MemCpy(0, buf, Mod(at + n, data.Length));
        assert data[..] == Copied(first, 0, buf, at + n - |mem|);
      }
    }

    /** Takes as many bytes as there is space for. The index is taken modulo the capacity, which must not be 0. */
    method PushBuffer(buf: Bytes) returns (n: nat)
      requires InRange()
      requires 0 < data.Length
      modifies this`size, this`Contents, data
      ensures InRange()
      ensures Valid() <==> (start == data.Length ==> size < data.Length)
      ensures n == Min(|buf|, data.Length - old(size)) && size == old(size) + n
      ensures Contents == old(Contents) + Pushed(buf, n, old(Room()))
    {
      hide Queue, Stored, Pushed, Mod;
      n := Min(|buf|, data.Length - size);
      ghost var pushed := Contents + Pushed(buf, n, Room());
      StoredQueue(data[..], start, size, buf, n);
      Store(buf, n);
      size := size + n;
      Contents := pushed;
    }

    /** The stretches of memory process_whole hands to its callback, one or two, in order. */
    method Pieces() returns (pieces: seq<Bytes>)
      requires InRange()
      ensures Flatten(pieces) == if Valid() then Contents else []
      ensures |pieces| == if SinglePiece() then 1 else 2
      ensures |pieces[0]| == Min(size, data.Length - start)
      ensures !Valid() ==> pieces == [[], []]
    {
      if start + size <= data.Length {
        pieces := [data[start..start + size]];
        assert Flatten(pieces) == pieces[0] + Flatten([]) == data[..][start..start + size];
      } else {
        pieces := [data[start..], data[..Mod(start + size, data.Length)]];
        assert pieces[1..] == [pieces[1]] && pieces[1..][1..] == [];
        assert Flatten(pieces[1..]) == pieces[1] + Flatten([]);
      }
    }

    /** What process_whole does with a callback that pushes each piece into this buffer. */
    method PushPieces(pieces: seq<Bytes>)
      requires InRange() && 0 < data.Length && (|pieces| == 1 || |pieces| == 2)
      modifies this`size, this`Contents, data
      ensures InRange()
      ensures var n := Min(|Flatten(pieces)|, data.Length - old(size));
              && size == old(size) + n
              && (n <= |pieces[0]| ==> Contents == old(Contents) + Pushed(Flatten(pieces), n, old(Room())))
      ensures Valid() <==> (start == data.Length ==> size < data.Length)
    {
      hide Pushed, Mod, Queue;
      ghost var all, free, room := Flatten(pieces), data.Length - size, Room();
      TwoPieces(pieces, all);
      PushedPrefix(pieces[0], all, Min(|pieces[0]|, free), room);
      hide Flatten;
      var _ := PushBuffer(pieces[0]);
      if |pieces| == 2 {
        PushedNothing(pieces[1], Room());
        var _ := PushBuffer(pieces[1]);
      }
    }

    /** Moves bytes from the front of this buffer to the back of dst, as many as dst can take. start is not reduced
        modulo the capacity: the buffer stays a queue exactly when the bytes taken end before the array does. */
    method PopBuffer(dst: CircularBuffer)
      requires InRange() && dst.InRange() && dst != this && dst.data != data
      requires 0 < dst.data.Length
      modifies this`size, this`start, this`Contents, dst`size, dst`Contents, dst.data
      ensures var n := if old(Valid()) then Min(old(size), dst.data.Length - old(dst.size)) else 0;
              && start == old(start) + n && size == old(size) - n && dst.size == old(dst.size) + n
              && (InRange() <==> old(start) + n <= data.Length)
              && (Valid() <==> old(Valid()) && InRange())
              && (Valid() ==>
                    && Contents == old(Contents)[n..]
                    && dst.Contents == old(dst.Contents) + Pushed(old(Contents), n, old(dst.Room())))
      ensures dst.InRange()
      ensures dst.Valid() <==> (dst.start == dst.data.Length ==> dst.size < dst.data.Length)
      ensures old(SinglePiece()) ==> Valid() && SinglePiece()
    {
      hide Pushed, Mod, Queue, Flatten;
      var initialSize := dst.size;
      var pieces := Pieces();
      dst.PushPieces(pieces);
      var n := dst.size - initialSize;
      QueueDrop(data[..], start, size, n);
      start := start + n;
      size := size - n;
      Contents := Contents[n..];
    }

    /** A destination that starts at the beginning of its array gets exactly the bytes taken. */
    lemma RoomFromStart()
      requires Valid() && start == 0 && size < data.Length
      ensures Room() == data.Length - size
    {
    }

    /** operator[]. */
    method At(i: nat) returns (b: byte)
      requires InRange() && i < size
      ensures b == Contents[i]
    {
      b := data[Mod(Mod(i, size) + start, data.Length)];
    }

    /** compute_rsync_rolling_checksum(const circular_buffer &): one loop over memory when the bytes lie in
        one piece, otherwise a loop through operator[]. */
    method ComputeChecksum() returns (checksum: u32)
      requires InRange()
      ensures checksum == Checksum(Contents)
    {
      if SinglePiece() {
        checksum := RollingChecksum.ComputeChecksum(data[start..start + size]);
      } else {
        checksum := ComputeThroughIndex();
      }
    }

    method ComputeThroughIndex() returns (checksum: u32)
      requires InRange()
      ensures checksum == Checksum(Contents)
    {
      var a: u32, b: u32 := 0, 0;
      ghost var w := Contents;
      var n := size;
      hide Sum, Weighted, U32, AddTerm, PackWords, Checksum, Pack, InRange;
      WindowStarts(w);
      for i := 0 to n
        invariant a == U32(0 + Sum(w[..i]))
        invariant b == U32(0 + Weighted(w[..i], n + 1))
      {
        var k := At(i);
        LoopStep(w, i, n + 1, 0, 0, a, b);
        a := U32(a + k);
        b := AddTerm(b, k, n + 1 - i);
      }
      LoopEnd(w, n + 1, 0, 0, a, b);
      checksum := PackWords(a, b);
    }
  }

  /** The failing case, reached with the buffer's own operations: a wrapped buffer of capacity 4 that starts at 3 and
      holds two bytes, drained into a buffer with space for both, is left with its start behind its array. */
  method PopBufferLeavesMemory() returns (source: CircularBuffer)
    ensures source.data.Length == 4 && source.start == 5 && source.size == 0
    ensures !source.Valid()
  {
    source := new CircularBuffer(4);
    for i := 0 to 3
      invariant source.Valid() && fresh(source) && fresh(source.data)
      invariant source.data.Length == 4 && source.start == i && source.size == 4 - i
    {
      var _ := source.Pop();
    }
    var _ := source.Push(1);
    var dst := new CircularBuffer(2);
    dst.ResetSize();
    source.PopBuffer(dst);
  }

  /** The other failing case: a buffer of capacity 1, drained and filled again, holds a byte that process_whole does
      not hand out. */
  method RefilledBufferYieldsNothing() returns (buffer: CircularBuffer, pieces: seq<Bytes>)
    ensures buffer.InRange() && buffer.Contents == [7]
    ensures Flatten(pieces) == []
  {
    buffer := new CircularBuffer(1);
    var dst := new CircularBuffer(1);
    dst.ResetSize();
    buffer.PopBuffer(dst);
    var _ := buffer.Push(7);
    pieces := buffer.Pieces();
  }
}
