/** The hashing pipeline of FileComparer (FileComparer.cpp): the comparer fills new_buffer and queues it under a
    mutex, and a thread takes buffers off the queue and hashes them into the block table of the new file.

    The pipeline is a state machine. The comparer's steps come in program order, the thread's step may come
    between any two of them, and each step is atomic because only the queue is shared. */
module HashingThread {
  import opened ByteStrings
  import opened BlockTable

  datatype Phase = Running | Flushed | Closed

  /** A queued None is the terminator, the simple_buffer without memory. */
  datatype Pipeline = Pipeline(
    blockSize: nat,
    // of the comparer
    phase: Phase,
    newBuffer: Bytes,
    // shared
    queue: seq<Option<Bytes>>,
    // of the thread
    hashedBlocks: seq<Bytes>,
    table: seq<Item>,
    offset: nat,
    done: bool,
    digest: Option<Digest>)

  function Started(blockSize: nat): Pipeline {
    Pipeline(blockSize, Running, [], [], [], [], 0, false, None)
  }

  /** Feed is one turn of add_block's loop, or add_byte; Flush and Terminate are request_thread_stop. */
  datatype Action = Feed(chunk: Bytes) | Flush | Terminate | ThreadStep

  predicate Enabled(p: Pipeline, a: Action) {
    match a
    case Feed(chunk) => p.phase == Running && |p.newBuffer| + |chunk| <= p.blockSize
    case Flush => p.phase == Running
    case Terminate => p.phase == Flushed
    case ThreadStep => p.queue != [] && !p.done
  }

  /** process_new_buffer. */
  function ProcessNewBuffer(p: Pipeline, force: bool): Pipeline {
    if !force && |p.newBuffer| != p.blockSize then p
    else p.(queue := p.queue + [Some(p.newBuffer)], newBuffer := [])
  }

  /** One turn of thread_func's loop. */
  function ThreadTurn(p: Pipeline, sha: Sha): Pipeline
    requires p.queue != []
  {
    var front, rest := p.queue[0], p.queue[1..];
    match front
    case None =>
      p.(queue := rest, done := true, digest := Some(sha(Flatten(p.hashedBlocks))), table := Sort(p.table))
    case Some(buffer) =>
      p.(queue := rest,
         hashedBlocks := p.hashedBlocks + [buffer],
         table := p.table + [ItemOf(buffer, p.offset, sha)],
         offset := p.offset + |buffer|)
  }

  function Next(p: Pipeline, a: Action, sha: Sha): Pipeline
    requires Enabled(p, a)
  {
    match a
    case Feed(chunk) => ProcessNewBuffer(p.(newBuffer := p.newBuffer + chunk), false)
    case Flush => ProcessNewBuffer(p, true).(phase := Flushed)
    case Terminate => p.(queue := p.queue + [None], phase := Closed)
    case ThreadStep => ThreadTurn(p, sha)
  }

  // ---------- the invariant ----------

  function Buffers(queue: seq<Option<Bytes>>): seq<Bytes> {
    if queue == [] then []
    else FirstBuffer(queue[0]) + Buffers(queue[1..])
  }

  /** Everything pushed so far, hashed or still queued. */
  function PushedBlocks(p: Pipeline): seq<Bytes> {
    p.hashedBlocks + Buffers(p.queue)
  }

  function Items(blocks: seq<Bytes>, offset: nat, sha: Sha): seq<Item> {
    if blocks == [] then []
    else [ItemOf(blocks[0], offset, sha)] + Items(blocks[1..], offset + |blocks[0]|, sha)
  }

  predicate AllFull(blocks: seq<Bytes>, blockSize: nat) {
    forall k | 0 <= k < |blocks| :: |blocks[k]| == blockSize
  }

  /** Full blocks, then one that is not full and may be empty. */
  predicate FullThenShort(blocks: seq<Bytes>, blockSize: nat) {
    && blocks != []
    && (forall k | 0 <= k < |blocks| - 1 :: |blocks[k]| == blockSize)
    && |blocks[|blocks| - 1]| < blockSize
  }

  /** The terminator is queued once, at the end, and nothing follows it. */
  predicate QueueShape(p: Pipeline) {
    && (forall k | 0 <= k < |p.queue| :: p.queue[k].None? ==> k == |p.queue| - 1 && p.phase == Closed && !p.done)
    && (p.done ==> p.queue == [] && p.phase == Closed)
    && (p.phase == Closed && !p.done ==> p.queue != [] && p.queue[|p.queue| - 1].None?)
  }

  /** The bytes hashed, then the bytes queued, then the bytes in new_buffer are the bytes fed, in order. */
  predicate BytesInOrder(p: Pipeline, fed: Bytes) {
    Flatten(p.hashedBlocks) + Flatten(Buffers(p.queue)) + p.newBuffer == fed
  }

  /** What was pushed are full blocks, and once the stop was requested a last one that is not full. */
  predicate BlocksShaped(p: Pipeline) {
    if p.phase == Running then AllFull(PushedBlocks(p), p.blockSize) && |p.newBuffer| < p.blockSize
    else FullThenShort(PushedBlocks(p), p.blockSize) && p.newBuffer == []
  }

  /** The table holds the items of the blocks hashed; at the end it is sorted and the digest is there. */
  ghost predicate TableSoFar(p: Pipeline, sha: Sha) {
    && p.offset == |Flatten(p.hashedBlocks)|
    && (if p.done then p.table == Sort(Items(p.hashedBlocks, 0, sha)) && p.digest == Some(sha(Flatten(p.hashedBlocks)))
        else p.table == Items(p.hashedBlocks, 0, sha))
  }

  ghost predicate Inv(p: Pipeline, fed: Bytes, sha: Sha) {
    p.blockSize > 0 && QueueShape(p) && BytesInOrder(p, fed) && BlocksShaped(p) && TableSoFar(p, sha)
  }

  lemma StartedInv(blockSize: nat, sha: Sha)
    requires blockSize > 0
    ensures Inv(Started(blockSize), [], sha)
  {
  }

  lemma {:induction false} BuffersAppend(a: seq<Option<Bytes>>, b: seq<Option<Bytes>>)
    ensures Buffers(a + b) == Buffers(a) + Buffers(b)
  {
    assert Buffers([]) == [];
    hide Buffers, FirstBuffer;
    if a == [] {
      assert a + b == b;
    } else {
      BuffersHead(a);
      BuffersHead(a + b);
      TailOfSum(a, b);
      BuffersAppend(a[1..], b);
      Associative(FirstBuffer(a[0]), Buffers(a[1..]), Buffers(b));
    }
  }

  function FirstBuffer(front: Option<Bytes>): seq<Bytes> {
    if front.Some? then [front.value] else []
  }

  lemma BuffersHead(queue: seq<Option<Bytes>>)
    requires queue != []
    ensures Buffers(queue) == FirstBuffer(queue[0]) + Buffers(queue[1..])
  {
  }

  lemma {:induction false} ItemsSnoc(blocks: seq<Bytes>, block: Bytes, offset: nat, sha: Sha)
    ensures Items(blocks + [block], offset, sha)
         == Items(blocks, offset, sha) + [ItemOf(block, offset + |Flatten(blocks)|, sha)]
    decreases |blocks|
  {
    if blocks == [] {
      assert blocks + [block] == [block];
    } else {
      assert (blocks + [block])[1..] == blocks[1..] + [block];
      ItemsSnoc(blocks[1..], block, offset + |blocks[0]|, sha);
    }
  }

  lemma PushKeepsBytes(p: Pipeline, buffer: Bytes)
    ensures Buffers(p.queue + [Some(buffer)]) == Buffers(p.queue) + [buffer]
    ensures Flatten(Buffers(p.queue + [Some(buffer)])) == Flatten(Buffers(p.queue)) + buffer
    ensures p.hashedBlocks + Buffers(p.queue + [Some(buffer)]) == PushedBlocks(p) + [buffer]
  {
    BuffersAppend(p.queue, [Some(buffer)]);
    assert Buffers([Some(buffer)]) == [buffer] + Buffers([]);
    FlattenSnoc(Buffers(p.queue), buffer);
  }

  lemma FeedKeepsInv(p: Pipeline, chunk: Bytes, fed: Bytes, sha: Sha)
    requires Inv(p, fed, sha) && Enabled(p, Feed(chunk))
    ensures Inv(Next(p, Feed(chunk), sha), fed + chunk, sha)
  {
    var filled := p.newBuffer + chunk;
    var older := Flatten(p.hashedBlocks) + Flatten(Buffers(p.queue));
    Associative(older, p.newBuffer, chunk);
    PushKeepsBytes(p, filled);
    Associative(Flatten(p.hashedBlocks), Flatten(Buffers(p.queue)), filled);
    hide Flatten;
    hide Buffers;
    hide Items;
  }

  lemma FlushKeepsInv(p: Pipeline, fed: Bytes, sha: Sha)
    requires Inv(p, fed, sha) && Enabled(p, Flush)
    ensures Inv(Next(p, Flush, sha), fed, sha)
  {
    PushKeepsBytes(p, p.newBuffer);
    Associative(Flatten(p.hashedBlocks), Flatten(Buffers(p.queue)), p.newBuffer);
    var pushed := PushedBlocks(p) + [p.newBuffer];
    assert pushed[..|pushed| - 1] == PushedBlocks(p);
  }

  lemma TerminateKeepsInv(p: Pipeline, fed: Bytes, sha: Sha)
    requires Inv(p, fed, sha) && Enabled(p, Terminate)
    ensures Inv(Next(p, Terminate, sha), fed, sha)
  {
    BuffersAppend(p.queue, [None]);
    assert Buffers([None]) == [] + Buffers([]);
    assert Buffers(p.queue + [None]) == Buffers(p.queue);
  }

  /** The thread takes a block off the queue. */
  lemma BlockTaken(p: Pipeline, buffer: Bytes, rest: seq<Option<Bytes>>)
    requires p.queue == [Some(buffer)] + rest
    ensures Buffers(p.queue) == [buffer] + Buffers(rest)
    ensures p.hashedBlocks + Buffers(p.queue) == (p.hashedBlocks + [buffer]) + Buffers(rest)
  {
    assert p.queue[1..] == rest;
    Associative(p.hashedBlocks, [buffer], Buffers(rest));
  }

  lemma BlockKeepsBytes(p: Pipeline, fed: Bytes, sha: Sha)
    requires BytesInOrder(p, fed) && p.queue != [] && p.queue[0].Some?
    ensures BytesInOrder(ThreadTurn(p, sha), fed)
  {
    var buffer, rest := p.queue[0].value, p.queue[1..];
    assert p.queue == [Some(buffer)] + rest;
    BlockTaken(p, buffer, rest);
    FlattenSnoc(p.hashedBlocks, buffer);
    FlattenAppend([buffer], Buffers(rest));
    assert Flatten([buffer]) == buffer + Flatten([]);
    Associative(Flatten(p.hashedBlocks), buffer, Flatten(Buffers(rest)));
  }

  lemma BlockKeepsTable(p: Pipeline, sha: Sha)
    requires TableSoFar(p, sha) && !p.done && p.queue != [] && p.queue[0].Some?
    ensures TableSoFar(ThreadTurn(p, sha), sha)
  {
    FlattenSnoc(p.hashedBlocks, p.queue[0].value);
    ItemsSnoc(p.hashedBlocks, p.queue[0].value, 0, sha);
  }

  lemma BlockKeepsShapes(p: Pipeline, sha: Sha)
    requires QueueShape(p) && BlocksShaped(p) && !p.done && p.queue != [] && p.queue[0].Some?
    ensures QueueShape(ThreadTurn(p, sha)) && BlocksShaped(ThreadTurn(p, sha))
  {
    var buffer, rest := p.queue[0].value, p.queue[1..];
    assert p.queue == [Some(buffer)] + rest;
    BlockTaken(p, buffer, rest);
    hide Buffers, AllFull, FullThenShort;
    assert forall k | 0 <= k < |rest| :: rest[k] == p.queue[k + 1];
  }

  lemma ThreadKeepsInv(p: Pipeline, fed: Bytes, sha: Sha)
    requires Inv(p, fed, sha) && Enabled(p, ThreadStep)
    ensures Inv(Next(p, ThreadStep, sha), fed, sha)
  {
    if p.queue[0].Some? {
      BlockKeepsBytes(p, fed, sha);
      BlockKeepsTable(p, sha);
      BlockKeepsShapes(p, sha);
      hide QueueShape, BytesInOrder, BlocksShaped, TableSoFar;
    } else {
      assert |p.queue| == 1;
      assert Buffers(p.queue) == [] + Buffers([]);
    }
  }

  /** Waiting for the thread: until it is done it has something to take, and each turn takes it. */
  lemma WaitStep(p: Pipeline, fed: Bytes, sha: Sha)
    requires Inv(p, fed, sha) && p.phase == Closed && !p.done
    ensures Enabled(p, ThreadStep)
    ensures var q := Next(p, ThreadStep, sha);
            Inv(q, fed, sha) && q.phase == Closed && q.blockSize == p.blockSize && |q.queue| < |p.queue|
  {
    ThreadKeepsInv(p, fed, sha);
  }

  // ---------- every run ----------

  /** The actions are a run: each is enabled when its turn comes. */
  predicate Legal(p: Pipeline, run: seq<Action>, sha: Sha)
    decreases |run|
  {
    run == [] || (Enabled(p, run[0]) && Legal(Next(p, run[0], sha), run[1..], sha))
  }

  function Exec(p: Pipeline, run: seq<Action>, sha: Sha): Pipeline
    requires Legal(p, run, sha)
    decreases |run|
  {
    if run == [] then p else Exec(Next(p, run[0], sha), run[1..], sha)
  }

  /** The bytes the comparer has read in a run. */
  function Fed(run: seq<Action>): Bytes {
    if run == [] then []
    else (if run[0].Feed? then run[0].chunk else []) + Fed(run[1..])
  }

  lemma {:induction false} RunKeepsInv(p: Pipeline, run: seq<Action>, fed: Bytes, sha: Sha)
    requires Inv(p, fed, sha) && Legal(p, run, sha)
    ensures Inv(Exec(p, run, sha), fed + Fed(run), sha)
    decreases |run|
  {
    if run == [] {
      assert fed + [] == fed;
    } else {
      match run[0] {
        case Feed(chunk) =>
          FeedKeepsInv(p, chunk, fed, sha);
          RunKeepsInv(Next(p, run[0], sha), run[1..], fed + chunk, sha);
          Associative(fed, chunk, Fed(run[1..]));
        case Flush =>
          FlushKeepsInv(p, fed, sha);
          RunKeepsInv(Next(p, run[0], sha), run[1..], fed, sha);
          assert [] + Fed(run[1..]) == Fed(run[1..]);
        case Terminate =>
          TerminateKeepsInv(p, fed, sha);
          RunKeepsInv(Next(p, run[0], sha), run[1..], fed, sha);
          assert [] + Fed(run[1..]) == Fed(run[1..]);
        case ThreadStep =>
          ThreadKeepsInv(p, fed, sha);
          RunKeepsInv(Next(p, run[0], sha), run[1..], fed, sha);
          assert [] + Fed(run[1..]) == Fed(run[1..]);
      }
    }
  }

  /** The items of full blocks and a short one: those of the file they make up, and one more if the short
      block is empty. */
  function ItemsWithTail(file: Bytes, blockSize: nat, offset: nat, sha: Sha): seq<Item>
    requires blockSize > 0
  {
    BlockItems(file, blockSize, offset, sha)
    + if Mod(|file|, blockSize) == 0 then [ItemOf([], offset + |file|, sha)] else []
  }

  lemma ShortBlockItems(block: Bytes, blockSize: nat, offset: nat, sha: Sha)
    requires |block| < blockSize
    ensures ItemsWithTail(block, blockSize, offset, sha) == [ItemOf(block, offset, sha)]
  {
    if block != [] {
      assert block[..|block|] == block && block[|block|..] == [];
      assert BlockItems(block, blockSize, offset, sha)
          == [ItemOf(block, offset, sha)] + BlockItems([], blockSize, offset + |block|, sha);
    }
  }

  lemma FullBlockItems(block: Bytes, rest: Bytes, blockSize: nat, offset: nat, sha: Sha)
    requires |block| == blockSize > 0
    ensures ItemsWithTail(block + rest, blockSize, offset, sha)
         == [ItemOf(block, offset, sha)] + ItemsWithTail(rest, blockSize, offset + blockSize, sha)
  {
    var file := block + rest;
    assert file[..blockSize] == block && file[blockSize..] == rest;
    assert Mod(|file|, blockSize) == Mod(|rest|, blockSize);
    Associative([ItemOf(block, offset, sha)], BlockItems(rest, blockSize, offset + blockSize, sha),
                if Mod(|rest|, blockSize) == 0 then [ItemOf([], offset + |file|, sha)] else []);
  }

  lemma {:induction false} FullThenShortItems(blocks: seq<Bytes>, blockSize: nat, offset: nat, sha: Sha)
    requires blockSize > 0 && FullThenShort(blocks, blockSize)
    ensures Items(blocks, offset, sha) == ItemsWithTail(Flatten(blocks), blockSize, offset, sha)
    decreases |blocks|
  {
    hide ItemsWithTail;
    hide ItemOf;
    var block, rest := blocks[0], blocks[1..];
    if |blocks| == 1 {
      assert Flatten(blocks) == block + Flatten([]) == block;
      ShortBlockItems(block, blockSize, offset, sha);
    } else {
      assert forall k | 0 <= k < |rest| :: rest[k] == blocks[k + 1];
      FullThenShortItems(rest, blockSize, offset + blockSize, sha);
      FullBlockItems(block, Flatten(rest), blockSize, offset, sha);
    }
  }

  /** In every interleaving: the bytes hashed, queued and buffered are the bytes read so far, in order; and when
      the thread has stopped it has hashed them all, and its table and digest are those of the file read. */
  lemma EveryInterleaving(blockSize: nat, run: seq<Action>, sha: Sha)
    requires blockSize > 0 && Legal(Started(blockSize), run, sha)
    ensures var p := Exec(Started(blockSize), run, sha);
            && Flatten(p.hashedBlocks) + Flatten(Buffers(p.queue)) + p.newBuffer == Fed(run)
            && (p.done ==>
                  && Flatten(p.hashedBlocks) == Fed(run)
                  && p.digest == Some(sha(Fed(run)))
                  && p.table == ByProductTable(Fed(run), blockSize, sha))
  {
    RunKeepsInv(Started(blockSize), run, [], sha);
    assert [] + Fed(run) == Fed(run);
    var p := Exec(Started(blockSize), run, sha);
    SameBlockSize(Started(blockSize), run, sha);
    if p.done {
      DoneTable(p, Fed(run), sha);
    }
  }

  lemma DoneTable(p: Pipeline, fed: Bytes, sha: Sha)
    requires Inv(p, fed, sha) && p.done
    ensures Flatten(p.hashedBlocks) == fed
    ensures p.digest == Some(sha(fed))
    ensures p.table == ByProductTable(fed, p.blockSize, sha)
  {
    assert PushedBlocks(p) == p.hashedBlocks;
    assert Flatten(p.hashedBlocks) + [] + [] == Flatten(p.hashedBlocks);
    FullThenShortItems(p.hashedBlocks, p.blockSize, 0, sha);
  }

  lemma {:induction false} SameBlockSize(p: Pipeline, run: seq<Action>, sha: Sha)
    requires Legal(p, run, sha)
    ensures Exec(p, run, sha).blockSize == p.blockSize
    decreases |run|
  {
    if run != [] {
      SameBlockSize(Next(p, run[0], sha), run[1..], sha);
    }
  }
}
