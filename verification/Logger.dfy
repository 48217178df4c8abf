/** The double-buffered logger of lualib-src/lua-log.c: append and the worker share the
    state `inst` under a mutex, so each is a sequence of atomic steps. */
module Logger {
  import opened Hiding
  import opened LogBooks
  import opened LogBuffers
  import opened LogFilling
  import opened LogMachine

  ghost predicate Outside(b: Buffer?, F: set<object>) {
    b != null ==> b !in F && b.data !in F
  }

  ghost predicate Differ(x: Buffer?, y: Buffer?) {
    x != null && y != null ==> x != y && x.data != y.data
  }

  /** The lists and the three pointers own different objects, none of them `me`. */
  ghost predicate Separate(me: object, S: set<object>, B: set<object>, x: Buffer?, y: Buffer?, z: Buffer?) {
    && me !in S && me !in B && S !! B
    && Outside(x, S) && Outside(y, S) && Outside(z, S) && Outside(x, B) && Outside(y, B) && Outside(z, B)
    && Differ(x, y) && Differ(x, z) && Differ(y, z)
  }

  ghost predicate Owned(me: object, S: set<object>, B: set<object>, x: Buffer?, y: Buffer?, z: Buffer?) {
    forall n {:trigger Unfold((S, B), n)} :: Unfold((S, B), n) ==> Separate(me, S, B, x, y, z)
  }

  lemma OpenOwned(me: object, S: set<object>, B: set<object>, x: Buffer?, y: Buffer?, z: Buffer?)
    ensures Owned(me, S, B, x, y, z) <==> Separate(me, S, B, x, y, z)
  {
    assert Unfold((S, B), 0);
  }

  lemma NotMine(me: object, S: set<object>, B: set<object>, x: Buffer?, y: Buffer?, z: Buffer?)
    requires Owned(me, S, B, x, y, z)
    ensures me !in S && me !in B
  {
    OpenOwned(me, S, B, x, y, z);
  }

  /** The buffer `b` joins the shared list. */
  lemma OwnedAfterLink(me: object, S: set<object>, B: set<object>, b: Buffer, y: Buffer?, z: Buffer?)
    requires Owned(me, S, B, b, y, z) && me != b && me != b.data
    ensures Owned(me, S + Objs(b), B, null, y, z)
  {
    OpenOwned(me, S, B, b, y, z);
    OpenOwned(me, S + Objs(b), B, null, y, z);
  }

  /** The list from `head` to `tail`, behind which the current buffer is linked. */
  ghost predicate QueueAt(shared: seq<Buffer>, size: nat, curr: Buffer, head: Buffer?, tail: Buffer?, spare: Buffer?) {
    && |shared| == size + 1 && curr == shared[size]
    && (if size == 0 then head == null && tail == null else head == shared[0] && tail == shared[size - 1])
    && (spare == null ==> size > 0)
  }

  ghost predicate Queue(shared: seq<Buffer>, size: nat, curr: Buffer, head: Buffer?, tail: Buffer?, spare: Buffer?) {
    forall n {:trigger Unfold((shared, curr), n)} :: Unfold((shared, curr), n) ==> QueueAt(shared, size, curr, head, tail, spare)
  }

  lemma OpenQueue(shared: seq<Buffer>, size: nat, curr: Buffer, head: Buffer?, tail: Buffer?, spare: Buffer?)
    ensures Queue(shared, size, curr, head, tail, spare) <==> QueueAt(shared, size, curr, head, tail, spare)
  {
    assert Unfold((shared, curr), 0);
  }

  /** Where the worker is, and that recycling will find the buffers it needs. */
  ghost predicate WorkerAt(pc: Pc, w: nat, batch: seq<Buffer>, batchSize: nat, batchHead: Buffer?, new1: Buffer?,
    new2: Buffer?, node: Buffer?)
  {
    && |batch| == batchSize && w <= batchSize
    && (batchSize > 0 ==> batchHead == batch[0])
    && match pc {
         case Starting => new1 == null && new2 == null && batchSize == 0 && batchHead == null
         case Waiting => new1 != null && new2 != null && batchSize == 0 && batchHead == null
         case Noticing => new1 == null && batchSize > 25 && w == 0
         case Trimming => new1 == null && batchSize > 25 && w == 0
         case Writing => new1 == null && batchSize > 0 && (new2 == null ==> batchSize > 1)
           && node == if w < batchSize then batch[w] else null
         case Recycling => new1 == null && batchSize > 0 && (new2 == null ==> batchSize > 1) && w == batchSize
       }
  }

  ghost predicate Worker(pc: Pc, w: nat, batch: seq<Buffer>, batchSize: nat, batchHead: Buffer?, new1: Buffer?,
    new2: Buffer?, node: Buffer?)
  {
    forall n {:trigger Unfold((pc, w), n)} :: Unfold((pc, w), n) ==>
      WorkerAt(pc, w, batch, batchSize, batchHead, new1, new2, node)
  }

  lemma OpenWorker(pc: Pc, w: nat, batch: seq<Buffer>, batchSize: nat, batchHead: Buffer?, new1: Buffer?,
    new2: Buffer?, node: Buffer?)
    ensures Worker(pc, w, batch, batchSize, batchHead, new1, new2, node) <==>
      WorkerAt(pc, w, batch, batchSize, batchHead, new1, new2, node)
  {
    assert Unfold((pc, w), 0);
  }

  /** The pointers after the worker's critical section. */
  lemma AfterSwap(me: object, S: set<object>, B: set<object>, shared: seq<Buffer>, size: nat, curr: Buffer,
    head: Buffer?, tail: Buffer?, spare: Buffer?, new1: Buffer, new2: Buffer, w: nat, batch: seq<Buffer>, node: Buffer?)
    requires Owned(me, S, B, spare, new1, new2) && me != new1 && me != new1.data
    requires Queue(shared, size, curr, head, tail, spare)
    ensures var spare' := if spare == null then new2 else spare;
      var new2' := if spare == null then null else new2;
      var head' := if head == null then curr else head;
      && |shared| == size + 1
      && Owned(me, Objs(new1), S, spare', null, new2')
      && Queue([new1], 0, new1, null, null, spare')
      && Worker(if size + 1 > 25 then Noticing else Writing, 0, shared, size + 1, head', null, new2', head')
  {
    OpenOwned(me, S, B, spare, new1, new2);
    OpenQueue(shared, size, curr, head, tail, spare);
    var spare' := if spare == null then new2 else spare;
    var new2' := if spare == null then null else new2;
    var head' := if head == null then curr else head;
    OpenOwned(me, Objs(new1), S, spare', null, new2');
    OpenQueue([new1], 0, new1, null, null, spare');
    OpenWorker(if size + 1 > 25 then Noticing else Writing, 0, shared, size + 1, head', null, new2', head');
  }

  /** The batch the notice is about, which it leaves to be trimmed. */
  lemma LongBatch(w: nat, batch: seq<Buffer>, batchSize: nat, batchHead: Buffer?, new1: Buffer?, new2: Buffer?, node: Buffer?)
    requires Worker(Noticing, w, batch, batchSize, batchHead, new1, new2, node)
    ensures |batch| == batchSize > 25 && Dropping(batchSize) == batchSize - 2
    ensures Worker(Trimming, w, batch, batchSize, batchHead, new1, new2, node)
  {
    OpenWorker(Noticing, w, batch, batchSize, batchHead, new1, new2, node);
    OpenWorker(Trimming, w, batch, batchSize, batchHead, new1, new2, node);
  }

  class Logger {
    // inst
    var curr: Buffer
    var spare: Buffer?         // next_buffer
    var head: Buffer?
    var tail: Buffer?
    var size: nat
    var file: string
    // the worker's locals
    var new1: Buffer?
    var new2: Buffer?
    var batchHead: Buffer?
    var batchTail: Buffer?
    var batchSize: nat
    var node: Buffer?
    var pc: Pc
    // what they represent
    ghost var shared: Chain    // the list of full buffers, then the current one
    ghost var batch: Chain     // buffers_to_write
    ghost var w: nat           // buffers of the batch written
    ghost var books: Books

    ghost predicate Owners()
      reads this
    {
      Owned(this, shared.F, batch.F, spare, new1, new2)
    }

    ghost function Repr(): set<object>
      reads this
    {
      shared.F + batch.F + Objs(spare) + Objs(new1) + Objs(new2)
    }

    ghost predicate Heap()
      reads this, Repr()
    {
      Run(shared) && Run(batch) && IsBlank(spare) && IsBlank(new1) && IsBlank(new2)
    }

    ghost predicate SharedOk()
      reads this
    {
      Queue(shared.c, size, curr, head, tail, spare)
    }

    ghost predicate WorkerOk()
      reads this
    {
      Worker(pc, w, batch.c, batchSize, batchHead, new1, new2, node)
    }

    ghost predicate BooksOk()
      reads this
    {
      Sound(books, batch.rs, w, shared.rs) && Filed(file, books.written)
    }

    ghost predicate Valid()
      reads this, Repr()
    {
      Owners() && Heap() && SharedOk() && WorkerOk() && BooksOk()
    }

    lemma OpenAll()
      requires Owners() && SharedOk() && WorkerOk()
      ensures Separate(this, shared.F, batch.F, spare, new1, new2)
      ensures QueueAt(shared.c, size, curr, head, tail, spare)
      ensures WorkerAt(pc, w, batch.c, batchSize, batchHead, new1, new2, node)
    {
      OpenOwned(this, shared.F, batch.F, spare, new1, new2);
      OpenQueue(shared.c, size, curr, head, tail, spare);
      OpenWorker(pc, w, batch.c, batchSize, batchHead, new1, new2, node);
    }

    lemma CloseAll()
      requires Separate(this, shared.F, batch.F, spare, new1, new2)
      requires QueueAt(shared.c, size, curr, head, tail, spare)
      requires WorkerAt(pc, w, batch.c, batchSize, batchHead, new1, new2, node)
      ensures Owners() && SharedOk() && WorkerOk()
    {
      OpenOwned(this, shared.F, batch.F, spare, new1, new2);
      OpenQueue(shared.c, size, curr, head, tail, spare);
      OpenWorker(pc, w, batch.c, batchSize, batchHead, new1, new2, node);
    }

    /** linit. */
    constructor ()
      ensures Valid() && fresh(Repr())
      ensures books == Books([], [], [], [], []) && State() == INIT
    {
      var c := Calloc();
      var n := Calloc();
      curr, spare, head, tail, size, file := c, n, null, null, 0, "";
      new1, new2, batchHead, batchTail, batchSize, node, pc := null, null, null, null, 0, null, Starting;
      shared, batch, w := Single(c), NONE, 0;
      books := Books([], [], [], [], []);
      new;
      RunOfOne(c);
      RunOfNone();
      CloseAll();
      EmptyBooks();
      OpenFiled("", []);
      assert fresh(shared.F) && fresh(Objs(spare));
    }

    /** The start of worker_func. */
    method Start()
      requires Valid() && pc == Starting
      modifies this`new1, this`new2, this`pc
      ensures Valid() && fresh(Repr() - old(Repr()))
      ensures pc == Waiting && books == old(books)
    {
      OpenAll();
      var n1 := Calloc();
      var n2 := Calloc();
      new1, new2, pc := n1, n2, Waiting;
      CloseAll();
      assert Owners() && Heap() && BooksOk();
      assert fresh(Objs(new1)) && fresh(Objs(new2));
    }

    /** append: the current buffer becomes the tail of the list. */
    method Enqueue()
      requires Valid()
      modifies this`head, this`tail, this`size, shared.F
      ensures Owners() && Heap() && size == old(size) + 1 && |shared.c| == size
      ensures curr == shared.c[size - 1] == tail && head == shared.c[0]
    {
      OpenAll();
      InRun(shared, size);
      if head == null {
        assert tail == null;
        head := curr;
        tail := curr;
      } else {
        InRun(shared, size - 1);
        Relink(shared, tail, curr);
        tail := curr;
      }
      size := size + 1;
      assert tail.next == null;
    }

    /** The buffer that comes next: the spare one, or a new one when there is none. */
    method NextBuffer() returns (b: Buffer)
      requires Owners() && Heap()
      modifies this`spare
      ensures Heap() && spare == null && IsBlank(b)
      ensures Owned(this, shared.F, batch.F, b, new1, new2)
      ensures if old(spare) != null then b == old(spare) else fresh(b) && fresh(b.data)
    {
      if spare != null {
        b := spare;
        OpenBlank(null);
        spare := null;
      } else {
        OpenOwned(this, shared.F, batch.F, spare, new1, new2);
        b := Calloc();
        OpenOwned(this, shared.F, batch.F, b, new1, new2);
      }
    }

    /** The next buffer is linked behind the full one and becomes the current buffer. */
    method MakeCurrent(b: Buffer)
      requires Heap() && spare == null && |shared.c| == size > 0
      requires curr == shared.c[size - 1] == tail && head == shared.c[0]
      requires WorkerOk() && Filed(file, books.written) && Sound(books, batch.rs, w, shared.rs + [[]])
      requires IsBlank(b) && Owned(this, shared.F, batch.F, b, new1, new2)
      modifies this`curr, this`shared, curr`next
      ensures Valid() && curr == b
      ensures shared.F == old(shared.F) + Objs(b) && shared.rs == old(shared.rs) + [[]]
    {
      InRun(shared, size - 1);
      OwnedAfterLink(this, shared.F, batch.F, b, new1, new2);
      OpenOwned(this, shared.F, batch.F, b, new1, new2);
      Link(shared, curr, b);
      curr := b;
      shared := Longer(shared, b);
      OpenQueue(shared.c, size, curr, head, tail, spare);
    }

    /** append when the current buffer is full: it is queued and the spare buffer, or a
        new one, becomes the current buffer. */
    method Rotate()
      requires Valid()
      modifies this`head, this`tail, this`size, this`curr, this`spare, this`shared, shared.F
      ensures Valid() && fresh(Repr() - old(Repr())) && curr.size == 0
      ensures curr == old(spare) || (fresh(curr) && fresh(curr.data))
      ensures tail == old(curr) && size == old(size) + 1 && shared.rs == old(shared.rs) + [[]]
      ensures books == old(books)
    {
      EmptyBufferBalanced(books, batch.rs, w, shared.rs);
      OpenOwned(this, shared.F, batch.F, spare, new1, new2);
      Enqueue();
      InRun(shared, size - 1);
      var b := NextBuffer();
      MakeCurrent(b);
      OpenBlank(b);
    }

    /** The memcpy of append, when the line fits. */
    method Memcpy(line: Record)
      requires Valid() && curr.size + |line| <= BUFFER_SIZE
      modifies curr`size, curr.data, this`shared, this`books
      ensures Valid() && books == Appended(old(books), line) && Repr() == old(Repr())
      ensures old(shared.rs) != [] && shared.rs == WithRecord(old(shared.rs), line)
    {
      OpenAll();
      InRun(shared, size);
      AppendedBalanced(books, batch.rs, w, shared.rs, line);
      PutLast(shared, curr, line);
      shared := Plus(shared, line);
      books := Appended(books, line);
      OpenQueue(shared.c, size, curr, head, tail, spare);
    }

    /** append. */
    method Append(line: Record)
      requires Valid() && |line| <= BUFFER_SIZE
      modifies this`head, this`tail, this`size, this`curr, this`spare, this`shared, this`books, shared.F, Objs(spare)
      ensures Valid() && fresh(Repr() - old(Repr()))
      ensures books == Appended(old(books), line)
      ensures old(shared.rs) != [] && shared.rs == Push(old(shared.rs), line)
      ensures Grows(old(shared.rs), shared.rs, line)
    {
      OpenAll();
      InRun(shared, size);
      LastUsed(shared, curr);
      PushGrows(shared.rs, line);
      if curr.size + |line| >= BUFFER_SIZE {
        Rotate();
      }
      Memcpy(line);
    }

    /** The assignments of the worker's critical section, in order. */
    method SwapPointers()
      requires new1 != null
      modifies this`head, this`tail, this`size, this`curr, this`spare, this`new1, this`new2
      modifies this`batchHead, this`batchTail, this`batchSize, this`node, this`pc
      ensures batchHead == (if old(head) == null then old(curr) else old(head))
      ensures batchTail == old(curr) && batchSize == old(size) + 1
      ensures head == null && tail == null && size == 0 && curr == old(new1) && new1 == null
      ensures spare == (if old(spare) == null then old(new2) else old(spare))
      ensures new2 == (if old(spare) == null then null else old(new2))
      ensures node == batchHead && pc == if batchSize > 25 then Noticing else Writing
    {
      if head == null {
        head := curr;
      }
      tail := curr;
      size := size + 1;
      curr := new1;
      new1 := null;
      batchHead, batchTail, batchSize := head, tail, size;
      head, tail, size := null, null, 0;
      if spare == null {
        spare := new2;
        new2 := null;
      }
      assert batchSize > 0;
      node := batchHead;
      pc := if batchSize > 25 then Noticing else Writing;
    }

    /** What the pointers represent before and after these assignments. */
    method SwapLists()
      requires Owners() && SharedOk() && WorkerOk() && pc == Waiting && |shared.c| == |shared.rs|
      modifies this`head, this`tail, this`size, this`curr, this`spare, this`new1, this`new2
      modifies this`batchHead, this`batchTail, this`batchSize, this`node, this`pc, this`shared, this`batch, this`w
      ensures Owners() && SharedOk() && WorkerOk()
      ensures batch == old(shared) && w == 0 && pc == if |batch.rs| > 25 then Noticing else Writing
      ensures old(new1) != null && shared == Single(old(new1)) && new1 == null
      ensures spare == (if old(spare) == null then old(new2) else old(spare)) && (new2 == null || new2 == old(new2))
    {
      OpenWorker(pc, w, batch.c, batchSize, batchHead, new1, new2, node);
      NotMine(this, shared.F, batch.F, spare, new1, new2);
      AfterSwap(this, shared.F, batch.F, shared.c, size, curr, head, tail, spare, new1, new2, w, batch.c, node);
      SwapPointers();
      batch, shared, w := shared, Single(curr), 0;
    }

    /** The critical section of the worker: the current buffer joins the list, and the
        list becomes the batch. */
    method Swap()
      requires Valid() && pc == Waiting
      modifies this
      ensures Valid() && Repr() <= old(Repr())
      ensures books == old(books)
      ensures batch == old(shared) && shared.rs == [[]] && w == 0 && pc == if |batch.rs| > 25 then Noticing else Writing
    {
      RunLength(shared);
      OpenWorker(pc, w, batch.c, batchSize, batchHead, new1, new2, node);
      RunLength(batch);
      SwapBalanced(books, shared.rs);
      RunOfOne(new1);
      NotMine(this, shared.F, batch.F, spare, new1, new2);
      SwapLists();
    }

    /** The assertions at the head of the worker's loop. */
    lemma IdleAssertions()
      requires Valid() && pc == Waiting
      ensures batchHead == null && new1 != null && new1.size == 0 && new2 != null && new2.size == 0
    {
      OpenAll();
      OpenBlank(new1);
      OpenBlank(new2);
    }

    /** The notice of a batch that is too long, appended like any record. */
    method SayDropped(time: string)
      requires Valid() && pc == Noticing
      modifies this`head, this`tail, this`size, this`curr, this`spare, this`shared, this`books, this`pc
      modifies shared.F, Objs(spare)
      ensures Valid() && fresh(Repr() - old(Repr()))
      ensures |batch.rs| > 25 && books == Appended(old(books), Notice(time, Dropping(|batch.rs|))) && pc == Trimming
      ensures old(shared.rs) != [] && shared.rs == Push(old(shared.rs), Notice(time, Dropping(|batch.rs|)))
    {
      RunLength(batch);
      LongBatch(w, batch.c, batchSize, batchHead, new1, new2, node);
      Tell(Notice(time, batchSize - 2));
    }

    method Tell(line: Record)
      requires Valid() && pc == Noticing && |line| <= BUFFER_SIZE
      modifies this`head, this`tail, this`size, this`curr, this`spare, this`shared, this`books, this`pc
      modifies shared.F, Objs(spare)
      ensures Valid() && fresh(Repr() - old(Repr()))
      ensures batch == old(batch) && books == Appended(old(books), line) && pc == Trimming
      ensures old(shared.rs) != [] && shared.rs == Push(old(shared.rs), line)
    {
      LongBatch(w, batch.c, batchSize, batchHead, new1, new2, node);
      NotMine(this, shared.F, batch.F, spare, new1, new2);
      pc := Trimming;
      Append(line);
    }

    /** The statements that drop all but the first two buffers of the batch. */
    method DropRest()
      requires Run(batch) && this !in batch.F && |batch.c| == |batch.rs| >= 2 && batchHead == batch.c[0]
      modifies this`batchTail, this`batchSize, this`node, this`pc, this`batch, batch.F
      ensures batch == FirstTwo(old(batch)) && Run(batch)
      ensures batchTail == batch.c[1] && batchSize == 2 && node == batchHead && pc == Writing
    {
      InRun(batch, 0);
      InRun(batch, 1);
      var newTail := batchHead.next;
      FreeFrom(batch, newTail.next, 2);
      batchTail := newTail;
      CutToTwo(batch, newTail);
      batch := FirstTwo(batch);
      batchSize := 2;
      node := batchHead;
      pc := Writing;
    }

    /** A batch of more than 25 buffers loses exactly the records of all but the first two. */
    method Trim()
      requires Valid() && pc == Trimming
      modifies this`batchTail, this`batchSize, this`node, this`pc, this`batch, this`books, batch.F
      ensures Valid() && Repr() == old(Repr())
      ensures |old(batch.rs)| > 25 && pc == Writing && batch.rs == FirstTwoOf(old(batch.rs))
      ensures books.appended == old(books).appended && books.written == old(books).written
      ensures books.lost == old(books).lost + Flatten(old(batch.rs)[2..])
    {
      OpenOwned(this, shared.F, batch.F, spare, new1, new2);
      OpenWorker(pc, w, batch.c, batchSize, batchHead, new1, new2, node);
      RunLength(batch);
      ghost var t := TrimBalanced(books, batch.rs, shared.rs);
      DropRest();
      books := t;
      OpenWorker(pc, w, batch.c, batchSize, batchHead, new1, new2, node);
    }

    /** The fwrite of a buffer, and the step to the next one. */
    method Fwrite(ghost written: seq<Record>)
      requires Run(batch) && w < |batch.c| && node == batch.c[w] && Filed(file, written)
      modifies this`file, this`node
      ensures w < |batch.rs| && file == old(file) + Flatten(batch.rs[w]) && Filed(file, written + batch.rs[w])
      ensures node == NextIn(batch.c, w)
    {
      InRun(batch, w);
      RunHolds(batch, w);
      FiledMore(file, written, batch.rs[w]);
      file := file + node.data[..node.size];
      node := node.next;
    }

    method WriteOne()
      requires Valid() && pc == Writing && node != null
      modifies this`file, this`node, this`w, this`books
      ensures Valid() && old(w) < |batch.rs| && w == old(w) + 1
      ensures books == Written(old(books), batch.rs[old(w)]) && file == old(file) + Flatten(batch.rs[old(w)])
    {
      NotMine(this, shared.F, batch.F, spare, new1, new2);
      OpenWorker(pc, w, batch.c, batchSize, batchHead, new1, new2, node);
      RunLength(batch);
      WrittenBalanced(books, batch.rs, w, shared.rs);
      Fwrite(books.written);
      books := Written(books, batch.rs[w]);
      w := w + 1;
      OpenWorker(pc, w, batch.c, batchSize, batchHead, new1, new2, node);
      assert Owners() && Heap() && SharedOk() && BooksOk();
    }

    /** One round of the loop that writes the batch, or its end. */
    method WriteNext()
      requires Valid() && pc == Writing
      modifies this`file, this`node, this`pc, this`w, this`books
      ensures Valid()
      ensures if old(w) < |batch.rs|
        then pc == Writing && w == old(w) + 1 && books == Written(old(books), batch.rs[old(w)])
          && file == old(file) + Flatten(batch.rs[old(w)])
        else pc == Recycling && w == old(w) && books == old(books) && file == old(file)
    {
      OpenWorker(pc, w, batch.c, batchSize, batchHead, new1, new2, node);
      RunLength(batch);
      if node != null {
        WriteOne();
      } else {
        NotMine(this, shared.F, batch.F, spare, new1, new2);
        pc := Recycling;
        OpenWorker(pc, w, batch.c, batchSize, batchHead, new1, new2, node);
      }
    }

    /** The first buffer of the batch, cleared for the next round. */
    method TakeBuffer() returns (b: Buffer)
      requires Run(batch) && this !in batch.F && |batch.c| == batchSize > 0 && batchHead == batch.c[0]
      modifies this`batchHead, this`batchSize, this`batch, batch.F
      ensures IsBlank(b) && Run(batch) && |batch.c| == batchSize == old(batchSize) - 1
      ensures Objs(b) <= old(batch.F) && batch.F == old(batch.F) - Objs(b)
      ensures batchHead == if batchSize > 0 then batch.c[0] else null
    {
      RunLength(batch);
      InRun(batch, 0);
      b := batchHead;
      batchHead := TakeFirst(batch, b);
      batchSize := batchSize - 1;
      batch := Rest(batch);
    }

    /** The end of a round: two buffers of the batch stay for the next one. */
    method RecycleBuffers()
      requires Run(batch) && this !in batch.F && batchSize > 0 && (new2 == null ==> batchSize > 1)
      requires |batch.c| == batchSize && batchHead == batch.c[0] && new1 == null
      modifies this`new1, this`new2, this`batchHead, this`batchTail, this`batchSize, this`batch, this`w, this`pc, batch.F
      ensures new1 != null && IsBlank(new1) && new1 in old(batch.F) && new1.data in old(batch.F)
      ensures new2 != null && (old(new2) != null ==> new2 == old(new2))
      ensures old(new2) == null ==> IsBlank(new2) && new2 in old(batch.F) && new2.data in old(batch.F) && Differ(new1, new2)
      ensures batchHead == null && batchTail == null && batchSize == 0 && batch == NONE && w == 0 && pc == Waiting
    {
      if new1 == null {
        assert batchSize > 0;
        new1 := TakeBuffer();
      }
      if new2 == null {
        assert batchSize > 0;
        new2 := TakeBuffer();
      }
      FreeFrom(batch, batchHead, 0);
      batchHead, batchTail, batchSize := null, null, 0;
      batch, w, pc := NONE, 0, Waiting;
    }

    method Recycle()
      requires Valid() && pc == Recycling
      modifies this`new1, this`new2, this`batchHead, this`batchTail, this`batchSize, this`batch, this`w, this`pc, batch.F
      ensures Valid() && Repr() <= old(Repr())
      ensures books == old(books) && pc == Waiting && batch == NONE && w == 0
    {
      OpenOwned(this, shared.F, batch.F, spare, new1, new2);
      OpenWorker(pc, w, batch.c, batchSize, batchHead, new1, new2, node);
      RunLength(batch);
      BatchDone(books, batch.rs, shared.rs);
      RecycleBuffers();
      RunOfNone();
      OpenOwned(this, shared.F, batch.F, spare, new1, new2);
      OpenWorker(pc, w, batch.c, batchSize, batchHead, new1, new2, node);
    }

    /** The state the machine is in. */
    ghost function State(): Machine
      reads this
    {
      Machine(shared.rs, batch.rs, w, pc)
    }

    /** The steps under the mutex. */
    method WorkOnShared(time: string)
      requires Valid() && Running(State()) && (pc == Waiting || pc == Noticing)
      modifies this, Repr()
      ensures Valid() && fresh(Repr() - old(Repr()))
      ensures State() == Next(old(State()), Consumer(time))
      ensures books.appended == old(books.appended) + Says(old(State()), Consumer(time))
      ensures books.lost == old(books.lost) + Loses(old(State()), Consumer(time))
      ensures books.written == old(books.written) + Writes(old(State()), Consumer(time))
    {
      NotMine(this, shared.F, batch.F, spare, new1, new2);
      if pc == Waiting {
        Swap();
      } else {
        SayDropped(time);
      }
    }

    /** The steps outside the mutex. */
    method WorkOnBatch(ghost time: string)
      requires Valid() && Running(State()) && (pc == Trimming || pc == Writing || pc == Recycling)
      modifies this, batch.F
      ensures Valid() && Repr() <= old(Repr())
      ensures State() == Next(old(State()), Consumer(time))
      ensures books.appended == old(books.appended)
      ensures books.lost == old(books.lost) + Loses(old(State()), Consumer(time))
      ensures books.written == old(books.written) + Writes(old(State()), Consumer(time))
    {
      NotMine(this, shared.F, batch.F, spare, new1, new2);
      if pc == Trimming {
        Trim();
      } else if pc == Writing {
        WriteNext();
      } else {
        Recycle();
      }
    }

    /** The next step of the worker; `time` is the time stamp of a notice. */
    method Work(time: string)
      requires Valid() && Running(State())
      modifies this, Repr()
      ensures Valid() && fresh(Repr() - old(Repr()))
      ensures State() == Next(old(State()), Consumer(time))
      ensures books.appended == old(books.appended) + Says(old(State()), Consumer(time))
      ensures books.lost == old(books.lost) + Loses(old(State()), Consumer(time))
      ensures books.written == old(books.written) + Writes(old(State()), Consumer(time))
    {
      if pc == Starting {
        Start();
      } else if pc == Waiting || pc == Noticing {
        WorkOnShared(time);
      } else {
        WorkOnBatch(time);
      }
    }

    /** One step of a schedule does what the machine does. */
    method Do(s: Step)
      requires Valid() && Running(State()) && (s.Producer? ==> |s.line| <= BUFFER_SIZE)
      modifies this, Repr()
      ensures Valid() && fresh(Repr() - old(Repr()))
      ensures State() == Next(old(State()), s)
      ensures books.appended == old(books.appended) + Says(old(State()), s)
      ensures books.lost == old(books.lost) + Loses(old(State()), s)
      ensures books.written == old(books.written) + Writes(old(State()), s)
    {
      NotMine(this, shared.F, batch.F, spare, new1, new2);
      match s
      case Producer(line) => Append(line);
      case Consumer(time) => Work(time);
    }

    /** What the logger holds and has written, in bytes: the file, the buffers of the
        batch still to be written, and the shared buffers make up the kept records. */
    lemma Conservation()
      requires Valid()
      ensures w <= |batch.rs| == |batch.c| && |shared.rs| == |shared.c|
      ensures file + Bytes(batch.rs[w..]) + Bytes(shared.rs) == Flatten(books.kept)
      ensures forall i :: w <= i < |batch.c| ==> batch.c[i].Holds(batch.rs[i])
      ensures forall i :: 0 <= i < |shared.c| ==> shared.c[i].Holds(shared.rs[i])
      ensures InOrder(books) && (books.lost == [] ==> books.kept == books.appended)
    {
      OpenBooks(books, batch.rs, w, shared.rs);
      OpenRun(batch);
      OpenRun(shared);
      NothingMissing(books, batch.rs, w, shared.rs, file);
    }
  }

  /** The logger is where the machine is after these steps. */
  ghost predicate Follows(log: Logger, steps: seq<Step>)
    reads log, log.Repr()
  {
    && log.Valid() && log.State() == After(steps)
    && log.books.appended == AllAppended(steps) && log.books.lost == AllLost(steps)
    && log.books.written == AllWritten(steps)
  }

  method RunStep(log: Logger, steps: seq<Step>)
    requires steps != [] && Follows(log, steps[..|steps| - 1])
    requires var s := steps[|steps| - 1]; s.Producer? ==> |s.line| <= BUFFER_SIZE
    modifies log, log.Repr()
    ensures Follows(log, steps) && fresh(log.Repr() - old(log.Repr()))
  {
    log.Do(steps[|steps| - 1]);
  }

  method RunSteps(steps: seq<Step>) returns (log: Logger)
    requires forall s :: s in steps && s.Producer? ==> |s.line| <= BUFFER_SIZE
    ensures Follows(log, steps) && fresh(log) && fresh(log.Repr())
  {
    if steps == [] {
      log := new Logger();
      return;
    }
    log := RunSteps(steps[..|steps| - 1]);
    RunStep(log, steps);
  }

  /** Any run of the logger, in any interleaving of producers and worker: what is in the
      buffers, and what has been appended, dropped and written, is what the machine says.
      What is lost is the records of the buffers 3 to n of the batches of n > 25 buffers,
      and without such a batch, as when the producers append fewer than 52 MB between two
      swaps, the appended records are the producers' lines. */
  method RunSchedule(steps: seq<Step>) returns (log: Logger)
    requires forall s :: s in steps && s.Producer? ==> |s.line| <= BUFFER_SIZE
    ensures log.Valid() && log.State() == After(steps)
    ensures log.books.appended == AllAppended(steps) && log.file == Flatten(AllWritten(steps))
    ensures log.books.lost == Tails(Settled(After(steps), Batches(steps)))
    ensures ShortBatches(steps) ==> log.books.appended == Lines(steps) && log.books.lost == []
    ensures Unhurried(steps) ==> ShortBatches(steps)
    ensures Packed(log.shared.rs) && forall b :: b in Batches(steps) ==> Packed(b)
  {
    log := RunSteps(steps);
    if ShortBatches(steps) { ShortBatchesLoseNothing(steps); }
    if Unhurried(steps) { UnhurriedIsShort(steps); }
    BuffersArePacked(steps);
    LostIsTails(steps);
    OpenFiled(log.file, log.books.written);
  }
}
