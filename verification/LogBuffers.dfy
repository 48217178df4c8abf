/** The buffers of lualib-src/lua-log.c and the lists they form. */
module LogBuffers {
  import opened Hiding
  import opened LogBooks

  const BUFFER_SIZE: nat := 4 * 1024 * 1024

  class Buffer {
    var next: Buffer?
    const data: array<char>
    var size: nat

    /** calloc. */
    constructor ()
      ensures next == null && Holds([]) && fresh(data)
    {
      next, size := null, 0;
      data := new char[BUFFER_SIZE](i => 0 as char);
    }

    /** The bytes in use are those of the records `rs`. */
    ghost predicate Holds(rs: seq<Record>)
      reads this, data
    {
      size <= data.Length == BUFFER_SIZE && data[..size] == Flatten(rs)
    }

    ghost predicate Blank()
      reads this, data
    {
      next == null && Holds([])
    }

    /** The memcpy of append. */
    method Put(line: Record, ghost rs: seq<Record>)
      requires Holds(rs) && size + |line| <= BUFFER_SIZE
      modifies this`size, data
      ensures Holds(rs + [line])
    {
      ghost var was := data[..size];
      assert (rs + [line])[..|rs|] == rs;
      for i := 0 to |line|
        invariant size == old(size) && data[..size] == was && data[size..size + i] == line[..i]
      {
        data[size + i] := line[i];
      }
      assert data[..size + |line|] == was + line;
      size := size + |line|;
    }

    /** The memset of the worker. */
    method Clear()
      requires data.Length == BUFFER_SIZE
      modifies this, data
      ensures Blank()
    {
      forall i | 0 <= i < data.Length { data[i] := 0 as char; }
      next, size := null, 0;
    }
  }

  // ----- lists -----

  /** What a buffer pointer owns. */
  ghost function Objs(b: Buffer?): set<object> {
    if b == null then {} else {b, b.data}
  }

  /** A list of buffers, the records each holds, and the objects they own. */
  datatype Chain = Chain(c: seq<Buffer>, rs: seq<seq<Record>>, F: set<object>)

  /** The buffers form a list whose last `next` is NULL, and own different objects. */
  ghost predicate Linked(l: Chain)
    reads l.F
  {
    && |l.c| == |l.rs| && Apart(l.c)
    && (forall i {:trigger l.c[i]} :: 0 <= i < |l.c| ==> l.c[i] in l.F && l.c[i].data in l.F && l.c[i].Holds(l.rs[i]))
    && (forall i {:trigger l.c[i].next} :: 0 <= i < |l.c| ==> l.c[i].next == NextIn(l.c, i))
  }

  function NextIn(c: seq<Buffer>, i: nat): Buffer? {
    if i + 1 < |c| then c[i + 1] else null
  }

  ghost predicate Apart(c: seq<Buffer>) {
    forall i, j {:trigger c[i], c[j]} :: 0 <= i < j < |c| ==> c[i] != c[j] && c[i].data != c[j].data
  }

  ghost predicate Run(l: Chain)
    reads l.F
  {
    forall x {:trigger Unfold(l, x)} :: Unfold(l, x) ==> Linked(l)
  }

  lemma OpenRun(l: Chain)
    ensures Run(l) <==> Linked(l)
  {
    assert Unfold(l, 0);
  }

  ghost predicate IsBlank(b: Buffer?)
    reads Objs(b)
  {
    forall x {:trigger Unfold(b, x)} :: Unfold(b, x) ==> b != null ==> b.Blank()
  }

  lemma OpenBlank(b: Buffer?)
    ensures IsBlank(b) <==> b != null ==> b.Blank()
  {
    assert Unfold(b, 0);
  }

  method Calloc() returns (b: Buffer)
    ensures fresh(b) && fresh(b.data) && IsBlank(b)
  {
    b := new Buffer();
    OpenBlank(b);
  }

  /** A buffer of a list and its successor. */
  lemma InRun(l: Chain, i: nat)
    requires Run(l) && i < |l.c|
    ensures |l.rs| == |l.c| && l.c[i] in l.F && l.c[i].data in l.F && l.c[i].next == NextIn(l.c, i)
  {
    OpenRun(l);
    assert l.c[i].next == NextIn(l.c, i);
  }

  lemma RunHolds(l: Chain, i: nat)
    requires Run(l) && i < |l.c|
    ensures |l.rs| == |l.c| && l.c[i].Holds(l.rs[i])
  {
    OpenRun(l);
  }

  lemma RunLength(l: Chain)
    requires Run(l)
    ensures |l.rs| == |l.c|
  {
    OpenRun(l);
  }

  /** The current buffer uses as many bytes as its records have. */
  lemma LastUsed(l: Chain, b: Buffer)
    requires Run(l) && l.c != [] && b == l.c[|l.c| - 1]
    ensures |l.rs| == |l.c| && b.size == |Flatten(l.rs[|l.c| - 1])|
  {
    RunHolds(l, |l.c| - 1);
  }

  /** The loop that frees the buffers from `p` on. */
  method FreeFrom(ghost l: Chain, p: Buffer?, ghost k: nat)
    requires Run(l) && k <= |l.c| && p == if k < |l.c| then l.c[k] else null
  {
    var node := p;
    ghost var j := k;
    while node != null
      invariant j <= |l.c| && node == if j < |l.c| then l.c[j] else null
      decreases |l.c| - j
    {
      InRun(l, j);
      node := node.next;
      j := j + 1;
    }
  }

  // ----- what happens to lists -----

  ghost function Plus(l: Chain, line: Record): Chain
    requires l.rs != []
  {
    l.(rs := WithRecord(l.rs, line))
  }

  ghost function Longer(l: Chain, b: Buffer): Chain {
    Chain(l.c + [b], l.rs + [[]], l.F + Objs(b))
  }

  ghost function Single(b: Buffer): Chain {
    Chain([b], [[]], Objs(b))
  }

  const NONE := Chain([], [], {})

  /** The memcpy into the last buffer of a list. */
  method PutLast(ghost l: Chain, b: Buffer, line: Record)
    requires Run(l) && |l.c| == |l.rs| > 0 && b == l.c[|l.c| - 1] && b.size + |line| <= BUFFER_SIZE
    modifies b`size, b.data
    ensures Run(Plus(l, line))
  {
    OpenRun(l);
    b.Put(line, l.rs[|l.c| - 1]);
    OpenRun(Plus(l, line));
  }

  /** The `next` of the tail is already the current buffer: writing it changes nothing. */
  method Relink(ghost l: Chain, tail: Buffer, curr: Buffer)
    requires Run(l) && |l.c| >= 2 && tail == l.c[|l.c| - 2] && curr == l.c[|l.c| - 1]
    modifies tail`next
    ensures tail.next == old(tail.next) && Run(l)
  {
    OpenRun(l);
    tail.next := curr;
    OpenRun(l);
  }

  /** A new last buffer. */
  method Link(ghost l: Chain, last: Buffer, b: Buffer)
    requires Run(l) && l.c != [] && last == l.c[|l.c| - 1]
    requires IsBlank(b) && l.F !! Objs(b)
    modifies last`next
    ensures Run(Longer(l, b))
  {
    OpenRun(l);
    OpenBlank(b);
    last.next := b;
    assert forall i :: 0 <= i < |l.c| ==> (l.c + [b])[i] == l.c[i];
    OpenRun(Longer(l, b));
  }

  ghost function FirstTwo(l: Chain): Chain
    requires |l.c| == |l.rs| >= 2
  {
    Chain(l.c[..2], l.rs[..2], l.F)
  }

  /** Only the first two buffers stay. */
  method CutToTwo(ghost l: Chain, second: Buffer)
    requires Run(l) && |l.rs| == |l.c| >= 2 && second == l.c[1]
    modifies second`next
    ensures Run(FirstTwo(l))
  {
    OpenRun(l);
    second.next := null;
    OpenRun(FirstTwo(l));
  }

  ghost function Rest(l: Chain): Chain
    requires |l.c| == |l.rs| > 0
  {
    Chain(l.c[1..], l.rs[1..], l.F - Objs(l.c[0]))
  }

  /** The memset of the first buffer of a list, which leaves the list. */
  method TakeFirst(ghost l: Chain, first: Buffer) returns (rest: Buffer?)
    requires Run(l) && |l.rs| == |l.c| > 0 && first == l.c[0]
    modifies first, first.data
    ensures rest == (if |l.c| > 1 then l.c[1] else null) && Run(Rest(l)) && IsBlank(first)
  {
    OpenRun(l);
    rest := first.next;
    first.Clear();
    OpenRun(Rest(l));
    OpenBlank(first);
  }

  lemma RunOfOne(b: Buffer)
    requires IsBlank(b)
    ensures Run(Single(b))
  {
    OpenBlank(b);
    OpenRun(Single(b));
  }

  lemma RunOfNone()
    ensures Run(NONE) && IsBlank(null)
  {
    OpenRun(NONE);
    OpenBlank(null);
  }
}
