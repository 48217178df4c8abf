/** The logger of lualib-src/lua-log.c as a machine over records: which buffer holds what,
    where the worker is, and what a schedule appends, drops and writes. */
module LogMachine {
  import opened LogBooks
  import opened LogBuffers

  /** Where the worker is. */
  datatype Pc = Starting | Waiting | Noticing | Trimming | Writing | Recycling

  /** The records of the shared buffers, the last of which is the current one, and those
      of the batch, `w` buffers of which are written. */
  datatype Machine = Machine(shared: seq<seq<Record>>, batch: seq<seq<Record>>, w: nat, pc: Pc)

  const INIT := Machine([[]], [], 0, Starting)

  /** A schedule: producers append lines, and the worker goes on, in any order. */
  datatype Step = Producer(line: Record) | Consumer(time: string)

  /** The bytes in use in the current buffer. */
  function Used(shared: seq<seq<Record>>): nat
    requires shared != []
  {
    |Flatten(shared[|shared| - 1])|
  }

  /** append: the next buffer is taken when the line would fill the current one. */
  function Push(shared: seq<seq<Record>>, line: Record): (s: seq<seq<Record>>)
    requires shared != []
    ensures s != []
  {
    WithRecord(if Used(shared) + |line| < BUFFER_SIZE then shared else shared + [[]], line)
  }

  /** The number in the notice. */
  function Dropping(batchSize: nat): nat {
    if batchSize > 2 then batchSize - 2 else 0
  }

  function FirstTwoOf(batch: seq<seq<Record>>): seq<seq<Record>> {
    if |batch| > 2 then batch[..2] else batch
  }

  predicate Running(m: Machine) {
    m.shared != [] && (m.pc == Noticing || m.pc == Trimming ==> |m.batch| > 25 && m.w == 0)
  }

  function Next(m: Machine, s: Step): (n: Machine)
    requires Running(m)
    ensures Running(n)
  {
    match s
    case Producer(line) => m.(shared := Push(m.shared, line))
    case Consumer(time) =>
      match m.pc
      case Starting => m.(pc := Waiting)
      case Waiting => Machine([[]], m.shared, 0, if |m.shared| > 25 then Noticing else Writing)
      case Noticing => m.(shared := Push(m.shared, Notice(time, Dropping(|m.batch|))), pc := Trimming)
      case Trimming => m.(batch := FirstTwoOf(m.batch), pc := Writing)
      case Writing => if m.w < |m.batch| then m.(w := m.w + 1) else m.(pc := Recycling)
      case Recycling => m.(batch := [], w := 0, pc := Waiting)
  }

  // ----- what a step appends, drops and writes -----

  function Says(m: Machine, s: Step): seq<Record> {
    match s
    case Producer(line) => [line]
    case Consumer(time) => if m.pc == Noticing then [Notice(time, Dropping(|m.batch|))] else []
  }

  /** The records of a batch behind its first two buffers. */
  function Tail(batch: seq<seq<Record>>): seq<Record> {
    if |batch| > 25 then Flatten(batch[2..]) else []
  }

  function Loses(m: Machine, s: Step): seq<Record> {
    if s.Consumer? && m.pc == Trimming then Tail(m.batch) else []
  }

  function Writes(m: Machine, s: Step): seq<Record> {
    if s.Consumer? && m.pc == Writing && m.w < |m.batch| then m.batch[m.w] else []
  }

  function Takes(m: Machine, s: Step): seq<seq<seq<Record>>> {
    if s.Consumer? && m.pc == Waiting then [m.shared] else []
  }

  function LineOf(s: Step): seq<Record> {
    if s.Producer? then [s.line] else []
  }

  // ----- schedules -----

  function After(steps: seq<Step>): (m: Machine)
    ensures Running(m)
  {
    if steps == [] then INIT else Next(After(steps[..|steps| - 1]), steps[|steps| - 1])
  }

  function AllAppended(steps: seq<Step>): seq<Record> {
    if steps == [] then []
    else AllAppended(steps[..|steps| - 1]) + Says(After(steps[..|steps| - 1]), steps[|steps| - 1])
  }

  function AllLost(steps: seq<Step>): seq<Record> {
    if steps == [] then []
    else AllLost(steps[..|steps| - 1]) + Loses(After(steps[..|steps| - 1]), steps[|steps| - 1])
  }

  function AllWritten(steps: seq<Step>): seq<Record> {
    if steps == [] then []
    else AllWritten(steps[..|steps| - 1]) + Writes(After(steps[..|steps| - 1]), steps[|steps| - 1])
  }

  /** The batches the worker takes, one at each swap. */
  function Batches(steps: seq<Step>): seq<seq<seq<Record>>> {
    if steps == [] then []
    else Batches(steps[..|steps| - 1]) + Takes(After(steps[..|steps| - 1]), steps[|steps| - 1])
  }

  /** The lines of the producers. */
  function Lines(steps: seq<Step>): seq<Record> {
    if steps == [] then []
    else Lines(steps[..|steps| - 1]) + LineOf(steps[|steps| - 1])
  }

  ghost predicate ShortBatches(steps: seq<Step>) {
    forall b :: b in Batches(steps) ==> |b| <= 25
  }

  /** Between the swap of a long batch and its trim. */
  predicate Long(m: Machine) {
    m.pc == Noticing || m.pc == Trimming
  }

  lemma ShortStep(m: Machine, s: Step)
    requires Running(m) && !Long(m) && forall b :: b in Takes(m, s) ==> |b| <= 25
    ensures !Long(Next(m, s)) && Says(m, s) == LineOf(s) && Loses(m, s) == []
  {
    assert s.Consumer? && m.pc == Waiting ==> m.shared in Takes(m, s);
  }

  /** While no batch is longer than 25 buffers, the records appended are the producers'
      lines, and none is lost. */
  lemma {:induction false} ShortBatchesLoseNothing(steps: seq<Step>)
    requires ShortBatches(steps)
    ensures AllAppended(steps) == Lines(steps) && AllLost(steps) == []
    ensures !Long(After(steps))
  {
    if steps != [] {
      var front, s := steps[..|steps| - 1], steps[|steps| - 1];
      assert Batches(steps) == Batches(front) + Takes(After(front), s);
      assert forall b :: b in Batches(front) ==> b in Batches(steps);
      ShortBatchesLoseNothing(front);
      ShortStep(After(front), s);
    }
  }

  /** The records behind the first two buffers of every long batch. */
  function Tails(batches: seq<seq<seq<Record>>>): seq<Record> {
    if batches == [] then [] else Tails(batches[..|batches| - 1]) + Tail(batches[|batches| - 1])
  }

  /** The batches whose trim, if they need one, is over. */
  function Settled(m: Machine, bs: seq<seq<seq<Record>>>): seq<seq<seq<Record>>> {
    if Long(m) && bs != [] then bs[..|bs| - 1] else bs
  }

  ghost predicate TailsLost(m: Machine, bs: seq<seq<seq<Record>>>, lost: seq<Record>) {
    lost == Tails(Settled(m, bs)) && (Long(m) ==> bs != [] && bs[|bs| - 1] == m.batch)
  }

  lemma TailsMore(bs: seq<seq<seq<Record>>>, b: seq<seq<Record>>)
    ensures Tails(bs + [b]) == Tails(bs) + Tail(b)
  {
    assert (bs + [b])[..|bs|] == bs;
  }

  lemma TailsAfterSwap(m: Machine, bs: seq<seq<seq<Record>>>)
    ensures Tails(bs + [m.shared]) == Tails(bs) + Tail(m.shared)
    ensures (bs + [m.shared])[..|bs + [m.shared]| - 1] == bs
  {
    TailsMore(bs, m.shared);
  }

  lemma TailsAfterTrim(m: Machine, bs: seq<seq<seq<Record>>>)
    requires bs != [] && bs[|bs| - 1] == m.batch
    ensures Tails(bs) == Tails(bs[..|bs| - 1]) + Tail(m.batch)
  {
  }

  lemma TailsElse(m: Machine, s: Step, bs: seq<seq<seq<Record>>>, lost: seq<Record>)
    requires Running(m) && TailsLost(m, bs, lost) && !(s.Consumer? && (m.pc == Waiting || m.pc == Trimming))
    ensures TailsLost(Next(m, s), bs + Takes(m, s), lost + Loses(m, s))
  {
    assert bs + Takes(m, s) == bs && lost + Loses(m, s) == lost;
  }

  lemma TailsStep(m: Machine, s: Step, bs: seq<seq<seq<Record>>>, lost: seq<Record>)
    requires Running(m) && TailsLost(m, bs, lost)
    ensures TailsLost(Next(m, s), bs + Takes(m, s), lost + Loses(m, s))
  {
    if s.Consumer? && m.pc == Waiting {
      TailsAfterSwap(m, bs);
      assert lost + Loses(m, s) == lost;
    } else if s.Consumer? && m.pc == Trimming {
      TailsAfterTrim(m, bs);
      assert bs + Takes(m, s) == bs;
    } else {
      TailsElse(m, s, bs, lost);
    }
  }

  /** In any schedule, what is lost is exactly the records of the buffers 3 to n of the
      batches of n > 25 buffers, in order, as far as they have been trimmed. */
  lemma {:induction false} LostIsTails(steps: seq<Step>)
    ensures TailsLost(After(steps), Batches(steps), AllLost(steps))
  {
    if steps != [] {
      var front := steps[..|steps| - 1];
      LostIsTails(front);
      TailsStep(After(front), steps[|steps| - 1], Batches(front), AllLost(front));
    }
  }

  /** The notice of a long batch has the number of the buffers that the next step of the
      worker drops with all their records. */
  lemma NoticeNamesTheDropped(m: Machine, time: string, later: string) returns (digits: string)
    requires Running(m) && m.pc == Noticing && |time| < 64 && |m.batch| < 0x8000_0000
    ensures Says(m, Consumer(time)) == ["Dropped log messages at " + time + ", " + digits + " larger buffers\n"]
    ensures var dropped := m.batch[2..];
      Value(digits) == |dropped| && Loses(Next(m, Consumer(time)), Consumer(later)) == Flatten(dropped)
    ensures Next(Next(m, Consumer(time)), Consumer(later)).batch == m.batch[..2]
  {
    digits := NoticeTells(time, |m.batch| - 2);
  }
}
