/**
 The HTTP log appender: callers put messages into a bounded queue, and one worker moves them
 through a buffer into batches. "Sent" means handed to `send_logs`; whether the collector
 accepts a batch is not part of this model, and the program only prints such failures.

 What the scheduler and `select!` choose is the schedule, a list of events. An event that is
 not enabled changes nothing. The appender cancels the worker when it is dropped, so nobody
 writes after `Drop`; `Close` is the loss of every sender, which also ends the writing.
 */
module HttpLog {
  import opened Sequences
  import opened Wrappers

  newtype Byte = b: int | 0 <= b < 256
  type Bytes = seq<Byte>
  type Positive = n: int | 0 < n witness 1

  datatype Entry = Flush | Message(data: Bytes)

  datatype Settings = Settings(
    queue: Positive, maxBatchSize: Positive, ignoreFlush: bool, periodicFlush: bool, backPressure: bool)

  datatype SendError = Full | Closed

  datatype Event =
    | Write(data: Bytes) | FlushRequest | Drop | Close  // outside the worker
    | Tick | Receive | Cancelled                        // branches of the worker's select

  /** `history` is every entry `try_send` ever accepted, in order. */
  datatype State = State(
    history: seq<Entry>, queue: seq<Entry>, cancelled: bool, closed: bool,
    running: bool, buffered: seq<Bytes>, sent: seq<seq<Bytes>>)

  const INITIAL: State := State([], [], false, false, true, [], [])

  // ---------- The steps as functions ----------

  /** The messages among some entries. */
  function Payload(entries: seq<Entry>): seq<Bytes> {
    if entries == [] then []
    else (if entries[0].Message? then [entries[0].data] else []) + Payload(entries[1..])
  }

  /** All messages of some batches, in order. */
  function Flatten(batches: seq<seq<Bytes>>): seq<Bytes> {
    if batches == [] then []
    else Flatten(batches[..|batches| - 1]) + batches[|batches| - 1]
  }

  /** `slice::chunks` */
  function Chunks(s: seq<Bytes>, size: Positive): seq<seq<Bytes>> {
    if s == [] then []
    else if |s| <= size then [s]
    else [s[..size]] + Chunks(s[size..], size)
  }

  /** Why `try_send` would fail, if it would. */
  function Refusal(cfg: Settings, s: State): Option<SendError> {
    if !s.running then Some(Closed)
    else if |s.queue| >= cfg.queue then Some(Full)
    else None
  }

  function Offer(cfg: Settings, s: State, e: Entry): State {
    if Refusal(cfg, s).Some? then s
    else s.(history := s.history + [e], queue := s.queue + [e])
  }

  function SendOff(s: State): State {
    if s.buffered == [] then s else s.(sent := s.sent + [s.buffered], buffered := [])
  }

  function Take(cfg: Settings, s: State): State
    requires s.queue != []
  {
    var e, rest := s.queue[0], s.(queue := s.queue[1..]);
    match e
    case Flush => if cfg.ignoreFlush then rest else SendOff(rest)
    case Message(data) =>
      var pushed := rest.(buffered := s.buffered + [data]);
      if |pushed.buffered| >= cfg.maxBatchSize then SendOff(pushed) else pushed
  }

  /** Leaving the loop: drain the queue, send everything in chunks, drop the receiver. */
  function Shutdown(cfg: Settings, s: State): State {
    var left := s.buffered + Payload(s.queue);
    s.(queue := [], buffered := [], sent := s.sent + Chunks(left, cfg.maxBatchSize), running := false)
  }

  function Step(cfg: Settings, s: State, e: Event): State {
    match e
    case Write(data) => if s.cancelled || s.closed then s else Offer(cfg, s, Message(data))
    case FlushRequest => if s.cancelled || s.closed then s else Offer(cfg, s, Flush)
    case Drop => s.(cancelled := true)
    case Close => s.(closed := true)
    case Tick => if s.running && cfg.periodicFlush then SendOff(s) else s
    case Receive =>
      if !s.running then s
      else if s.queue != [] then Take(cfg, s)
      else if s.closed then Shutdown(cfg, s)
      else s
    case Cancelled => if s.running && s.cancelled then Shutdown(cfg, s) else s
  }

  function Run(cfg: Settings, s: State, schedule: seq<Event>): State {
    if schedule == [] then s
    else Step(cfg, Run(cfg, s, schedule[..|schedule| - 1]), schedule[|schedule| - 1])
  }

  // ---------- The appender and its worker, updated in place ----------

  class HttpLogAppender {
    const cfg: Settings
    var queue: seq<Entry>
    var cancelled: bool
    var closed: bool
    var running: bool
    var buffered: seq<Bytes>
    var sent: seq<seq<Bytes>>
    ghost var history: seq<Entry>

    ghost function View(): State
      reads this
    {
      State(history, queue, cancelled, closed, running, buffered, sent)
    }

    constructor (cfg: Settings)
      ensures this.cfg == cfg && View() == INITIAL
    {
      this.cfg := cfg;
      queue, cancelled, closed, running := [], false, false, true;
      buffered, sent, history := [], [], [];
    }

    method TrySend(e: Entry) returns (refusal: Option<SendError>)
      modifies this
      ensures refusal == Refusal(cfg, old(View()))
      ensures View() == Offer(cfg, old(View()), e)
    {
      if !running {
        return Some(Closed);
      }
      if |queue| >= cfg.queue {
        return Some(Full);
      }
      queue, history := queue + [e], history + [e];
      return None;
    }

    /**
     `io::Write::write`. The caller sees an error exactly when the message was not accepted
     and back pressure is on; without back pressure a lost message still answers Ok.
     */
    method Write(data: Bytes) returns (r: Result<nat, SendError>)
      requires !cancelled && !closed
      modifies this
      ensures View() == Step(cfg, old(View()), Event.Write(data))
      ensures history == old(history) + if old(running) && |old(queue)| < cfg.queue then [Message(data)] else []
      ensures r.Err? <==> cfg.backPressure && history == old(history)
      ensures r.Ok? ==> r.value == |data|
      ensures r.Err? ==> r.error == if old(running) then Full else Closed
    {
      var refusal := TrySend(Message(data));
      if refusal.Some? && cfg.backPressure {
        return Err(refusal.value);
      }
      return Ok(|data|);
    }

    /** `io::Write::flush` */
    method RequestFlush() returns (r: Result<(), SendError>)
      requires !cancelled && !closed
      modifies this
      ensures View() == Step(cfg, old(View()), FlushRequest)
      ensures history == old(history) + if old(running) && |old(queue)| < cfg.queue then [Entry.Flush] else []
      ensures r.Err? <==> cfg.backPressure && history == old(history)
      ensures r.Err? ==> r.error == if old(running) then Full else Closed
    {
      var refusal := TrySend(Entry.Flush);
      if refusal.Some? && cfg.backPressure {
        return Err(refusal.value);
      }
      return Ok(());
    }

    method SendBuffered()
      modifies this`sent, this`buffered
      ensures View() == SendOff(old(View()))
    {
      if buffered != [] {
        sent := sent + [buffered];
        buffered := [];
      }
    }

    method OnReceive()
      requires queue != []
      modifies this
      ensures View() == Take(cfg, old(View()))
    {
      var e := queue[0];
      queue := queue[1..];
      match e {
        case Flush =>
          if !cfg.ignoreFlush {
            SendBuffered();
          }
        case Message(data) =>
          buffered := buffered + [data];
          if |buffered| >= cfg.maxBatchSize {
            SendBuffered();
          }
      }
    }

    /** What the worker does after leaving its loop. */
    method Finish()
      modifies this
      ensures View() == Shutdown(cfg, old(View()))
    {
      DrainQueue();
      SendChunks();
      buffered, running := [], false;
    }

    /** `while let Ok(msg) = rx.try_recv()` */
    method DrainQueue()
      modifies this`queue, this`buffered
      ensures queue == [] && buffered == old(buffered) + Payload(old(queue))
    {
      while queue != []
        invariant buffered + Payload(queue) == old(buffered) + Payload(old(queue))
        decreases |queue|
      {
        if queue[0].Message? {
          Assoc(buffered, [queue[0].data], Payload(queue[1..]));
          buffered := buffered + [queue[0].data];
        } else {
          assert [] + Payload(queue[1..]) == Payload(queue[1..]);
        }
        queue := queue[1..];
      }
    }

    /** `for chunk in buffered.chunks(max_batch_size)` */
    method SendChunks()
      modifies this`sent
      ensures sent == old(sent) + Chunks(buffered, cfg.maxBatchSize)
    {
      var pos := 0;
      while pos < |buffered|
        invariant 0 <= pos <= |buffered|
        invariant sent + Chunks(buffered[pos..], cfg.maxBatchSize)
               == old(sent) + Chunks(buffered, cfg.maxBatchSize)
        decreases |buffered| - pos
      {
        var end := if pos + cfg.maxBatchSize < |buffered| then pos + cfg.maxBatchSize else |buffered|;
        ChunkOff(buffered, pos, cfg.maxBatchSize);
        Assoc(sent, [buffered[pos..end]], Chunks(buffered[end..], cfg.maxBatchSize));
        sent := sent + [buffered[pos..end]];
        pos := end;
      }
    }

    /** Appender and worker under one schedule. */
    method Execute(schedule: seq<Event>)
      modifies this
      ensures View() == Run(cfg, old(View()), schedule)
    {
      for i := 0 to |schedule|
        invariant View() == Run(cfg, old(View()), schedule[..i])
      {
        PrefixSnoc(schedule, i);
        match schedule[i] {
          case Write(data) =>
            if !cancelled && !closed {
              var _ := Write(data);
            }
          case FlushRequest =>
            if !cancelled && !closed {
              var _ := RequestFlush();
            }
          case Drop => cancelled := true;
          case Close => closed := true;
          case Tick =>
            if running && cfg.periodicFlush {
              SendBuffered();
            }
          case Receive =>
            if running {
              if queue != [] {
                OnReceive();
              } else if closed {
                Finish();
              }
            }
          case Cancelled =>
            if running && cancelled {
              Finish();
            }
        }
      }
      WholePrefix(schedule);
    }
  }

  lemma ChunkOff(s: seq<Bytes>, pos: nat, size: Positive)
    requires pos < |s|
    ensures var end := if pos + size < |s| then pos + size else |s|;
            Chunks(s[pos..], size) == [s[pos..end]] + Chunks(s[end..], size)
  {
    var end := if pos + size < |s| then pos + size else |s|;
    var rest := s[pos..];
    if |rest| <= size {
      assert s[pos..end] == rest && s[end..] == [];
      assert [rest] + [] == [rest];
    } else {
      assert rest[..size] == s[pos..end] && rest[size..] == s[end..];
    }
  }

  // ---------- Lists ----------

  lemma {:induction false} PayloadAppend(a: seq<Entry>, b: seq<Entry>)
    ensures Payload(a + b) == Payload(a) + Payload(b)
  {
    if a == [] {
      assert a + b == b;
      assert [] + Payload(b) == Payload(b);
    } else {
      HeadTail(a, b);
      PayloadAppend(a[1..], b);
      Assoc(if a[0].Message? then [a[0].data] else [], Payload(a[1..]), Payload(b));
    }
  }

  lemma FlattenAppend(batches: seq<seq<Bytes>>, batch: seq<Bytes>)
    ensures Flatten(batches + [batch]) == Flatten(batches) + batch
  {
    assert (batches + [batch])[..|batches|] == batches;
  }

  /** `Payload` keeps the messages of a list, and `Flatten` all of its batches, in order. */
  lemma PayloadAndFlattenMean(e: Entry, batch: seq<Bytes>, a: seq<seq<Bytes>>, b: seq<seq<Bytes>>)
    ensures Payload([]) == [] && Payload([e]) == if e == Flush then [] else [e.data]
    ensures Flatten([]) == [] && Flatten([batch]) == batch
    ensures Flatten(a + b) == Flatten(a) + Flatten(b)
  {
    assert [e][1..] == [];
    assert [batch][..0] == [];
    FlattenSplits(a, b);
  }

  lemma {:induction false} FlattenSplits(a: seq<seq<Bytes>>, b: seq<seq<Bytes>>)
    ensures Flatten(a + b) == Flatten(a) + Flatten(b)
    decreases |b|
  {
    if b == [] {
      assert a + b == a;
    } else {
      InitLast(a, b);
      FlattenSplits(a, b[..|b| - 1]);
      Assoc(Flatten(a), Flatten(b[..|b| - 1]), b[|b| - 1]);
    }
  }

  ghost predicate BatchesOk(batches: seq<seq<Bytes>>, size: Positive) {
    forall i | 0 <= i < |batches| :: 0 < |batches[i]| <= size
  }

  lemma BatchesAppend(batches: seq<seq<Bytes>>, batch: seq<Bytes>, size: Positive)
    requires BatchesOk(batches, size) && 0 < |batch| <= size
    ensures BatchesOk(batches + [batch], size)
  {}

  /** The shutdown chunks partition what is left, in order, into non-empty batches of legal size. */
  lemma {:induction false} ChunksPartition(batches: seq<seq<Bytes>>, s: seq<Bytes>, size: Positive)
    requires BatchesOk(batches, size)
    ensures Flatten(batches + Chunks(s, size)) == Flatten(batches) + s
    ensures BatchesOk(batches + Chunks(s, size), size)
    decreases |s|
  {
    if s == [] {
      assert batches + [] == batches;
      assert Flatten(batches) + [] == Flatten(batches);
    } else if |s| <= size {
      FlattenAppend(batches, s);
      BatchesAppend(batches, s, size);
    } else {
      var head, tail := s[..size], s[size..];
      FlattenAppend(batches, head);
      BatchesAppend(batches, head, size);
      ChunksPartition(batches + [head], tail, size);
      Assoc(batches, [head], Chunks(tail, size));
      Assoc(Flatten(batches), head, tail);
      assert head + tail == s;
    }
  }

  /** Where the cuts are: chunk `i` begins after `i` full chunks, and only the last may be short. */
  lemma {:induction false} ChunksAreCutAtSize(s: seq<Bytes>, size: Positive, i: nat)
    requires i < |Chunks(s, size)|
    ensures var at := i * size;
            && at < |s|
            && Chunks(s, size)[i] == s[at..if at + size < |s| then at + size else |s|]
            && (i + 1 < |Chunks(s, size)| <==> at + size < |s|)
    decreases |s|
  {
    if |s| > size && i > 0 {
      var tail := s[size..];
      HeadTail([s[..size]], Chunks(tail, size));
      ChunksAreCutAtSize(tail, size, i - 1);
      ShiftedSlice(s, size, (i - 1) * size, size);
      assert i * size == (i - 1) * size + size;
    }
  }

  lemma ShiftedSlice(s: seq<Bytes>, n: nat, at: nat, size: nat)
    requires n + at <= |s|
    ensures var tail := s[n..];
            tail[at..if at + size < |tail| then at + size else |tail|] ==
            s[at + n..if at + n + size < |s| then at + n + size else |s|]
  {}

  // ---------- Exactly once, in order ----------

  /** No message is lost, repeated or reordered, and batches keep their bounds. */
  ghost predicate Conserved(cfg: Settings, s: State) {
    && Flatten(s.sent) + s.buffered + Payload(s.queue) == Payload(s.history)
    && BatchesOk(s.sent, cfg.maxBatchSize)
    && (s.running ==> |s.buffered| < cfg.maxBatchSize)
    && |s.queue| <= cfg.queue
    && (!s.running ==> s.buffered == [] && s.queue == [] && (s.cancelled || s.closed))
  }

  lemma SendKeeps(cfg: Settings, s: State)
    requires Flatten(s.sent) + s.buffered + Payload(s.queue) == Payload(s.history)
    requires BatchesOk(s.sent, cfg.maxBatchSize) && |s.buffered| <= cfg.maxBatchSize
    requires s.running && |s.queue| <= cfg.queue
    ensures Conserved(cfg, SendOff(s))
  {
    if s.buffered != [] {
      FlattenAppend(s.sent, s.buffered);
    }
  }

  lemma TakeKeeps(cfg: Settings, s: State)
    requires Conserved(cfg, s) && s.running && s.queue != []
    ensures Conserved(cfg, Take(cfg, s))
  {
    var rest := s.(queue := s.queue[1..]);
    match s.queue[0]
    case Flush =>
      SendKeeps(cfg, rest);
    case Message(data) =>
      var pushed := rest.(buffered := s.buffered + [data]);
      assert Flatten(s.sent) + pushed.buffered + Payload(rest.queue)
          == Flatten(s.sent) + s.buffered + ([data] + Payload(rest.queue));
      SendKeeps(cfg, pushed);
  }

  lemma OfferKeeps(cfg: Settings, s: State, e: Entry)
    requires Conserved(cfg, s)
    ensures Conserved(cfg, Offer(cfg, s, e))
  {
    PayloadAppend(s.history, [e]);
    PayloadAppend(s.queue, [e]);
  }

  lemma ShutdownKeeps(cfg: Settings, s: State)
    requires Conserved(cfg, s) && (s.cancelled || s.closed)
    ensures Conserved(cfg, Shutdown(cfg, s))
  {
    var left := s.buffered + Payload(s.queue);
    ChunksPartition(s.sent, left, cfg.maxBatchSize);
    assert Flatten(s.sent) + left == Flatten(s.sent) + s.buffered + Payload(s.queue);
  }

  lemma StepKeeps(cfg: Settings, s: State, e: Event)
    requires Conserved(cfg, s)
    ensures Conserved(cfg, Step(cfg, s, e))
  {
    match e
    case Write(data) => OfferKeeps(cfg, s, Message(data));
    case FlushRequest => OfferKeeps(cfg, s, Flush);
    case Drop =>
    case Close =>
    case Tick => if s.running { SendKeeps(cfg, s); }
    case Receive =>
      if s.running && s.queue != [] {
        TakeKeeps(cfg, s);
      } else if s.running && s.closed {
        ShutdownKeeps(cfg, s);
      }
    case Cancelled => if s.running && s.cancelled { ShutdownKeeps(cfg, s); }
  }

  /**
   At every step of every schedule: the messages accepted so far are those already sent, then
   those in the buffer, then those in the queue; every batch holds between one message and the
   maximum; and the buffer is below the maximum whenever the worker waits.
   */
  lemma {:induction false} ExactlyOnceInOrder(cfg: Settings, schedule: seq<Event>)
    ensures Conserved(cfg, Run(cfg, INITIAL, schedule))
  {
    if schedule != [] {
      ExactlyOnceInOrder(cfg, schedule[..|schedule| - 1]);
      StepKeeps(cfg, Run(cfg, INITIAL, schedule[..|schedule| - 1]), schedule[|schedule| - 1]);
    }
  }

  /** When the worker has ended, however it ended, everything ever accepted has been sent. */
  lemma AllSentOnExit(cfg: Settings, schedule: seq<Event>)
    requires !Run(cfg, INITIAL, schedule).running
    ensures var s := Run(cfg, INITIAL, schedule); Flatten(s.sent) == Payload(s.history)
  {
    ExactlyOnceInOrder(cfg, schedule);
    var s := Run(cfg, INITIAL, schedule);
    assert Flatten(s.sent) + s.buffered + Payload(s.queue) == Flatten(s.sent);
  }

  lemma {:induction false} NothingAcceptedAfterDrop(cfg: Settings, s: State, mid: seq<Event>)
    requires s.cancelled
    ensures Run(cfg, s, mid).cancelled && Run(cfg, s, mid).history == s.history
  {
    if mid != [] {
      NothingAcceptedAfterDrop(cfg, s, mid[..|mid| - 1]);
    }
  }

  lemma {:induction false} RunSplits(cfg: Settings, s: State, a: seq<Event>, b: seq<Event>)
    ensures Run(cfg, s, a + b) == Run(cfg, Run(cfg, s, a), b)
    decreases |b|
  {
    if b == [] {
      assert a + b == a;
    } else {
      InitLast(a, b);
      RunSplits(cfg, s, a, b[..|b| - 1]);
    }
  }

  /**
   Dropping the appender is enough. Whatever else happens between the drop and the moment the
   worker notices it, other ready branches of the select included, nothing more is accepted,
   and then everything that was accepted has been sent and the worker has ended.
   */
  lemma DropDelivers(cfg: Settings, schedule: seq<Event>, mid: seq<Event>)
    ensures var s := Run(cfg, INITIAL, schedule + [Drop] + mid + [Cancelled]);
            && !s.running
            && Flatten(s.sent) == Payload(s.history)
            && s.history == Run(cfg, INITIAL, schedule).history
  {
    var dropped := Run(cfg, INITIAL, schedule + [Drop]);
    DropLeft(schedule, [Drop]);
    NothingAcceptedAfterDrop(cfg, dropped, mid);
    RunSplits(cfg, INITIAL, schedule + [Drop], mid);
    DropLeft(schedule + [Drop] + mid, [Cancelled]);
    AllSentOnExit(cfg, schedule + [Drop] + mid + [Cancelled]);
  }

  // ---------- The byte stream ----------

  /** Body assembly in `send_logs`: the lines one after the other. */
  function Body(logs: seq<Bytes>): Bytes {
    if logs == [] then [] else Body(logs[..|logs| - 1]) + logs[|logs| - 1]
  }

  /** The body of one line is the line, and bodies of lists of lines are put one after the other. */
  lemma BodyMeans(line: Bytes, a: seq<Bytes>, b: seq<Bytes>)
    ensures Body([]) == [] && Body([line]) == line
    ensures Body(a + b) == Body(a) + Body(b)
  {
    assert [line][..0] == [];
    BodyAppend(a, b);
  }

  method AssembleBody(logs: seq<Bytes>) returns (body: Bytes)
    ensures body == Body(logs)
  {
    body := [];
    for i := 0 to |logs|
      invariant body == Body(logs[..i])
    {
      PrefixSnoc(logs, i);
      body := body + logs[i];
    }
    WholePrefix(logs);
  }

  /** All request bodies, one after the other. */
  function Stream(batches: seq<seq<Bytes>>): Bytes {
    if batches == [] then [] else Stream(batches[..|batches| - 1]) + Body(batches[|batches| - 1])
  }

  lemma {:induction false} BodyAppend(a: seq<Bytes>, b: seq<Bytes>)
    ensures Body(a + b) == Body(a) + Body(b)
  {
    if b == [] {
      assert a + b == a;
    } else {
      BodyAppend(a, b[..|b| - 1]);
      InitLast(a, b);
      Assoc(Body(a), Body(b[..|b| - 1]), b[|b| - 1]);
    }
  }

  lemma {:induction false} StreamIsBody(batches: seq<seq<Bytes>>)
    ensures Stream(batches) == Body(Flatten(batches))
  {
    if batches != [] {
      StreamIsBody(batches[..|batches| - 1]);
      BodyAppend(Flatten(batches[..|batches| - 1]), batches[|batches| - 1]);
    }
  }

  /**
   The collector receives the same bytes whatever the batch size, flush settings, ticks and
   interleaving: two finished runs that accepted the same messages sent the same stream.
   */
  lemma StreamIsScheduleIndependent(cfg: Settings, schedule: seq<Event>, cfg': Settings, schedule': seq<Event>)
    requires !Run(cfg, INITIAL, schedule).running && !Run(cfg', INITIAL, schedule').running
    requires Payload(Run(cfg, INITIAL, schedule).history) == Payload(Run(cfg', INITIAL, schedule').history)
    ensures Stream(Run(cfg, INITIAL, schedule).sent) == Stream(Run(cfg', INITIAL, schedule').sent)
  {
    AllSentOnExit(cfg, schedule);
    AllSentOnExit(cfg', schedule');
    StreamIsBody(Run(cfg, INITIAL, schedule).sent);
    StreamIsBody(Run(cfg', INITIAL, schedule').sent);
  }

  // ---------- Flush as a barrier ----------

  /** Every accepted flush the worker has received was a barrier: what came before it is sent. */
  ghost predicate Barrier(cfg: Settings, s: State) {
    && QueueIsSuffix(s)
    && (!cfg.ignoreFlush ==>
          forall i | 0 <= i < |s.history| - |s.queue| && s.history[i].Flush? ::
            Payload(s.history[..i]) <= Flatten(s.sent))
  }

  /** What waits in the queue is what was accepted last. */
  ghost predicate QueueIsSuffix(s: State) {
    |s.queue| <= |s.history| && s.queue == s.history[|s.history| - |s.queue|..]
  }

  lemma SendOffGrows(s: State)
    ensures Flatten(s.sent) <= Flatten(SendOff(s).sent)
  {
    FlattenAppend(s.sent, s.buffered);
    LeftIsPrefix(Flatten(s.sent), s.buffered);
  }

  lemma TakeGrows(cfg: Settings, s: State)
    requires s.queue != []
    ensures Flatten(s.sent) <= Flatten(Take(cfg, s).sent)
  {
    var rest := s.(queue := s.queue[1..]);
    match s.queue[0]
    case Flush => SendOffGrows(rest);
    case Message(data) => SendOffGrows(rest.(buffered := s.buffered + [data]));
  }

  lemma ShutdownGrows(cfg: Settings, s: State)
    requires BatchesOk(s.sent, cfg.maxBatchSize)
    ensures Flatten(s.sent) <= Flatten(Shutdown(cfg, s).sent)
  {
    var left := s.buffered + Payload(s.queue);
    ChunksPartition(s.sent, left, cfg.maxBatchSize);
    LeftIsPrefix(Flatten(s.sent), left);
  }

  lemma SentGrows(cfg: Settings, s: State, e: Event)
    requires BatchesOk(s.sent, cfg.maxBatchSize)
    ensures Flatten(s.sent) <= Flatten(Step(cfg, s, e).sent)
  {
    match e
    case Tick => SendOffGrows(s);
    case Receive =>
      if s.queue != [] {
        TakeGrows(cfg, s);
      } else {
        ShutdownGrows(cfg, s);
      }
    case Cancelled => ShutdownGrows(cfg, s);
    case _ =>
  }

  lemma PayloadPrefix(history: seq<Entry>, i: nat)
    requires i <= |history|
    ensures Payload(history[..i]) <= Payload(history)
  {
    PayloadAppend(history[..i], history[i..]);
    Cut(history, i);
    LeftIsPrefix(Payload(history[..i]), Payload(history[i..]));
  }

  lemma CancelRight(a: seq<Bytes>, b: seq<Bytes>, tail: seq<Bytes>)
    requires a + tail == b + tail
    ensures a == b
  {
    assert |a + tail| == |b + tail|;
    assert (a + tail)[..|a|] == a && (b + tail)[..|a|] == b;
  }

  /** On receiving a flush, everything accepted before it is sent. */
  lemma TakenFlushSends(cfg: Settings, s: State)
    requires Conserved(cfg, s) && Barrier(cfg, s) && s.running && s.queue != []
    requires s.queue[0].Flush? && !cfg.ignoreFlush
    ensures Payload(s.history[..|s.history| - |s.queue|]) == Flatten(Take(cfg, s).sent)
  {
    var before := s.history[..|s.history| - |s.queue|];
    PayloadAppend(before, s.queue);
    assert before + s.queue == s.history;
    CancelRight(Payload(before), Flatten(s.sent) + s.buffered, Payload(s.queue));
    FlattenAppend(s.sent, s.buffered);
  }

  /** How a step moves the point up to which entries have been received. */
  ghost predicate Moved(s: State, s': State) {
    var taken, taken' := |s.history| - |s.queue|, |s'.history| - |s'.queue|;
    && s.history <= s'.history
    && 0 <= taken <= taken' && s'.queue == s'.history[taken'..]
    && (s'.running && taken < taken' ==> taken' == taken + 1 && s.queue != [] && s'.history == s.history)
  }

  lemma OfferMoves(cfg: Settings, s: State, e: Entry)
    requires QueueIsSuffix(s)
    ensures Moved(s, Offer(cfg, s, e))
    ensures |s.history| - |s.queue| == |Offer(cfg, s, e).history| - |Offer(cfg, s, e).queue|
  {
    var taken := |s.history| - |s.queue|;
    assert (s.history + [e])[taken..] == s.history[taken..] + [e];
  }

  lemma TakeMoves(cfg: Settings, s: State)
    requires s.queue != [] && QueueIsSuffix(s)
    ensures Moved(s, Take(cfg, s))
  {
    var taken := |s.history| - |s.queue|;
    assert s.history[taken..][1..] == s.history[taken + 1..];
  }

  lemma ShutdownMoves(cfg: Settings, s: State)
    requires QueueIsSuffix(s)
    ensures Moved(s, Shutdown(cfg, s))
  {
    assert s.history[|s.history|..] == [];
  }

  lemma NothingMoves(s: State, s': State)
    requires QueueIsSuffix(s)
    requires s'.history == s.history && s'.queue == s.queue
    ensures Moved(s, s')
  {}

  lemma TakenMoves(cfg: Settings, s: State, e: Event)
    requires QueueIsSuffix(s)
    ensures Moved(s, Step(cfg, s, e))
    ensures var s' := Step(cfg, s, e);
            s'.running && |s.history| - |s.queue| < |s'.history| - |s'.queue| ==>
            s.running && s.queue != [] && s' == Take(cfg, s)
  {
    match e
    case Write(data) => OfferMoves(cfg, s, Message(data));
    case FlushRequest => OfferMoves(cfg, s, Flush);
    case Drop => NothingMoves(s, Step(cfg, s, Drop));
    case Close => NothingMoves(s, Step(cfg, s, Close));
    case Tick => NothingMoves(s, Step(cfg, s, Tick));
    case Receive =>
      if s.queue != [] {
        TakeMoves(cfg, s);
      } else {
        ShutdownMoves(cfg, s);
      }
    case Cancelled => ShutdownMoves(cfg, s);
  }

  /** After the worker has ended, everything accepted is sent, prefixes included. */
  lemma EndedSentAll(cfg: Settings, s: State, i: nat)
    requires Conserved(cfg, s) && !s.running && i <= |s.history|
    ensures Payload(s.history[..i]) <= Flatten(s.sent)
  {
    PayloadPrefix(s.history, i);
    assert Flatten(s.sent) + s.buffered + Payload(s.queue) == Flatten(s.sent);
  }

  lemma BarrierMoves(cfg: Settings, s: State, s': State)
    requires Conserved(cfg, s) && Barrier(cfg, s) && Conserved(cfg, s') && Moved(s, s')
    requires Flatten(s.sent) <= Flatten(s'.sent)
    requires s'.running && |s.history| - |s.queue| < |s'.history| - |s'.queue| ==> s.running && s' == Take(cfg, s)
    ensures Barrier(cfg, s')
  {
    var taken, taken' := |s.history| - |s.queue|, |s'.history| - |s'.queue|;
    if !cfg.ignoreFlush {
      forall i | 0 <= i < taken' && s'.history[i].Flush?
        ensures Payload(s'.history[..i]) <= Flatten(s'.sent)
      {
        if i < taken {
          SamePrefix(s.history, s'.history, i);
          PrefixTrans(Payload(s.history[..i]), Flatten(s.sent), Flatten(s'.sent));
        } else if s'.running {
          assert i == taken && s'.history[i] == s.queue[0];
          TakenFlushSends(cfg, s);
        } else {
          EndedSentAll(cfg, s', i);
        }
      }
    }
  }

  lemma BarrierStep(cfg: Settings, s: State, e: Event)
    requires Conserved(cfg, s) && Barrier(cfg, s)
    ensures Barrier(cfg, Step(cfg, s, e))
  {
    TakenMoves(cfg, s, e);
    SentGrows(cfg, s, e);
    StepKeeps(cfg, s, e);
    BarrierMoves(cfg, s, Step(cfg, s, e));
  }

  lemma {:induction false} FlushIsBarrier(cfg: Settings, schedule: seq<Event>)
    ensures Barrier(cfg, Run(cfg, INITIAL, schedule))
  {
    if schedule != [] {
      var before := schedule[..|schedule| - 1];
      FlushIsBarrier(cfg, before);
      ExactlyOnceInOrder(cfg, before);
      BarrierStep(cfg, Run(cfg, INITIAL, before), schedule[|schedule| - 1]);
    }
  }

  /** Every message the worker has received is sent. */
  ghost predicate ReceivedIsSent(s: State) {
    |s.queue| <= |s.history| && Flatten(s.sent) == Payload(s.history[..|s.history| - |s.queue|])
  }

  lemma NothingBuffered(cfg: Settings, s: State)
    requires Conserved(cfg, s) && QueueIsSuffix(s) && s.buffered == []
    ensures ReceivedIsSent(s)
  {
    var n := |s.history| - |s.queue|;
    Cut(s.history, n);
    PayloadAppend(s.history[..n], s.queue);
    assert Flatten(s.sent) + [] == Flatten(s.sent);
    CancelRight(Payload(s.history[..n]), Flatten(s.sent), Payload(s.queue));
  }

  lemma TickEmptiesBuffer(cfg: Settings, s: State)
    requires cfg.periodicFlush && s.running && QueueIsSuffix(s)
    ensures var s' := Step(cfg, s, Tick);
            s'.buffered == [] && s'.queue == s.queue && QueueIsSuffix(s')
  {}

  lemma RunOne(cfg: Settings, schedule: seq<Event>, e: Event)
    ensures Run(cfg, INITIAL, schedule + [e]) == Step(cfg, Run(cfg, INITIAL, schedule), e)
  {
    DropLeft(schedule, [e]);
  }

  lemma TickSends(cfg: Settings, s: State)
    requires Conserved(cfg, s) && QueueIsSuffix(s) && cfg.periodicFlush && s.running
    ensures Step(cfg, s, Tick).queue == s.queue && ReceivedIsSent(Step(cfg, s, Tick))
  {
    StepKeeps(cfg, s, Tick);
    TickEmptiesBuffer(cfg, s);
    NothingBuffered(cfg, Step(cfg, s, Tick));
  }

  /** A tick leaves nothing behind: every message the worker has received is then sent. */
  lemma TickSendsReceived(cfg: Settings, schedule: seq<Event>)
    requires cfg.periodicFlush && Run(cfg, INITIAL, schedule).running
    ensures var s := Run(cfg, INITIAL, schedule + [Tick]);
            s.queue == Run(cfg, INITIAL, schedule).queue && ReceivedIsSent(s)
  {
    RunOne(cfg, schedule, Tick);
    ExactlyOnceInOrder(cfg, schedule);
    FlushIsBarrier(cfg, schedule);
    TickSends(cfg, Run(cfg, INITIAL, schedule));
  }

  // ---------- Progress ----------

  /**
   Progress, at any point of any schedule. A running worker with a non-empty queue takes exactly
   the oldest entry. It sends its buffer, the new message included, exactly if that fills the
   buffer, or if the entry is a flush that is not ignored and there is something to send;
   otherwise the message joins the buffer and nothing is sent.
   */
  lemma ReceiveTakesOldest(cfg: Settings, schedule: seq<Event>)
    requires var s := Run(cfg, INITIAL, schedule); s.running && s.queue != []
    ensures TakesOldest(cfg, Run(cfg, INITIAL, schedule), Run(cfg, INITIAL, schedule + [Receive]))
  {
    RunOne(cfg, schedule, Receive);
    StepTakesOldest(cfg, Run(cfg, INITIAL, schedule));
  }

  ghost predicate TakesOldest(cfg: Settings, s: State, s': State)
    requires s.queue != []
  {
    var e := s.queue[0];
    var pending := if e == Flush then s.buffered else s.buffered + [e.data];
    var sends := if e == Flush then !cfg.ignoreFlush && s.buffered != [] else |pending| >= cfg.maxBatchSize;
    && s'.running && s'.history == s.history && s'.queue == s.queue[1..]
    && s'.buffered == (if sends then [] else pending)
    && s'.sent == (if sends then s.sent + [pending] else s.sent)
    && Flatten(s'.sent) + s'.buffered == Flatten(s.sent) + pending
  }

  lemma StepTakesOldest(cfg: Settings, s: State)
    requires s.running && s.queue != []
    ensures TakesOldest(cfg, s, Step(cfg, s, Receive))
  {
    var rest := s.(queue := s.queue[1..]);
    match s.queue[0]
    case Flush => SendOffMoves(rest);
    case Message(data) => SendOffMoves(rest.(buffered := s.buffered + [data]));
  }

  lemma SendOffMoves(s: State)
    ensures Flatten(SendOff(s).sent) + SendOff(s).buffered == Flatten(s.sent) + s.buffered
  {
    FlattenAppend(s.sent, s.buffered);
  }

  /** A worker that finds its channel closed and empty ends; one that finds it empty waits. */
  lemma EmptyQueueEndsIff(cfg: Settings, schedule: seq<Event>)
    requires var s := Run(cfg, INITIAL, schedule); s.running && s.queue == []
    ensures var s, s' := Run(cfg, INITIAL, schedule), Run(cfg, INITIAL, schedule + [Receive]);
            && (s'.running <==> !s.closed)
            && (s'.running ==> s' == s)
            && (!s'.running ==> Flatten(s'.sent) == Payload(s'.history) && s'.history == s.history)
  {
    RunOne(cfg, schedule, Receive);
    if Run(cfg, INITIAL, schedule).closed {
      AllSentOnExit(cfg, schedule + [Receive]);
    }
  }

  /**
   A write is accepted, at any point of any schedule before the appender is gone, exactly if the
   worker runs and the queue has a place left; a flush request likewise. Otherwise nothing changes.
   */
  lemma AcceptedIffRoom(cfg: Settings, schedule: seq<Event>, data: Bytes)
    requires var s := Run(cfg, INITIAL, schedule); !s.cancelled && !s.closed
    ensures var s := Run(cfg, INITIAL, schedule);
            var room := s.running && |s.queue| < cfg.queue;
            var written := Run(cfg, INITIAL, schedule + [Write(data)]);
            var flushed := Run(cfg, INITIAL, schedule + [FlushRequest]);
            && written == (if room then s.(history := s.history + [Message(data)], queue := s.queue + [Message(data)]) else s)
            && flushed == (if room then s.(history := s.history + [Entry.Flush], queue := s.queue + [Entry.Flush]) else s)
  {
    RunOne(cfg, schedule, Write(data));
    RunOne(cfg, schedule, FlushRequest);
  }

  function Receives(schedule: seq<Event>): nat {
    if schedule == [] then 0
    else Receives(schedule[..|schedule| - 1]) + if schedule[|schedule| - 1] == Receive then 1 else 0
  }

  /** How many of the accepted entries have left the queue. */
  function Taken(s: State): int {
    |s.history| - |s.queue|
  }

  lemma TakenStep(cfg: Settings, s: State, e: Event)
    requires QueueIsSuffix(s)
    ensures var s' := Step(cfg, s, e);
            && QueueIsSuffix(s') && |s'.history| >= |s.history| && Taken(s') >= Taken(s)
            && (s.running && e == Receive && s.queue != [] ==> Taken(s') == Taken(s) + 1)
            && (!s.running ==> !s'.running)
  {
    TakenMoves(cfg, s, e);
  }

  /** Whatever else happens, every `Receive` brings the worker one entry further. */
  lemma {:induction false} ReceivesMakeProgress(cfg: Settings, s: State, mid: seq<Event>)
    requires QueueIsSuffix(s)
    ensures var s' := Run(cfg, s, mid);
            && QueueIsSuffix(s') && |s'.history| >= |s.history|
            && (s'.running ==> Taken(s') >= |s.history| || Taken(s') >= Taken(s) + Receives(mid))
  {
    if mid != [] {
      var n := |mid| - 1;
      ReceivesMakeProgress(cfg, s, mid[..n]);
      TakenStep(cfg, Run(cfg, s, mid[..n]), mid[n]);
    }
  }

  /**
   Flushes are honoured. Let a flush have been accepted at any point of any schedule. Once the
   worker has come to receive as often as there were entries waiting at that point, or has ended,
   everything accepted before the flush is sent, whatever else has happened in between.
   */
  lemma FlushDelivers(cfg: Settings, schedule: seq<Event>, mid: seq<Event>, i: nat)
    requires !cfg.ignoreFlush
    requires var s := Run(cfg, INITIAL, schedule); i < |s.history| && s.history[i] == Flush && Receives(mid) >= |s.queue|
    ensures Payload(Run(cfg, INITIAL, schedule).history[..i]) <= Flatten(Run(cfg, INITIAL, schedule + mid).sent)
  {
    var s, s' := Run(cfg, INITIAL, schedule), Run(cfg, INITIAL, schedule + mid);
    FlushIsBarrier(cfg, schedule);
    FlushIsBarrier(cfg, schedule + mid);
    ExactlyOnceInOrder(cfg, schedule + mid);
    RunSplits(cfg, INITIAL, schedule, mid);
    ReceivesMakeProgress(cfg, s, mid);
    HistoryGrows(cfg, s, mid);
    SamePrefix(s.history, s'.history, i);
    if !s'.running {
      EndedSentAll(cfg, s', i);
    }
  }

  /** Once the channel is closed, every `Receive` takes an entry or ends the worker. */
  lemma {:induction false} ClosedMakesProgress(cfg: Settings, s: State, mid: seq<Event>)
    requires QueueIsSuffix(s) && s.closed
    ensures var s' := Run(cfg, s, mid);
            && s'.closed && s'.history == s.history && QueueIsSuffix(s')
            && (s'.running ==> Taken(s') >= Taken(s) + Receives(mid))
  {
    if mid != [] {
      var n := |mid| - 1;
      ClosedMakesProgress(cfg, s, mid[..n]);
      TakenStep(cfg, Run(cfg, s, mid[..n]), mid[n]);
    }
  }

  lemma ClosedEnds(cfg: Settings, s: State, mid: seq<Event>)
    requires QueueIsSuffix(s) && s.closed && Receives(mid) > |s.queue|
    ensures !Run(cfg, s, mid).running && Run(cfg, s, mid).history == s.history
  {
    ClosedMakesProgress(cfg, s, mid);
  }

  /**
   Losing every sender is enough as well. Once the worker has come to receive once more than
   there were entries waiting when the channel closed, it has ended and everything is sent.
   */
  lemma CloseDelivers(cfg: Settings, schedule: seq<Event>, mid: seq<Event>)
    requires Receives(mid) > |Run(cfg, INITIAL, schedule).queue|
    ensures var s := Run(cfg, INITIAL, schedule + [Close] + mid);
            && !s.running
            && Flatten(s.sent) == Payload(s.history)
            && s.history == Run(cfg, INITIAL, schedule).history
  {
    FlushIsBarrier(cfg, schedule);
    RunOne(cfg, schedule, Close);
    RunSplits(cfg, INITIAL, schedule + [Close], mid);
    ClosedEnds(cfg, Run(cfg, INITIAL, schedule).(closed := true), mid);
    AllSentOnExit(cfg, schedule + [Close] + mid);
  }

  lemma StepHistoryGrows(cfg: Settings, s: State, e: Event)
    ensures s.history <= Step(cfg, s, e).history
  {
    match e
    case Write(data) => LeftIsPrefix(s.history, [Message(data)]);
    case FlushRequest => LeftIsPrefix(s.history, [Entry.Flush]);
    case _ =>
  }

  lemma {:induction false} HistoryGrows(cfg: Settings, s: State, mid: seq<Event>)
    ensures s.history <= Run(cfg, s, mid).history
  {
    if mid != [] {
      var before := Run(cfg, s, mid[..|mid| - 1]);
      HistoryGrows(cfg, s, mid[..|mid| - 1]);
      StepHistoryGrows(cfg, before, mid[|mid| - 1]);
      PrefixTrans(s.history, before.history, Run(cfg, s, mid).history);
    }
  }

  // ---------- Batches without flushes ----------

  /** Only full batches while running, and the canonical chunks in the end. */
  ghost predicate CutInChunks(cfg: Settings, s: State) {
    if s.running then forall i | 0 <= i < |s.sent| :: |s.sent[i]| == cfg.maxBatchSize
    else s.sent == Chunks(Payload(s.history), cfg.maxBatchSize)
  }

  lemma FullChunk(batch: seq<Bytes>, rest: seq<Bytes>, size: Positive)
    requires |batch| == size
    ensures Chunks(batch + rest, size) == [batch] + Chunks(rest, size)
  {
    DropLeft(batch, rest);
    if rest == [] {
      assert batch + rest == batch && [batch] + [] == [batch];
    }
  }

  lemma {:induction false} ChunksOfFull(batches: seq<seq<Bytes>>, rest: seq<Bytes>, size: Positive)
    requires forall i | 0 <= i < |batches| :: |batches[i]| == size
    ensures Chunks(Flatten(batches) + rest, size) == batches + Chunks(rest, size)
    decreases |batches|
  {
    if batches == [] {
      assert Flatten(batches) + rest == rest;
    } else {
      var init, last := batches[..|batches| - 1], batches[|batches| - 1];
      ChunksOfFull(init, last + rest, size);
      Assoc(Flatten(init), last, rest);
      FullChunk(last, rest, size);
      Assoc(init, [last], Chunks(rest, size));
      assert init + [last] == batches;
    }
  }

  lemma ChunksOnExit(cfg: Settings, s: State)
    requires Conserved(cfg, s) && s.running && CutInChunks(cfg, s)
    ensures CutInChunks(cfg, Shutdown(cfg, s))
  {
    var left := s.buffered + Payload(s.queue);
    ChunksOfFull(s.sent, left, cfg.maxBatchSize);
    assert Flatten(s.sent) + left == Payload(s.history);
  }

  lemma ChunksTake(cfg: Settings, s: State)
    requires cfg.ignoreFlush && s.running && s.queue != [] && |s.buffered| < cfg.maxBatchSize && CutInChunks(cfg, s)
    ensures CutInChunks(cfg, Take(cfg, s))
  {}

  lemma ChunksStep(cfg: Settings, s: State, e: Event)
    requires cfg.ignoreFlush && !cfg.periodicFlush
    requires Conserved(cfg, s) && CutInChunks(cfg, s)
    ensures CutInChunks(cfg, Step(cfg, s, e))
  {
    match e
    case Receive =>
      if s.running && s.queue != [] {
        ChunksTake(cfg, s);
      } else if s.running {
        ChunksOnExit(cfg, s);
      }
    case Cancelled => if s.running { ChunksOnExit(cfg, s); }
    case _ =>
  }

  /**
   With flushes ignored and no timer, the batches are the accepted messages cut into chunks of
   the maximum size, whatever the interleaving of writers and worker.
   */
  lemma {:induction false} BatchesAreChunks(cfg: Settings, schedule: seq<Event>)
    requires cfg.ignoreFlush && !cfg.periodicFlush
    ensures var s := Run(cfg, INITIAL, schedule);
            && CutInChunks(cfg, s)
            && (!s.running ==> s.sent == Chunks(Payload(s.history), cfg.maxBatchSize))
  {
    if schedule != [] {
      var before, e := schedule[..|schedule| - 1], schedule[|schedule| - 1];
      BatchesAreChunks(cfg, before);
      ExactlyOnceInOrder(cfg, before);
      ChunksStep(cfg, Run(cfg, INITIAL, before), e);
    }
  }
}
