// Every interleaving of concurrent calls on one ring buffer.
//
// Each call of Read, Write, Close or Reset moves through its program points one move at
// a time. The mutex admits one owner. The closed flag is loaded and swapped without the mutex,
// so it may flip between any two moves of another call. cond.Wait releases the mutex and
// parks; a broadcast turns every parked call into one that wants the mutex again.
module RingProtocol {
  import opened Basics
  import opened RingBuffer

  // The identity of a call is its index in `State.calls`.
  type Id = nat

  datatype Call =
    // Read
    | ReadStart(len: nat)
    | ReadLock(len: nat)
    | ReadScan(len: nat)              // owns the mutex, at the loop head
    | ReadPoll(len: nat)              // owns the mutex, found nothing, about to load the flag
    | ReadSleep(len: nat)             // owns the mutex, loaded false, about to wait
    | ReadParked(len: nat)
    | ReadDone(len: nat, got: seq<Byte>, eof: bool)
    // Write
    | WriteStart(p: seq<Byte>)
    | WriteLock(p: seq<Byte>, total: nat)
    | WriteScan(p: seq<Byte>, total: nat)   // owns the mutex, at the loop head
    | WriteFill(p: seq<Byte>, total: nat)   // owns the mutex, loaded false, about to copy or wait
    | WriteParked(p: seq<Byte>, total: nat)
    | WriteDone(p: seq<Byte>, total: nat, closedErr: bool)
    // Close
    | CloseStart
    | CloseLock                       // swapped the flag; the broadcast is still pending
    | CloseDone
    // Reset
    | ResetLock
    | ResetDone
  {
    predicate Fresh() {
      ReadStart? || WriteStart? || CloseStart? || ResetLock?
    }

    predicate Owning() {
      ReadScan? || ReadPoll? || ReadSleep? || WriteScan? || WriteFill?
    }

    predicate Locking() {
      ReadLock? || WriteLock? || CloseLock? || ResetLock?
    }

    predicate Parked() {
      ReadParked? || WriteParked?
    }

    predicate Done() {
      ReadDone? || WriteDone? || CloseDone? || ResetDone?
    }

    // Has seen an open buffer and will park, or has parked, on the strength of it.
    predicate Committed() {
      ReadSleep? || WriteFill? || Parked()
    }

    function Woken(): Call {
      match this
      case ReadParked(len) => ReadLock(len)
      case WriteParked(p, total) => WriteLock(p, total)
      case _ => this
    }

    // The bytes this call has put into the buffer.
    function Deposited(): seq<Byte>
      requires WellFormed()
    {
      match this
      case WriteLock(p, total) => p[..total]
      case WriteScan(p, total) => p[..total]
      case WriteFill(p, total) => p[..total]
      case WriteParked(p, total) => p[..total]
      case WriteDone(p, total, _) => p[..total]
      case _ => []
    }

    // The bytes this call has returned to its caller.
    function Returned(): seq<Byte> {
      if ReadDone? then got else []
    }

    predicate WellFormed() {
      match this
      case ReadStart(_) => true
      case ReadDone(len, got, eof) => if eof then got == [] && len > 0 else |got| <= len && (got == [] ==> len == 0)
      case WriteLock(p, total) => total < |p|
      case WriteScan(p, total) => total <= |p|
      case WriteFill(p, total) => total < |p|
      case WriteParked(p, total) => total < |p|
      case WriteDone(p, total, closedErr) =>
        total <= |p| && (if closedErr then total < |p| || p == [] else total == |p|)
      case WriteStart(_) => true
      case CloseStart => true
      case CloseLock => true
      case CloseDone => true
      case ResetLock => true
      case ResetDone => true
      case _ => len > 0
    }
  }

  // A byte together with the call that moved it.
  datatype Moved = Moved(who: Id, b: Byte)

  // `accepted` logs what writers copied in and `drained` what readers copied out (or
  // a Reset dropped), both in the order in which the mutex was held.
  datatype State = State(
    ring: Ring, closed: bool, owner: Option<Id>, calls: seq<Call>,
    accepted: seq<Moved>, drained: seq<Moved>)

  function Init(size: nat): State {
    State(Ring(seq(size, _ => 0), 0, 0, false), false, None, [], [], [])
  }

  datatype Move = Start(call: Call) | Step(id: Id)

  predicate Enabled(s: State, m: Move) {
    match m
    case Start(call) => call.Fresh()
    case Step(id) =>
      id < |s.calls| &&
      var c := s.calls[id];
      !c.Done() && !c.Parked() && (c.Locking() ==> s.owner == None)
  }

  function Apply(s: State, m: Move): State
    requires Sound(s) && Enabled(s, m)
  {
    match m
    case Start(call) => s.(calls := s.calls + [call])
    case Step(id) => Advance(s, id)
  }

  function Wake(calls: seq<Call>): (woken: seq<Call>)
    ensures |woken| == |calls|
    ensures forall i :: 0 <= i < |calls| ==> woken[i] == calls[i].Woken()
  {
    seq(|calls|, i requires 0 <= i < |calls| => calls[i].Woken())
  }

  function Tag(id: Id, bytes: seq<Byte>): (log: seq<Moved>)
    ensures |log| == |bytes|
  {
    seq(|bytes|, i requires 0 <= i < |bytes| => Moved(id, bytes[i]))
  }

  // What a move does besides advancing its own call.
  datatype Effect =
    | Quiet
    | SetFlag
    | Broadcast
    | CopyOut(got: seq<Byte>)     // and broadcast
    | CopyIn(chunk: seq<Byte>)    // and broadcast
    | Drop                        // and broadcast
  {
    predicate Wakes() { !Quiet? && !SetFlag? }
    function Chunk(): seq<Byte> { if CopyIn? then chunk else [] }
    function Got(): seq<Byte> { if CopyOut? then got else [] }
  }

  datatype Progress = Progress(next: Call, effect: Effect)

  function Advance(s: State, id: Id): State
    requires Sound(s) && Enabled(s, Step(id))
  {
    var Progress(next, effect) := Next(s, id);
    var owner := if next.Owning() then Some(id) else if s.calls[id].Owning() then None else s.owner;
    var s' := s.(owner := owner, calls := s.calls[id := next]);
    var woken := s.(owner := owner, calls := Wake(s.calls)[id := next]);
    match effect
    case Quiet => s'
    case SetFlag => s'.(closed := true)
    case Broadcast => woken
    case CopyOut(got) =>
      woken.(ring := s.ring.AfterTake(s.calls[id].len), drained := s.drained + Tag(id, got))
    case CopyIn(chunk) =>
      woken.(ring := s.ring.AfterPut(chunk), accepted := s.accepted + Tag(id, chunk))
    case Drop =>
      woken.(ring := s.ring.AfterReset(), drained := s.drained + Tag(id, s.ring.Contents()))
  }

  // The next program point of a call, and its effect on the shared state.
  function Next(s: State, id: Id): (step: Progress)
    requires Sound(s) && Enabled(s, Step(id))
    ensures step.next.WellFormed() && !step.next.Fresh()
    ensures match step.effect
            case CopyOut(got) => s.calls[id].ReadScan? && s.ring.HasData() && got == Front(s.ring, s.calls[id].len)
            case CopyIn(chunk) => 0 < |chunk| <= s.ring.Available()
            case _ => true
  {
    match s.calls[id]
    case ReadStart(len) => Progress(if len == 0 then ReadDone(0, [], false) else ReadLock(len), Quiet)
    case ReadLock(len) => Progress(ReadScan(len), Quiet)
    case ReadScan(len) =>
      if s.ring.HasData() then
        var got := Front(s.ring, len);
        Progress(ReadDone(len, got, false), CopyOut(got))
      else Progress(ReadPoll(len), Quiet)
    case ReadPoll(len) => Progress(if s.closed then ReadDone(len, [], true) else ReadSleep(len), Quiet)
    case ReadSleep(len) => Progress(ReadParked(len), Quiet)

    case WriteStart(p) =>
      Progress(if s.closed then WriteDone(p, 0, true)
               else if p == [] then WriteDone(p, 0, false)
               else WriteLock(p, 0), Quiet)
    case WriteLock(p, total) => Progress(WriteScan(p, total), Quiet)
    case WriteScan(p, total) =>
      Progress(if total == |p| then WriteDone(p, total, false)
               else if s.closed then WriteDone(p, total, true)
               else WriteFill(p, total), Quiet)
    case WriteFill(p, total) =>
      if s.ring.Available() == 0 then Progress(WriteParked(p, total), Quiet)
      else
        Occupancy(s.ring);
        var chunk := NextChunk(s.ring, p, total);
        Progress(WriteScan(p, total + |chunk|), CopyIn(chunk))

    case CloseStart => if s.closed then Progress(CloseDone, Quiet) else Progress(CloseLock, SetFlag)
    case CloseLock => Progress(CloseDone, Broadcast)
    case ResetLock => Progress(ResetDone, Drop)
  }

  // What ReadLocked copies out.
  function Front(ring: Ring, len: nat): (got: seq<Byte>)
    requires ring.Valid()
    ensures |got| == Min(len, |ring.Contents()|)
  {
    ring.Contents()[..Min(len, |ring.Contents()|)]
  }

  // What one round of the write loop copies in.
  function NextChunk(ring: Ring, p: seq<Byte>, total: nat): (chunk: seq<Byte>)
    requires ring.Valid() && total < |p| && ring.Available() > 0
    ensures 0 < |chunk| == Min(|p| - total, ring.Available())
    ensures p[..total] + chunk == p[..total + |chunk|]
  {
    Occupancy(ring);
    p[total..total + Min(|p| - total, ring.Available())]
  }

  // ---------- logs ----------

  function Bytes(log: seq<Moved>): (bytes: seq<Byte>)
    ensures |bytes| == |log|
  {
    seq(|log|, i requires 0 <= i < |log| => log[i].b)
  }

  // The bytes that call `id` moved, in order.
  function Share(log: seq<Moved>, id: Id): seq<Byte> {
    if log == [] then []
    else
      var rest := Share(log[..|log| - 1], id);
      if log[|log| - 1].who == id then rest + [log[|log| - 1].b] else rest
  }

  lemma {:induction false} ShareOfTagged(log: seq<Moved>, id: Id, who: Id, bytes: seq<Byte>)
    ensures Share(log + Tag(who, bytes), id) == Share(log, id) + (if who == id then bytes else [])
    decreases |bytes|
  {
    if bytes == [] {
      assert log + Tag(who, bytes) == log;
    } else {
      var n := |bytes| - 1;
      ShareOfTagged(log, id, who, bytes[..n]);
      var whole := log + Tag(who, bytes);
      assert whole[..|whole| - 1] == log + Tag(who, bytes[..n]);
      assert bytes == bytes[..n] + [bytes[n]];
    }
  }

  lemma BytesOfTagged(log: seq<Moved>, who: Id, bytes: seq<Byte>)
    ensures Bytes(log + Tag(who, bytes)) == Bytes(log) + bytes
  {
  }

  // ---------- the invariant ----------

  ghost predicate Inv(s: State) {
    && Sound(s)
    && MutexInv(s)
    && Conserved(s)
    && SharesInv(s)
    && WakeupInv(s)
    && ClosedInv(s)
    && EofInv(s)
    && CloseInv(s)
  }

  // Cursors and counters stay in range.
  ghost predicate Sound(s: State) {
    s.ring.Valid() && forall id :: 0 <= id < |s.calls| ==> s.calls[id].WellFormed()
  }

  // Nothing is lost, duplicated, overwritten or reordered.
  ghost predicate Conserved(s: State)
    requires s.ring.Valid()
  {
    Bytes(s.accepted) == Bytes(s.drained) + s.ring.Contents()
  }

  // Each call has moved exactly the bytes its result accounts for.
  ghost predicate SharesInv(s: State)
    requires Sound(s)
  {
    && (forall id: Id :: Share(s.accepted, id) == if id < |s.calls| then s.calls[id].Deposited() else [])
    && (forall id: Id :: (id < |s.calls| ==> !s.calls[id].ResetDone?) ==>
         Share(s.drained, id) == if id < |s.calls| then s.calls[id].Returned() else [])
  }

  // ErrClosed is only ever reported on a closed buffer.
  ghost predicate ClosedInv(s: State) {
    forall id :: 0 <= id < |s.calls| && s.calls[id].WriteDone? && s.calls[id].closedErr ==> s.closed
  }

  // The flag is set before anything else in Close, and only one Close sets it.
  ghost predicate CloseInv(s: State) {
    && (forall id :: 0 <= id < |s.calls| && (s.calls[id].CloseLock? || s.calls[id].CloseDone?) ==> s.closed)
    && (forall i, j :: 0 <= i < j < |s.calls| ==> !(s.calls[i].CloseLock? && s.calls[j].CloseLock?))
  }

  ghost predicate MutexInv(s: State) {
    && (s.owner.Some? ==> s.owner.value < |s.calls|)
    && (forall id :: 0 <= id < |s.calls| ==> (s.calls[id].Owning() <==> s.owner == Some(id)))
  }

  ghost predicate BroadcastPending(s: State) {
    exists id :: 0 <= id < |s.calls| && s.calls[id].CloseLock?
  }

  // No wakeup is lost.
  ghost predicate WakeupInv(s: State)
    requires s.ring.Valid()
  {
    forall id :: 0 <= id < |s.calls| ==>
      var c := s.calls[id];
      && (c.ReadParked? || c.ReadSleep? || c.ReadPoll? ==> s.ring.Contents() == [])
      && (c.WriteParked? ==> |s.ring.Contents()| == |s.ring.buf|)
      && (c.Committed() && s.closed ==> BroadcastPending(s))
  }

  ghost predicate SomeEof(s: State) {
    exists id :: 0 <= id < |s.calls| && s.calls[id].ReadDone? && s.calls[id].eof
  }

  // After an EOF no writer can reach its copy any more.
  ghost predicate EofInv(s: State)
    requires s.ring.Valid()
  {
    SomeEof(s) ==>
      && s.closed
      && s.ring.Contents() == []
      && forall id :: 0 <= id < |s.calls| ==> !s.calls[id].WriteFill?
  }

  lemma InitInv(size: nat)
    ensures Inv(Init(size))
  {
  }


  // A step changes its own call; the others are at most woken.
  ghost predicate Stepped(s: State, s': State, id: Id, next: Call, wakes: bool) {
    && id < |s.calls| == |s'.calls| && s'.calls[id] == next
    && forall i :: 0 <= i < |s.calls| && i != id ==> s'.calls[i] == if wakes then s.calls[i].Woken() else s.calls[i]
  }

  lemma StepFrame(s: State, id: Id)
    requires Sound(s) && Enabled(s, Step(id))
    ensures Stepped(s, Advance(s, id), id, Next(s, id).next, Next(s, id).effect.Wakes())
  {
  }

  lemma MutexKept(s: State, m: Move)
    requires Sound(s) && MutexInv(s) && Enabled(s, m)
    ensures MutexInv(Apply(s, m))
  {
    if m.Step? {
      StepFrame(s, m.id);
      assert Next(s, m.id).next.Owning() ==> s.calls[m.id].Owning() || s.owner == None;
    }
  }

  // The effect of a move on the stored bytes.
  lemma RingKept(s: State, m: Move)
    requires Sound(s) && Enabled(s, m)
    ensures var ring' := Apply(s, m).ring;
            && ring'.Valid() && |ring'.buf| == |s.ring.buf|
            && match (if m.Start? then Quiet else Next(s, m.id).effect)
               case CopyOut(got) => got + ring'.Contents() == s.ring.Contents()
               case CopyIn(chunk) => ring'.Contents() == s.ring.Contents() + chunk
               case Drop => ring'.Contents() == []
               case _ => ring' == s.ring
  {
    if m.Step? {
      AdvanceRing(s, m.id);
      match Next(s, m.id).effect
      case CopyOut(got) => TakeIsDequeue(s.ring, s.calls[m.id].len);
      case CopyIn(chunk) => PutIsEnqueue(s.ring, chunk);
      case _ =>
    }
  }

  lemma AdvanceRing(s: State, id: Id)
    requires Sound(s) && Enabled(s, Step(id))
    ensures match Next(s, id).effect
            case CopyOut(got) => s.calls[id].ReadScan? && Advance(s, id).ring == s.ring.AfterTake(s.calls[id].len)
            case CopyIn(chunk) => Advance(s, id).ring == s.ring.AfterPut(chunk)
            case Drop => Advance(s, id).ring == s.ring.AfterReset()
            case _ => Advance(s, id).ring == s.ring
  {
  }

  lemma SoundKept(s: State, m: Move)
    requires Sound(s) && Enabled(s, m)
    ensures Sound(Apply(s, m)) && |Apply(s, m).ring.buf| == |s.ring.buf|
  {
    RingKept(s, m);
    if m.Step? {
      StepFrame(s, m.id);
    }
  }

  lemma ConservedKept(s: State, m: Move)
    requires Sound(s) && Conserved(s) && Enabled(s, m)
    ensures Apply(s, m).ring.Valid() && Conserved(Apply(s, m))
  {
    RingKept(s, m);
    if m.Step? {
      match Next(s, m.id).effect
      case CopyOut(got) =>
        BytesOfTagged(s.drained, m.id, got);
        Assoc(Bytes(s.drained), got, Apply(s, m).ring.Contents());
      case CopyIn(chunk) =>
        BytesOfTagged(s.accepted, m.id, chunk);
        Assoc(Bytes(s.drained), s.ring.Contents(), chunk);
      case Drop =>
        BytesOfTagged(s.drained, m.id, s.ring.Contents());
      case _ =>
    }
  }

  lemma WakeupKept(s: State, m: Move)
    requires Sound(s) && MutexInv(s) && WakeupInv(s) && Enabled(s, m)
    ensures Apply(s, m).ring.Valid() && WakeupInv(Apply(s, m))
  {
    RingKept(s, m);
    var s' := Apply(s, m);
    if m.Start? {
      PendingStays(s, s');
    } else {
      StepFrame(s, m.id);
      NextCommits(s, m.id);
      var Progress(next, effect) := Next(s, m.id);
      if effect.Wakes() {
        WakeupAfterBroadcast(s, s', m.id, next);
      } else {
        WakeupAfterQuiet(s, s', m.id, next);
      }
    }
  }

  // A call commits to waiting only on an open buffer that gives it nothing to do, and
  // only the owner of the mutex wakes others.
  lemma NextCommits(s: State, id: Id)
    requires Sound(s) && Enabled(s, Step(id))
    ensures var (c, Progress(next, effect)) := (s.calls[id], Next(s, id));
            && (effect.Wakes() ==> c.Owning() || s.owner == None)
            && (effect.Wakes() ==> !next.Committed() && !next.ReadPoll?)
            && (next.Committed() ==> c.Committed() || !s.closed)
            && (next.ReadPoll? || next.ReadSleep? || next.ReadParked? ==>
                 c.ReadPoll? || c.ReadSleep? || s.ring.Contents() == [])
            && (next.WriteParked? ==> |s.ring.Contents()| == |s.ring.buf|)
            && (effect.Quiet? ==> !c.CloseLock?)
            && (effect.SetFlag? ==> next.CloseLock?)
            && Advance(s, id).closed == (s.closed || effect.SetFlag?)
  {
    Occupancy(s.ring);
  }

  lemma WakeupAfterBroadcast(s: State, s': State, id: Id, next: Call)
    requires MutexInv(s) && Stepped(s, s', id, next, true) && s'.ring.Valid()
    requires s.calls[id].Owning() || s.owner == None
    requires !next.Committed() && !next.ReadPoll?
    ensures WakeupInv(s')
  {
  }

  lemma WakeupAfterQuiet(s: State, s': State, id: Id, next: Call)
    requires s.ring.Valid() && WakeupInv(s) && Stepped(s, s', id, next, false) && s'.ring == s.ring
    requires s'.closed == (s.closed || next.CloseLock?)
    requires next.Committed() ==> s.calls[id].Committed() || !s.closed
    requires next.ReadPoll? || next.ReadSleep? || next.ReadParked? ==> s.ring.Contents() == []
    requires next.WriteParked? ==> |s.ring.Contents()| == |s.ring.buf|
    requires s.calls[id].CloseLock? ==> next.CloseLock?
    ensures WakeupInv(s')
  {
    PendingStays(s, s');
    if next.CloseLock? {
      assert s'.calls[id].CloseLock?;
    }
  }

  lemma PendingStays(s: State, s': State)
    requires |s.calls| <= |s'.calls|
    requires forall i :: 0 <= i < |s.calls| && s.calls[i].CloseLock? ==> s'.calls[i].CloseLock?
    ensures BroadcastPending(s) ==> BroadcastPending(s')
  {
    if BroadcastPending(s) {
      var i :| 0 <= i < |s.calls| && s.calls[i].CloseLock?;
      assert s'.calls[i].CloseLock?;
    }
  }

  lemma EofKept(s: State, m: Move)
    requires Sound(s) && MutexInv(s) && WakeupInv(s) && EofInv(s) && Enabled(s, m)
    ensures Apply(s, m).ring.Valid() && EofInv(Apply(s, m))
  {
    RingKept(s, m);
    Occupancy(s.ring);
    if m.Step? {
      StepFrame(s, m.id);
    }
  }

  lemma ClosedKept(s: State, m: Move)
    requires Sound(s) && ClosedInv(s) && Enabled(s, m)
    ensures ClosedInv(Apply(s, m))
  {
    if m.Step? {
      StepFrame(s, m.id);
    }
  }

  lemma CloseKept(s: State, m: Move)
    requires Sound(s) && CloseInv(s) && Enabled(s, m)
    ensures CloseInv(Apply(s, m))
  {
    if m.Step? {
      StepFrame(s, m.id);
      NextCloses(s, m.id);
      ClosesOnce(s, Apply(s, m), m.id, Next(s, m.id).next, Next(s, m.id).effect.Wakes());
    }
  }

  lemma NextCloses(s: State, id: Id)
    requires Sound(s) && Enabled(s, Step(id))
    ensures var (c, Progress(next, effect)) := (s.calls[id], Next(s, id));
            && Advance(s, id).closed == (s.closed || effect.SetFlag?)
            && (next.CloseLock? ==> effect.SetFlag? && !s.closed)
            && (next.CloseDone? ==> s.closed || c.CloseLock?)
  {
  }

  lemma ClosesOnce(s: State, s': State, id: Id, next: Call, wakes: bool)
    requires CloseInv(s) && Stepped(s, s', id, next, wakes)
    requires next.CloseLock? ==> !s.closed && s'.closed
    requires next.CloseDone? ==> s.closed || s.calls[id].CloseLock?
    requires s.closed ==> s'.closed
    ensures CloseInv(s')
  {
  }

  lemma SharesKept(s: State, m: Move)
    requires Sound(s) && SharesInv(s) && Enabled(s, m)
    ensures Sound(Apply(s, m)) && SharesInv(Apply(s, m))
  {
    SoundKept(s, m);
    var s' := Apply(s, m);
    forall id: Id
      ensures Share(s'.accepted, id) == if id < |s'.calls| then s'.calls[id].Deposited() else []
    {
      AcceptedShare(s, m, id);
    }
    forall id: Id | id < |s'.calls| ==> !s'.calls[id].ResetDone?
      ensures Share(s'.drained, id) == if id < |s'.calls| then s'.calls[id].Returned() else []
    {
      DrainedShare(s, m, id);
    }
  }

  lemma AcceptedShare(s: State, m: Move, id: Id)
    requires Sound(s) && SharesInv(s) && Enabled(s, m)
    ensures Sound(Apply(s, m))
    ensures var s' := Apply(s, m);
            Share(s'.accepted, id) == if id < |s'.calls| then s'.calls[id].Deposited() else []
  {
    SoundKept(s, m);
    if m.Step? {
      StepFrame(s, m.id);
      NextMoves(s, m.id);
      var s' := Apply(s, m);
      var Progress(next, effect) := Next(s, m.id);
      ShareAfterStep(s, s', m.id, next, effect.Wakes(), effect.Chunk(), id);
    }
  }

  // The bytes a step moves are the ones it adds to the account of its call.
  lemma NextMoves(s: State, id: Id)
    requires Sound(s) && Enabled(s, Step(id))
    ensures var (s', Progress(next, effect)) := (Advance(s, id), Next(s, id));
            && s'.accepted == s.accepted + Tag(id, effect.Chunk())
            && next.Deposited() == s.calls[id].Deposited() + effect.Chunk()
            && (!effect.Drop? ==> s'.drained == s.drained + Tag(id, effect.Got()) && next.Returned() == effect.Got())
            && (effect.Drop? ==> s'.drained == s.drained + Tag(id, s.ring.Contents()) && next.ResetDone?)
            && s.calls[id].Returned() == [] && !s.calls[id].ResetDone?
  {
    NextAccounts(s, id);
    AdvanceLogs(s, id);
  }

  lemma NextAccounts(s: State, id: Id)
    requires Sound(s) && Enabled(s, Step(id))
    ensures var (c, Progress(next, effect)) := (s.calls[id], Next(s, id));
            && next.Deposited() == c.Deposited() + effect.Chunk()
            && (if effect.Drop? then next.ResetDone? else next.Returned() == effect.Got())
            && c.Returned() == [] && !c.ResetDone?
  {
    var c := s.calls[id];
    var Progress(next, effect) := Next(s, id);
    assert effect.Chunk() == [] ==> c.Deposited() + effect.Chunk() == c.Deposited();
    if c.WriteStart? {
      assert c.Deposited() == [] == next.Deposited();
    }
  }

  lemma AdvanceLogs(s: State, id: Id)
    requires Sound(s) && Enabled(s, Step(id))
    ensures var (s', effect) := (Advance(s, id), Next(s, id).effect);
            && s'.accepted == s.accepted + Tag(id, effect.Chunk())
            && s'.drained == s.drained + Tag(id, if effect.Drop? then s.ring.Contents() else effect.Got())
  {
    assert Tag(id, []) == [];
    assert s.accepted + [] == s.accepted && s.drained + [] == s.drained;
  }

  lemma ShareAfterStep(s: State, s': State, mover: Id, next: Call, wakes: bool, chunk: seq<Byte>, id: Id)
    requires Sound(s) && Sound(s') && Stepped(s, s', mover, next, wakes)
    requires s'.accepted == s.accepted + Tag(mover, chunk)
    requires next.Deposited() == s.calls[mover].Deposited() + chunk
    requires Share(s.accepted, id) == if id < |s.calls| then s.calls[id].Deposited() else []
    ensures Share(s'.accepted, id) == if id < |s'.calls| then s'.calls[id].Deposited() else []
  {
    ShareOfTagged(s.accepted, id, mover, chunk);
  }

  lemma DrainedShare(s: State, m: Move, id: Id)
    requires Sound(s) && SharesInv(s) && Enabled(s, m)
    requires id < |Apply(s, m).calls| ==> !Apply(s, m).calls[id].ResetDone?
    ensures var s' := Apply(s, m);
            Share(s'.drained, id) == if id < |s'.calls| then s'.calls[id].Returned() else []
  {
    if m.Step? {
      StepFrame(s, m.id);
      NextMoves(s, m.id);
      var Progress(next, effect) := Next(s, m.id);
      var bytes := if effect.Drop? then s.ring.Contents() else effect.Got();
      ReturnedAfterStep(s, Apply(s, m), m.id, next, effect.Wakes(), bytes, id);
    }
  }

  lemma ReturnedAfterStep(s: State, s': State, mover: Id, next: Call, wakes: bool, bytes: seq<Byte>, id: Id)
    requires Stepped(s, s', mover, next, wakes)
    requires s'.drained == s.drained + Tag(mover, bytes)
    requires next.ResetDone? || next.Returned() == s.calls[mover].Returned() + bytes
    requires !(id < |s.calls| && s.calls[id].ResetDone?) ==>
               Share(s.drained, id) == if id < |s.calls| then s.calls[id].Returned() else []
    requires id < |s'.calls| ==> !s'.calls[id].ResetDone?
    requires !s.calls[mover].ResetDone?
    ensures Share(s'.drained, id) == if id < |s'.calls| then s'.calls[id].Returned() else []
  {
    ShareOfTagged(s.drained, id, mover, bytes);
  }

  lemma InvKept(s: State, m: Move)
    requires Inv(s) && Enabled(s, m)
    ensures Inv(Apply(s, m)) && |Apply(s, m).ring.buf| == |s.ring.buf|
  {
    SoundKept(s, m);
    MutexKept(s, m);
    ConservedKept(s, m);
    SharesKept(s, m);
    WakeupKept(s, m);
    ClosedKept(s, m);
    EofKept(s, m);
    CloseKept(s, m);
  }

  // ---------- runs ----------

  // A schedule is legal when each of its moves is enabled in turn.
  ghost predicate Legal(s: State, moves: seq<Move>)
    requires Sound(s)
    decreases |moves|
  {
    moves == [] ||
    (Enabled(s, moves[0]) && (SoundKept(s, moves[0]); Legal(Apply(s, moves[0]), moves[1..])))
  }

  ghost function Run(s: State, moves: seq<Move>): State
    requires Sound(s) && Legal(s, moves)
    decreases |moves|
  {
    if moves == [] then s
    else
      SoundKept(s, moves[0]);
      Run(Apply(s, moves[0]), moves[1..])
  }

  lemma {:induction false} InvAlongRun(s: State, moves: seq<Move>)
    requires Inv(s) && Legal(s, moves)
    ensures Inv(Run(s, moves)) && |Run(s, moves).ring.buf| == |s.ring.buf|
    decreases |moves|
  {
    if moves == [] {
    } else {
      InvKept(s, moves[0]);
      InvAlongRun(Apply(s, moves[0]), moves[1..]);
    }
  }

  // The state after some interleaving of any calls on a new buffer.
  ghost predicate Reachable(size: nat, s: State) {
    exists moves :: Legal(Init(size), moves) && s == Run(Init(size), moves)
  }

  lemma ReachableInv(size: nat, s: State)
    requires Reachable(size, s)
    ensures Inv(s) && |s.ring.buf| == size
  {
    InitInv(size);
    var moves :| Legal(Init(size), moves) && s == Run(Init(size), moves);
    InvAlongRun(Init(size), moves);
  }

  // ---------- results ----------

  // Conservation and order: what went in, in lock order, is what came out, in lock
  // order, followed by what is still stored.
  lemma FifoAcrossInterleavings(size: nat, s: State)
    requires Reachable(size, s)
    ensures s.ring.Valid() && |s.ring.Contents()| <= size
    ensures Bytes(s.accepted) == Bytes(s.drained) + s.ring.Contents()
  {
    ReachableInv(size, s);
    Occupancy(s.ring);
  }

  // Every count and every buffer handed back to a caller is exact, even when the flag
  // flipped in the middle of the call.
  lemma ResultsAreExact(size: nat, s: State, id: Id)
    requires Reachable(size, s) && id < |s.calls|
    ensures match s.calls[id]
            case WriteDone(p, total, closedErr) =>
              && total <= |p| && Share(s.accepted, id) == p[..total]
              && (!closedErr ==> total == |p|) && (closedErr ==> s.closed && (total < |p| || p == []))
            case ReadDone(len, got, eof) =>
              && Share(s.drained, id) == got && |got| <= len
              && (got == [] <==> eof || len == 0) && (eof ==> s.closed)
            case CloseDone => s.closed
            case _ => true
  {
    ReachableInv(size, s);
    assert s.calls[id].WellFormed();
  }

  // However many calls of Close there are, only the one that swapped the flag broadcasts.
  lemma OneBroadcast(size: nat, s: State, i: Id, j: Id)
    requires Reachable(size, s) && i < |s.calls| && j < |s.calls|
    requires s.calls[i].CloseLock? && s.calls[j].CloseLock?
    ensures i == j && s.closed
  {
    ReachableInv(size, s);
  }

  // A Read that finds data takes all that is there and fits its buffer, and is done.
  lemma ReadTakesAll(s: State, id: Id)
    requires Sound(s) && Enabled(s, Step(id)) && s.calls[id].ReadScan?
    ensures var (q, len, s') := (s.ring.Contents(), s.calls[id].len, Apply(s, Step(id)));
            var n := Min(len, |q|);
            && id < |s'.calls| && s'.ring.Valid() && s'.ring.Contents() == q[n..]
            && s'.calls[id] == if q == [] then ReadPoll(len) else ReadDone(len, q[..n], false)
  {
    StepFrame(s, id);
    RingKept(s, Step(id));
    Occupancy(s.ring);
  }

  // A round of Write puts all that is left and fits the ring; it sleeps only if nothing does.
  lemma WritePutsAll(s: State, id: Id)
    requires Sound(s) && Enabled(s, Step(id)) && s.calls[id].WriteFill?
    ensures |s.ring.Contents()| <= |s.ring.buf|
    ensures var (q, c, s') := (s.ring.Contents(), s.calls[id], Apply(s, Step(id)));
            var n := Min(|c.p| - c.total, |s.ring.buf| - |q|);
            && id < |s'.calls| && s'.ring.Valid() && s'.ring.Contents() == q + c.p[c.total..c.total + n]
            && s'.calls[id] == if n > 0 then WriteScan(c.p, c.total + n) else WriteParked(c.p, c.total)
  {
    StepFrame(s, id);
    RingKept(s, Step(id));
    Occupancy(s.ring);
    var c := s.calls[id];
    if s.ring.Available() == 0 {
      assert c.p[c.total..c.total] == [] && s.ring.Contents() + [] == s.ring.Contents();
    } else {
      var chunk := NextChunk(s.ring, c.p, c.total);
      assert c.p[..c.total + |chunk|][c.total..] == chunk;
    }
  }

  // A Reset leaves nothing behind, a Close on a closed buffer does nothing at all, and no other
  // step touches the stored bytes.
  lemma OtherStepsKeepBytes(s: State, id: Id)
    requires Sound(s) && Enabled(s, Step(id)) && !s.calls[id].ReadScan? && !s.calls[id].WriteFill?
    ensures var s' := Apply(s, Step(id));
            && id < |s'.calls| && s'.ring.Valid()
            && (if s.calls[id].ResetLock? then s'.ring.Contents() == [] && s'.calls[id] == ResetDone
                else s'.ring == s.ring)
            && (s.calls[id].CloseStart? && s.closed ==> s' == s.(calls := s.calls[id := CloseDone]))
  {
    RingKept(s, Step(id));
  }

  // Without Reset every drained byte was returned by a Read.
  lemma OnlyReadsDrain(size: nat, s: State, k: nat)
    requires Reachable(size, s) && k < |s.drained|
    ensures var who := s.drained[k].who;
            && who < |s.calls|
            && (|| s.calls[who].ResetDone?
                || (s.calls[who].ReadDone? && s.drained[k].b in s.calls[who].got))
  {
    ReachableInv(size, s);
    ShareContains(s.drained, k);
  }

  lemma {:induction false} ShareContains(log: seq<Moved>, k: nat)
    requires k < |log|
    ensures log[k].b in Share(log, log[k].who)
    decreases |log|
  {
    var n := |log| - 1;
    if k == n {
    } else {
      ShareContains(log[..n], k);
    }
  }

  // A call sleeps only while there is nothing for it to do, or while the broadcast of
  // Close is still to come.
  lemma NoLostWakeup(size: nat, s: State, id: Id)
    requires Reachable(size, s) && id < |s.calls| && s.calls[id].Parked()
    ensures s.calls[id].ReadParked? ==> s.ring.Valid() && s.ring.Contents() == []
    ensures s.calls[id].WriteParked? ==> s.ring.Valid() && |s.ring.Contents()| == size
    ensures s.closed ==> BroadcastPending(s)
  {
    ReachableInv(size, s);
    assert s.calls[id].Committed();
  }

  // With room for at least one byte a reader and a writer never sleep together.
  lemma NeverBothParked(size: nat, s: State, i: Id, j: Id)
    requires Reachable(size, s) && i < |s.calls| && j < |s.calls|
    requires s.calls[i].ReadParked? && s.calls[j].WriteParked?
    ensures size == 0
  {
    NoLostWakeup(size, s, i);
    NoLostWakeup(size, s, j);
  }

  // A buffer of size zero does let them sleep together, so the size is the exact condition.
  lemma EmptyBufferParksBoth()
    ensures exists s :: Reachable(0, s) && |s.calls| == 2 && s.calls[0].ReadParked? && s.calls[1].WriteParked?
  {
    InitInv(0);
    Extend(0, Init(0), []);
    ReachableStep(0, Init(0), Start(ReadStart(1)));
    var s := ParksReader(Apply(Init(0), Start(ReadStart(1))));
    ReachableStep(0, s, Start(WriteStart([7])));
    s := ParksWriter(Apply(s, Start(WriteStart([7]))));
  }

  // A Read on an idle, open and empty buffer goes to sleep.
  lemma ParksReader(s: State) returns (s': State)
    requires Reachable(0, s) && Sound(s) && s == Init(0).(calls := [ReadStart(1)])
    ensures Reachable(0, s') && Sound(s') && s' == s.(calls := [ReadParked(1)])
  {
    s' := StepsTo(s, 0, ReadLock(1), None);
    s' := StepsTo(s', 0, ReadScan(1), Some(0));
    s' := StepsTo(s', 0, ReadPoll(1), Some(0));
    s' := StepsTo(s', 0, ReadSleep(1), Some(0));
    s' := StepsTo(s', 0, ReadParked(1), None);
  }

  // So does a Write on an idle, open and full one; with size zero full and empty coincide.
  lemma ParksWriter(s: State) returns (s': State)
    requires Reachable(0, s) && Sound(s) && s == Init(0).(calls := [ReadParked(1), WriteStart([7])])
    ensures Reachable(0, s') && |s'.calls| == 2 && s'.calls[0].ReadParked? && s'.calls[1].WriteParked?
  {
    s' := StepsTo(s, 1, WriteLock([7], 0), None);
    s' := StepsTo(s', 1, WriteScan([7], 0), Some(1));
    s' := StepsTo(s', 1, WriteFill([7], 0), Some(1));
    s' := StepsTo(s', 1, WriteParked([7], 0), None);
  }

  lemma StepsTo(s: State, id: Id, next: Call, owner: Option<Id>) returns (s': State)
    requires Reachable(0, s) && Sound(s) && Enabled(s, Step(id)) && Next(s, id) == Progress(next, Quiet)
    requires owner == if next.Owning() then Some(id) else if s.calls[id].Owning() then None else s.owner
    ensures Reachable(0, s') && Sound(s') && s' == s.(owner := owner, calls := s.calls[id := next])
  {
    ReachableStep(0, s, Step(id));
    s' := Apply(s, Step(id));
  }

  lemma {:induction false} Extend(size: nat, s: State, moves: seq<Move>)
    requires Reachable(size, s) || s == Init(size)
    requires Sound(s) && Legal(s, moves)
    ensures Reachable(size, s) && Reachable(size, Run(s, moves))
  {
    InitInv(size);
    if s == Init(size) {
      assert Legal(Init(size), []) && Run(Init(size), []) == s;
    }
    var before :| Legal(Init(size), before) && s == Run(Init(size), before);
    RunAppend(Init(size), before, moves);
  }

  lemma {:induction false} RunAppend(s: State, a: seq<Move>, b: seq<Move>)
    requires Sound(s) && Legal(s, a) && Sound(Run(s, a)) && Legal(Run(s, a), b)
    ensures Legal(s, a + b) && Run(s, a + b) == Run(Run(s, a), b)
    decreases |a|
  {
    if a == [] {
      assert a + b == b;
    } else {
      SoundKept(s, a[0]);
      assert (a + b)[0] == a[0] && (a + b)[1..] == a[1..] + b;
      RunAppend(Apply(s, a[0]), a[1..], b);
    }
  }

  lemma OneMove(s: State, m: Move)
    requires Sound(s) && Enabled(s, m)
    ensures Sound(Apply(s, m)) && Legal(s, [m]) && Run(s, [m]) == Apply(s, m)
  {
    SoundKept(s, m);
    var next := Apply(s, m);
    assert [m] != [] && [m][0] == m && [m][1..] == [];
    assert Legal(next, []) && Run(next, []) == next;
    assert Legal(s, [m]);
    assert Run(s, [m]) == Run(next, [m][1..]);
  }

  lemma ReachableStep(size: nat, s: State, m: Move)
    requires Reachable(size, s) && Sound(s) && Enabled(s, m)
    ensures Reachable(size, Apply(s, m)) && Sound(Apply(s, m))
  {
    OneMove(s, m);
    Extend(size, s, [m]);
  }

  // EOF is complete and final: at that point every accepted byte has been handed out,
  // and however the run continues nothing more is accepted or drained.
  lemma {:induction false} EofIsFinal(size: nat, s: State, moves: seq<Move>)
    requires Reachable(size, s) && SomeEof(s) && Sound(s) && Legal(s, moves)
    ensures Bytes(s.accepted) == Bytes(s.drained)
    ensures var later := Run(s, moves);
            later.accepted == s.accepted && later.drained == s.drained && SomeEof(later)
    decreases |moves|
  {
    ReachableInv(size, s);
    if moves == [] {
    } else {
      EofStep(s, moves[0]);
      ReachableStep(size, s, moves[0]);
      EofIsFinal(size, Apply(s, moves[0]), moves[1..]);
    }
  }

  lemma EofStep(s: State, m: Move)
    requires Sound(s) && EofInv(s) && SomeEof(s) && Enabled(s, m)
    ensures var s' := Apply(s, m);
            s'.accepted == s.accepted && s'.drained == s.drained && SomeEof(s')
  {
    var i :| 0 <= i < |s.calls| && s.calls[i].ReadDone? && s.calls[i].eof;
    Occupancy(s.ring);
    if m.Step? {
      StepFrame(s, m.id);
      NextMoves(s, m.id);
    }
    assert Apply(s, m).calls[i] == s.calls[i];
  }

  // ---------- after Close ----------

  ghost predicate SomeFill(s: State) {
    exists id :: 0 <= id < |s.calls| && s.calls[id].WriteFill?
  }

  // On a closed buffer no writer passes its check any more, so the only copy still to come
  // is that of a writer that passed it before.
  lemma StepAfterClose(s: State, m: Move)
    requires Sound(s) && MutexInv(s) && s.closed && Enabled(s, m)
    ensures var s' := Apply(s, m);
            && s'.closed
            && (forall id :: 0 <= id < |s'.calls| && s'.calls[id].WriteFill? ==>
                  id < |s.calls| && s.calls[id].WriteFill?)
            && (s'.accepted == s.accepted
                || (m.Step? && s.calls[m.id].WriteFill? && !SomeFill(s')
                    && s'.accepted == s.accepted + Tag(m.id, Next(s, m.id).effect.Chunk())))
  {
    if m.Step? {
      StepFrame(s, m.id);
      NextMoves(s, m.id);
      var effect := Next(s, m.id).effect;
      assert effect.Chunk() == [] ==> s.accepted + Tag(m.id, effect.Chunk()) == s.accepted;
    }
  }

  lemma {:induction false} NoFillNoDeposit(s: State, moves: seq<Move>)
    requires Inv(s) && Legal(s, moves) && s.closed && !SomeFill(s)
    ensures Run(s, moves).accepted == s.accepted
    decreases |moves|
  {
    if moves == [] {
    } else {
      StepAfterClose(s, moves[0]);
      InvKept(s, moves[0]);
      NoFillNoDeposit(Apply(s, moves[0]), moves[1..]);
    }
  }

  // Once the flag is set at most one more chunk is ever accepted, however many writers
  // there are: from the one that had loaded the flag before.
  lemma {:induction false} CloseStopsWriters(size: nat, s: State, moves: seq<Move>) returns (id: Id, chunk: seq<Byte>)
    requires Reachable(size, s) && Sound(s) && Legal(s, moves) && s.closed
    ensures Run(s, moves).accepted == s.accepted + Tag(id, chunk) && |chunk| <= size
    ensures chunk != [] ==> id < |s.calls| && s.calls[id].WriteFill?
    decreases |moves|
  {
    id, chunk := 0, [];
    assert s.accepted + Tag(id, chunk) == s.accepted;
    if moves == [] {
    } else {
      var m, s' := moves[0], Apply(s, moves[0]);
      ReachableInv(size, s);
      StepAfterClose(s, m);
      ReachableStep(size, s, m);
      ReachableInv(size, s');
      if s'.accepted == s.accepted {
        id, chunk := CloseStopsWriters(size, s', moves[1..]);
      } else {
        id, chunk := m.id, Next(s, m.id).effect.Chunk();
        Occupancy(s.ring);
        NoFillNoDeposit(s', moves[1..]);
      }
    }
  }

  // A Write that starts on a closed buffer can only end with ErrClosed and nothing written.
  lemma {:induction false} WriteAfterCloseFails(s: State, moves: seq<Move>, id: Id)
    requires Inv(s) && Legal(s, moves) && s.closed && id < |s.calls|
    requires s.calls[id].WriteStart? || (s.calls[id].WriteDone? && s.calls[id].total == 0 && s.calls[id].closedErr)
    ensures var later := Run(s, moves);
            && id < |later.calls|
            && (later.calls[id] == s.calls[id] || later.calls[id] == WriteDone(s.calls[id].p, 0, true))
    decreases |moves|
  {
    if moves == [] {
    } else {
      StepAfterClose(s, moves[0]);
      InvKept(s, moves[0]);
      if moves[0].Step? {
        StepFrame(s, moves[0].id);
      }
      WriteAfterCloseFails(Apply(s, moves[0]), moves[1..], id);
    }
  }

  // ---------- progress ----------

  ghost predicate Quiescent(s: State) {
    forall id :: 0 <= id < |s.calls| ==> !Enabled(s, Step(id))
  }

  // When no call can move, each one has returned or sleeps for a reason the caller can
  // see: the buffer is open and empty (for a reader) or full (for a writer). After a
  // Close, every call has returned.
  lemma QuiescenceIsJustified(size: nat, s: State, id: Id)
    requires Reachable(size, s) && Quiescent(s) && id < |s.calls|
    ensures s.calls[id].Done() || (s.calls[id].Parked() && !s.closed)
    ensures s.calls[id].ReadParked? ==> s.ring.Valid() && s.ring.Contents() == []
    ensures s.calls[id].WriteParked? ==> s.ring.Valid() && |s.ring.Contents()| == size
  {
    ReachableInv(size, s);
    assert !Enabled(s, Step(id));
    if s.owner.Some? {
      OwnerCanMove(s);
    } else if s.calls[id].Parked() {
      NoLostWakeup(size, s, id);
      if s.closed {
        BroadcasterCanMove(s);
      }
    }
  }

  lemma OwnerCanMove(s: State)
    requires MutexInv(s) && s.owner.Some?
    ensures exists id :: 0 <= id < |s.calls| && Enabled(s, Step(id))
  {
    assert Enabled(s, Step(s.owner.value));
  }

  lemma BroadcasterCanMove(s: State)
    requires BroadcastPending(s) && s.owner == None
    ensures exists id :: 0 <= id < |s.calls| && Enabled(s, Step(id))
  {
    var id :| 0 <= id < |s.calls| && s.calls[id].CloseLock?;
    assert Enabled(s, Step(id));
  }

  function Total(calls: seq<Call>, f: Call -> nat): nat {
    if calls == [] then 0 else Total(calls[..|calls| - 1], f) + f(calls[|calls| - 1])
  }

  lemma {:induction false} TotalShift(a: seq<Call>, b: seq<Call>, id: int, f: Call -> nat)
    requires |a| == |b|
    requires forall i :: 0 <= i < |a| && i != id ==> f(a[i]) == f(b[i])
    ensures 0 <= id < |a| ==> Total(b, f) == Total(a, f) - f(a[id]) + f(b[id])
    ensures !(0 <= id < |a|) ==> Total(b, f) == Total(a, f)
    decreases |a|
  {
    if a == [] {
    } else {
      TotalShift(a[..|a| - 1], b[..|a| - 1], id, f);
    }
  }

  // What a call still has to get done before it returns; only a broadcast lets others retry.
  function Work(c: Call): nat {
    match c
    case ReadDone(_, _, _) => 0
    case WriteStart(p) => |p| + 1
    case WriteLock(p, total) => if total <= |p| then |p| - total + 1 else 0
    case WriteScan(p, total) => if total <= |p| then |p| - total + 1 else 0
    case WriteFill(p, total) => if total <= |p| then |p| - total + 1 else 0
    case WriteParked(p, total) => if total <= |p| then |p| - total + 1 else 0
    case WriteDone(_, _, _) => 0
    case CloseDone => 0
    case ResetDone => 0
    case _ => 1
  }

  // How far a call is from its next stop.
  function Rank(c: Call): nat {
    match c
    case ReadStart(_) => 6
    case ReadLock(_) => 5
    case ReadScan(_) => 4
    case ReadPoll(_) => 3
    case ReadSleep(_) => 2
    case ReadParked(_) => 1
    case ReadDone(_, _, _) => 0
    case WriteStart(_) => 6
    case WriteLock(_, _) => 5
    case WriteScan(_, _) => 4
    case WriteFill(_, _) => 3
    case WriteParked(_, _) => 1
    case WriteDone(_, _, _) => 0
    case CloseStart => 6
    case CloseLock => 5
    case CloseDone => 0
    case ResetLock => 5
    case ResetDone => 0
  }

  function MovesLeft(calls: seq<Call>): nat {
    Total(calls, Work) * (6 * |calls| + 1) + Total(calls, Rank)
  }

  lemma {:induction false} RankBound(calls: seq<Call>)
    ensures Total(calls, Rank) <= 6 * |calls|
  {
    if calls == [] {
    } else {
      RankBound(calls[..|calls| - 1]);
    }
  }

  lemma WorkShrinks(s: State, id: Id)
    requires Sound(s) && Enabled(s, Step(id))
    ensures var (c, Progress(next, effect)) := (s.calls[id], Next(s, id));
            if effect.Wakes() then Work(next) < Work(c) else Work(next) <= Work(c) && Rank(next) < Rank(c)
  {
  }

  lemma StepsShrink(s: State, id: Id)
    requires Sound(s) && Enabled(s, Step(id))
    ensures MovesLeft(Advance(s, id).calls) < MovesLeft(s.calls)
  {
    var c, c' := s.calls, Advance(s, id).calls;
    StepFrame(s, id);
    WorkShrinks(s, id);
    TotalsShrink(c, c', id, Next(s, id).effect.Wakes());
    Lexicographic(Total(c', Work), Total(c', Rank), Total(c, Work), Total(c, Rank), 6 * |c| + 1);
  }

  lemma TotalsShrink(a: seq<Call>, b: seq<Call>, id: Id, wakes: bool)
    requires id < |a| == |b|
    requires forall i :: 0 <= i < |a| && i != id ==> b[i] == if wakes then a[i].Woken() else a[i]
    requires if wakes then Work(b[id]) < Work(a[id]) else Work(b[id]) <= Work(a[id]) && Rank(b[id]) < Rank(a[id])
    ensures || (Total(b, Work) < Total(a, Work) && Total(b, Rank) < 6 * |a| + 1)
            || (Total(b, Work) <= Total(a, Work) && Total(b, Rank) < Total(a, Rank))
  {
    TotalShift(a, b, id, Work);
    if wakes {
      RankBound(b);
    } else {
      TotalShift(a, b, id, Rank);
    }
  }

  lemma Distributes(a: nat, b: nat, n: nat)
    ensures (a + b) * n == a * n + b * n >= a * n
  {
  }

  lemma Lexicographic(w': nat, r': nat, w: nat, r: nat, n: nat)
    requires (w' < w && r' < n) || (w' <= w && r' < r)
    ensures w' * n + r' < w * n + r
  {
    Distributes(w', w - w', n);
    if w' < w {
      Distributes(1, w - w' - 1, n);
    }
  }

  // No livelock: whatever the scheduler does, the calls under way move only so often
  // before the state is quiescent.
  lemma {:induction false} SchedulesEnd(s: State, moves: seq<Move>)
    requires Sound(s) && Legal(s, moves) && (forall i :: 0 <= i < |moves| ==> moves[i].Step?)
    ensures |moves| <= MovesLeft(s.calls)
    decreases |moves|
  {
    if moves == [] {
    } else {
      StepsShrink(s, moves[0].id);
      SoundKept(s, moves[0]);
      SchedulesEnd(Apply(s, moves[0]), moves[1..]);
    }
  }
}
