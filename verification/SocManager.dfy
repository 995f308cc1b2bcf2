/** The mailbox client: `start_mailbox_exec`, `finish_mailbox_exec`, `mailbox_exec`, `mailbox_exec_req`. */
module SocManager {
  import opened Common
  import opened Checksum
  import opened Mailbox
  import opened MailboxResponse
  import opened MailboxWire

  datatype ApiError =
    | UnableToLockMailbox | UnableToReadMailbox | BufferTooLargeForMailbox
    | MailboxTimeout | MailboxCmdFailed(code: Word) | UnknownCommandStatus(status: nat) | ReadBuffTooSmall
    | MailboxReqTypeTooSmall | MailboxRespTypeTooSmall | MailboxNoResponseData
    | UnacceptableResponse(reason: RespError)

  // ---------- Starting a command ----------

  predicate Fits(buf: seq<Byte>, limit: nat) {
    |buf| < TWO_TO_THE_32 && |buf| <= limit
  }

  /** How a start ends, decided by who owns the mailbox and by the payload's size. */
  function StartResult(filtered: bool, owner: Option<Agent>, buf: seq<Byte>, limit: nat): Result<(), ApiError> {
    if !filtered && owner.Some? then Failure(UnableToLockMailbox)
    else if filtered then Failure(UnableToReadMailbox)
    else if !Fits(buf, limit) then Failure(BufferTooLargeForMailbox)
    else Success(())
  }

  /** Everything a start does to the registers: command, length and payload only under the lock, EXECUTE last. */
  function StartEvents(filtered: bool, owner: Option<Agent>, cmd: Word, buf: seq<Byte>, limit: nat): seq<Event> {
    if !filtered && owner.Some? then [ReadLock(true)]
    else if filtered then [ReadLock(false), ReadLock(false)]
    else
      [ReadLock(false), ReadLock(true), WriteCmd(cmd, true)]
      + if !Fits(buf, limit) then []
        else [WriteDlen(|buf|, true)] + DatainEvents(Pack(buf)) + [WriteExecute(true, true)]
  }

  method StartMailboxExec(m: Registers, cmd: Word, buf: seq<Byte>, limit: nat) returns (r: Result<(), ApiError>)
    modifies m
    ensures r == StartResult(m.filtered, old(m.owner), buf, limit)
    ensures m.trace == old(m.trace) + StartEvents(m.filtered, old(m.owner), cmd, buf, limit)
    ensures m.statusReads == old(m.statusReads)
    // Who holds the lock, whether the reads are filtered and the payload's size decide the outcome, in this order.
    ensures r == Failure(UnableToLockMailbox) <==> !m.filtered && old(m.owner).Some?
    ensures r == Failure(UnableToReadMailbox) <==> m.filtered
    ensures r == Failure(BufferTooLargeForMailbox) <==>
              !m.filtered && old(m.owner).None? && (|buf| >= TWO_TO_THE_32 || |buf| > limit)
    // When EXECUTE rises, the microcontroller finds the command and the whole payload.
    ensures r.Success? ==> m.received == Some(Request(cmd, |buf|, Pack(buf)))
    ensures r.Failure? ==> m.received == old(m.received)
    // An oversized payload leaves the mailbox locked by the client.
    ensures m.owner == if r.Success? || r.error.BufferTooLargeForMailbox? then Some(Client) else old(m.owner)
    ensures r.Success? ==> m.execute && m.dlen == m.uc.respLen && m.fifo == m.uc.respWords
  {
    var locked := m.Lock();
    if locked {
      return Failure(UnableToLockMailbox);
    }
    locked := m.Lock();
    if !locked {
      return Failure(UnableToReadMailbox);
    }
    m.SetCmd(cmd);
    var written := WriteFifo(m, buf, limit);
    if !written {
      return Failure(BufferTooLargeForMailbox);
    }
    m.SetExecute(true);
    return Success(());
  }

  // ---------- Finishing it ----------

  /** The number of delays after which polling gives up; the decrement wraps if the limit is zero. */
  function MaxDelays(maxWait: Word): (r: nat)
    ensures r > 0
  {
    if maxWait == 0 then TWO_TO_THE_32 else maxWait
  }

  /** `k` polls that found the mailbox busy, each followed by a delay. */
  function PollEvents(k: nat): (r: seq<Event>)
    ensures |r| == 2 * k
  {
    if k == 0 then [] else PollEvents(k - 1) + [ReadStatus(CMD_BUSY), Delay]
  }

  /** What polling sees: `k` busy reads, then, unless it gives up, another status. */
  ghost predicate Polled(uc: Controller, first: nat, maxWait: Word, k: nat) {
    && k <= MaxDelays(maxWait)
    && (forall n :: first <= n < first + k ==> uc.status(n) == CMD_BUSY)
    && (k < MaxDelays(maxWait) ==> uc.status(first + k) != CMD_BUSY)
  }

  /** The statuses decide how often polling finds the mailbox busy. */
  lemma PolledOnce(uc: Controller, first: nat, maxWait: Word, j: nat, k: nat)
    requires Polled(uc, first, maxWait, j) && Polled(uc, first, maxWait, k)
    ensures j == k
  {
  }

  /** "At most MAX_WAIT_CYCLES delays" is true of every microcontroller exactly when the limit is positive. */
  lemma DelayBoundIffPositive(maxWait: Word)
    ensures maxWait > 0 <==> forall uc: Controller, first: nat, k: nat :: Polled(uc, first, maxWait, k) ==> k <= maxWait
  {
    if maxWait == 0 {
      assert Polled(Controller(n => CMD_BUSY, 0, [], 0, 0), 0, maxWait, TWO_TO_THE_32);
    }
  }

  /** The polling loop; `k` counts its delays, and `done` is false after a timeout. */
  method Poll(m: Registers, maxWait: Word) returns (done: bool, ghost k: nat)
    modifies m`statusReads, m`trace
    ensures Polled(m.uc, old(m.statusReads), maxWait, k)
    ensures done <==> k < MaxDelays(maxWait)
    ensures m.statusReads == old(m.statusReads) + k + if done then 1 else 0
    ensures m.trace == old(m.trace) + PollEvents(k)
                       + if done then [ReadStatus(m.uc.status(old(m.statusReads) + k))] else []
  {
    var timeoutCycles := maxWait;
    k := 0;
    var status := m.Status();
    while status == CMD_BUSY
      invariant k < MaxDelays(maxWait)
      invariant timeoutCycles == if k == 0 then maxWait else MaxDelays(maxWait) - k
      invariant m.statusReads == old(m.statusReads) + k + 1
      invariant status == m.uc.status(old(m.statusReads) + k)
      invariant forall n :: old(m.statusReads) <= n < old(m.statusReads) + k ==> m.uc.status(n) == CMD_BUSY
      invariant m.trace == old(m.trace) + PollEvents(k) + [ReadStatus(status)]
      decreases MaxDelays(maxWait) - k
    {
      m.Wait();
      timeoutCycles := WrappingAdd(timeoutCycles, -1);
      k := k + 1;
      assert old(m.trace) + PollEvents(k) == old(m.trace) + PollEvents(k - 1) + [ReadStatus(CMD_BUSY), Delay];
      if timeoutCycles == 0 {
        return false, k;
      }
      status := m.Status();
    }
    return true, k;
  }

  /** The events after polling, by the status that is then read. */
  function TailEvents(status: nat, dlen: Word, capacity: nat, held: bool): seq<Event> {
    [ReadStatus(status)]
    + if status == CMD_FAILURE || status == CMD_COMPLETE then [WriteExecute(false, held)]
      else if status != DATA_READY then []
      else if dlen > capacity then [ReadDlen, WriteExecute(false, held)]
      else [ReadDlen, ReadDlen] + ReadEvents((dlen + 3) / 4) + [WriteExecute(false, held)]
  }

  function TailResult(uc: Controller, status: nat, dlen: Word, capacity: nat): Result<Option<nat>, ApiError> {
    if status == CMD_FAILURE then Failure(MailboxCmdFailed(if uc.fatal != 0 then uc.fatal else uc.nonFatal))
    else if status == CMD_COMPLETE then Success(None)
    else if status != DATA_READY then Failure(UnknownCommandStatus(status))
    else if dlen > capacity then Failure(ReadBuffTooSmall)
    else Success(Some(dlen as nat))
  }

  /** All accesses of a finish whose polling finds the mailbox busy `k` times. */
  function FinishEvents(uc: Controller, dlen: Word, held: bool, capacity: nat, maxWait: Word, first: nat, k: nat): seq<Event> {
    PollEvents(k)
    + if k == MaxDelays(maxWait) then []
      else [ReadStatus(uc.status(first + k))] + TailEvents(uc.status(first + k + 1), dlen, capacity, held)
  }

  function FinishResult(uc: Controller, dlen: Word, capacity: nat, maxWait: Word, first: nat, k: nat): Result<Option<nat>, ApiError> {
    if k == MaxDelays(maxWait) then Failure(MailboxTimeout)
    else TailResult(uc, uc.status(first + k + 1), dlen, capacity)
  }

  predicate Releases(r: Result<Option<nat>, ApiError>) {
    r.Success? || (!r.error.MailboxTimeout? && !r.error.UnknownCommandStatus?)
  }

  /** `Some(n)`: the response is the first `n` bytes of the buffer. */
  method FinishMailboxExec(m: Registers, resp: array<Byte>, maxWait: Word)
    returns (r: Result<Option<nat>, ApiError>, ghost k: nat)
    modifies m, resp
    ensures Polled(m.uc, old(m.statusReads), maxWait, k)
    ensures r == FinishResult(m.uc, old(m.dlen), resp.Length, maxWait, old(m.statusReads), k)
    ensures m.trace == old(m.trace) + FinishEvents(m.uc, old(m.dlen), old(m.Held()), resp.Length, maxWait, old(m.statusReads), k)
    ensures m.owner == (if Releases(r) && old(m.Held()) then None else old(m.owner)) && m.received == old(m.received)
    ensures Answered(r, old(m.dlen), old(m.fifo), old(resp[..]), resp[..])
  {
    var done;
    done, k := Poll(m, maxWait);
    ghost var polls := PollEvents(k);
    if !done {
      assert polls + [] == polls;
      return Failure(MailboxTimeout), k;
    }
    ghost var seen := [ReadStatus(m.uc.status(old(m.statusReads) + k))];
    r := HandleStatus(m, resp);
    ghost var tail := TailEvents(m.uc.status(old(m.statusReads) + k + 1), old(m.dlen), resp.Length, old(m.Held()));
    Associate(old(m.trace), polls, seen, tail);
  }

  /** The buffer after an exchange: the response in front if there is one, everything else as it was. */
  ghost predicate Answered(r: Result<Option<nat>, ApiError>, dlen: Word, fifo: seq<Word>, before: seq<Byte>, after: seq<Byte>) {
    if r.Success? && r.value.Some? then
      && r.value.value == dlen <= |before| == |after|
      && after[..dlen] == Unpack(fifo, dlen) && after[dlen..] == before[dlen..]
    else after == before
  }

  /** What follows the polling loop. */
  method HandleStatus(m: Registers, resp: array<Byte>) returns (r: Result<Option<nat>, ApiError>)
    modifies m, resp
    ensures var status := m.uc.status(old(m.statusReads));
            && r == TailResult(m.uc, status, old(m.dlen), resp.Length)
            && m.trace == old(m.trace) + TailEvents(status, old(m.dlen), resp.Length, old(m.Held()))
    ensures m.owner == (if Releases(r) && old(m.Held()) then None else old(m.owner)) && m.received == old(m.received)
    ensures Answered(r, old(m.dlen), old(m.fifo), old(resp[..]), resp[..])
  {
    var status := m.Status();
    if status == CMD_FAILURE {
      m.SetExecute(false);
      return Failure(MailboxCmdFailed(if m.uc.fatal != 0 then m.uc.fatal else m.uc.nonFatal));
    }
    if status == CMD_COMPLETE {
      m.SetExecute(false);
      return Success(None);
    }
    if status != DATA_READY {
      return Failure(UnknownCommandStatus(status));
    }
    var len := ReadResponse(m, resp);
    m.SetExecute(false);
    if len.None? {
      return Failure(ReadBuffTooSmall);
    }
    Associate(old(m.trace), [ReadStatus(status)],
              [ReadDlen, ReadDlen] + ReadEvents((len.value + 3) / 4), [WriteExecute(false, old(m.Held()))]);
    assert old(resp[..])[len.value..] == old(resp[len.value..]);
    return Success(Some(len.value));
  }

  /** `mbox_read_response` */
  method ReadResponse(m: Registers, buf: array<Byte>) returns (len: Option<nat>)
    modifies m`fifo, m`trace, buf
    ensures len == if m.dlen <= buf.Length then Some(m.dlen as nat) else None
    ensures len.None? ==> buf[..] == old(buf[..]) && m.trace == old(m.trace) + [ReadDlen]
    ensures len.Some? ==> buf[..m.dlen] == Unpack(old(m.fifo), m.dlen) && buf[m.dlen..] == old(buf[m.dlen..])
    ensures len.Some? ==> m.trace == old(m.trace) + ([ReadDlen, ReadDlen] + ReadEvents((m.dlen + 3) / 4))
  {
    var dlen := m.Dlen();
    if dlen > buf.Length {
      return None;
    }
    var _ := ReadFifo(m, buf);
    Associate(old(m.trace), [ReadDlen], [ReadDlen], ReadEvents((m.dlen + 3) / 4));
    return Some(dlen);
  }

  // ---------- A whole exchange ----------

  predicate LeavesOwned<T>(r: Result<T, ApiError>) {
    r.Failure? && (r.error.MailboxTimeout? || r.error.UnknownCommandStatus? || r.error.BufferTooLargeForMailbox?)
  }

  /** The accesses of one whole exchange that starts and then polls busy `k` times. */
  function ExchangeEvents(uc: Controller, cmd: Word, buf: seq<Byte>, capacity: nat, maxWait: Word, first: nat, k: nat): seq<Event> {
    StartEvents(false, None, cmd, buf, |buf|) + FinishEvents(uc, uc.respLen, true, capacity, maxWait, first, k)
  }

  /** The response bytes, if they fit. */
  function Response(uc: Controller, capacity: nat): (r: seq<Byte>)
    ensures |r| == if uc.respLen <= capacity then uc.respLen else 0
  {
    if uc.respLen <= capacity then Unpack(uc.respWords, uc.respLen) else []
  }

  method MailboxExec(m: Registers, cmd: Word, buf: seq<Byte>, limit: nat, resp: array<Byte>, maxWait: Word)
    returns (r: Result<Option<nat>, ApiError>, ghost k: nat)
    modifies m, resp
    ensures var started := StartResult(m.filtered, old(m.owner), buf, limit);
            if started.Failure? then
              && r == Failure(started.error) && m.received == old(m.received)
              && m.trace == old(m.trace) + StartEvents(m.filtered, old(m.owner), cmd, buf, limit)
            else
              && m.received == Some(Request(cmd, |buf|, Pack(buf)))
              && Polled(m.uc, old(m.statusReads), maxWait, k)
              && r == FinishResult(m.uc, m.uc.respLen, resp.Length, maxWait, old(m.statusReads), k)
              && m.trace == old(m.trace) + ExchangeEvents(m.uc, cmd, buf, resp.Length, maxWait, old(m.statusReads), k)
    // Timeout, unknown status and oversized payload are exactly the paths that keep an acquired mailbox.
    ensures old(m.owner) != Some(Client) ==> (m.owner == Some(Client) <==> LeavesOwned(r))
    ensures Answered(r, m.uc.respLen, m.uc.respWords, old(resp[..]), resp[..])
  {
    k := 0;
    var started := StartMailboxExec(m, cmd, buf, limit);
    if started.Failure? {
      return Failure(started.error), k;
    }
    r, k := FinishMailboxExec(m, resp, maxWait);
    StartThenFinish(m.uc, m.filtered, old(m.owner), cmd, buf, limit, resp.Length, maxWait, old(m.statusReads), k, old(m.trace));
  }

  lemma StartThenFinish(uc: Controller, filtered: bool, owner: Option<Agent>, cmd: Word, buf: seq<Byte>, limit: nat,
                        capacity: nat, maxWait: Word, first: nat, k: nat, before: seq<Event>)
    requires StartResult(filtered, owner, buf, limit).Success?
    ensures before + StartEvents(filtered, owner, cmd, buf, limit) + FinishEvents(uc, uc.respLen, true, capacity, maxWait, first, k)
            == before + ExchangeEvents(uc, cmd, buf, capacity, maxWait, first, k)
  {
    var start := StartEvents(false, None, cmd, buf, |buf|);
    assert StartEvents(filtered, owner, cmd, buf, limit) == start;
    var finish := FinishEvents(uc, uc.respLen, true, capacity, maxWait, first, k);
    assert before + start + finish == before + (start + finish);
  }

  // ---------- What the event lists mean ----------

  predicate UnderLock(e: Event) {
    match e
    case WriteCmd(_, held) => held
    case WriteDlen(_, held) => held
    case WriteDatain(_, held) => held
    case WriteExecute(_, held) => held
    case _ => true
  }

  /** Every write of a start happens under the lock, and EXECUTE rises at most once, after everything else. */
  lemma StartDiscipline(filtered: bool, owner: Option<Agent>, cmd: Word, buf: seq<Byte>, limit: nat)
    ensures var events := StartEvents(filtered, owner, cmd, buf, limit);
            forall i :: 0 <= i < |events| ==>
              && UnderLock(events[i])
              && (events[i].WriteExecute? <==> StartResult(filtered, owner, buf, limit).Success? && i == |events| - 1)
  {
  }

  /** The payload bytes that the DATAIN writes from position `from` on carry. */
  function Payload(events: seq<Event>, from: nat, len: nat): seq<Byte>
    requires from <= |events|
  {
    Unpack(Words(events[from..]), len)
  }

  function Words(events: seq<Event>): seq<Word> {
    if events == [] then []
    else (if events[0].WriteDatain? then [events[0].word] else []) + Words(events[1..])
  }

  lemma {:induction false} WordsOfDatain(words: seq<Word>, last: Event)
    requires !last.WriteDatain?
    ensures Words(DatainEvents(words) + [last]) == words
  {
    var events := DatainEvents(words) + [last];
    if words == [] {
      assert events[1..] == [];
    } else {
      assert events[1..] == DatainEvents(words[1..]) + [last];
      WordsOfDatain(words[1..], last);
    }
  }

  /**
    What a start writes, event by event: nothing without the lock; with it the command, once; then, unless the
    payload is oversized, its length, once, all of its bytes, and EXECUTE, once and last.
   */
  lemma StartSequence(filtered: bool, owner: Option<Agent>, cmd: Word, buf: seq<Byte>, limit: nat)
    ensures var events := StartEvents(filtered, owner, cmd, buf, limit);
            if filtered || owner.Some? then forall i :: 0 <= i < |events| ==> events[i].ReadLock?
            else
              && |events| >= 3 && events[0] == ReadLock(false) && events[1] == ReadLock(true)
              && events[2] == WriteCmd(cmd, true) && (forall i :: 0 <= i < |events| ==> (events[i].WriteCmd? <==> i == 2))
              && if |buf| >= TWO_TO_THE_32 || |buf| > limit then |events| == 3
                 else
                   && |events| == 5 + (|buf| + 3) / 4
                   && events[3] == WriteDlen(|buf|, true) && (forall i :: 0 <= i < |events| ==> (events[i].WriteDlen? <==> i == 3))
                   && (forall i :: 0 <= i < |events| ==> (events[i].WriteDatain? <==> 4 <= i < |events| - 1))
                   && Payload(events, 4, |buf|) == buf
                   && (forall i :: 0 <= i < |events| ==> (events[i].WriteExecute? <==> i == |events| - 1))
                   && events[|events| - 1] == WriteExecute(true, true)
  {
    var events := StartEvents(filtered, owner, cmd, buf, limit);
    if !filtered && owner.None? && Fits(buf, limit) {
      assert events[4..] == DatainEvents(Pack(buf)) + [WriteExecute(true, true)];
      WordsOfDatain(Pack(buf), WriteExecute(true, true));
      UnpackPack(buf);
    }
  }

  lemma {:induction false} PollSequence(k: nat, i: nat)
    requires i < k
    ensures PollEvents(k)[2 * i] == ReadStatus(0) && PollEvents(k)[2 * i + 1] == Delay
  {
    if i < k - 1 {
      PollSequence(k - 1, i);
    }
  }

  /** What a finish does, event by event, by the number of busy polls and the status read after them. */
  lemma FinishSequence(uc: Controller, dlen: Word, held: bool, capacity: nat, maxWait: Word, first: nat, k: nat)
    requires k <= MaxDelays(maxWait)
    ensures var events := FinishEvents(uc, dlen, held, capacity, maxWait, first, k);
            && |events| >= 2 * k && (forall i :: 0 <= i < k ==> events[2 * i] == ReadStatus(0) && events[2 * i + 1] == Delay)
            && if k == MaxDelays(maxWait) then |events| == 2 * k
               else
                 && |events| >= 2 * k + 2 && events[2 * k] == ReadStatus(uc.status(first + k))
                 && events[2 * k + 1] == ReadStatus(uc.status(first + k + 1))
                 && FinishTail(events[2 * k + 2..], uc.status(first + k + 1), dlen, held, capacity)
  {
    var events := FinishEvents(uc, dlen, held, capacity, maxWait, first, k);
    forall i | 0 <= i < k ensures events[2 * i] == ReadStatus(0) && events[2 * i + 1] == Delay {
      PollSequence(k, i);
    }
    if k < MaxDelays(maxWait) {
      assert events[2 * k + 2..] == TailEvents(uc.status(first + k + 1), dlen, capacity, held)[1..];
    }
  }

  /** After the status: a response is read only if one is ready and fits; EXECUTE is lowered last, unless the status is unknown. */
  ghost predicate FinishTail(events: seq<Event>, status: nat, dlen: Word, held: bool, capacity: nat) {
    if status == 2 || status == 3 then events == [WriteExecute(false, held)]
    else if status != 1 then events == []
    else
      && events != [] && events[|events| - 1] == WriteExecute(false, held)
      && if dlen > capacity then |events| == 2 && events[0] == ReadDlen
         else
           && |events| == 3 + (dlen + 3) / 4 && events[0] == ReadDlen && events[1] == ReadDlen
           && forall i :: 2 <= i < |events| - 1 ==> events[i] == ReadDataout
  }

  /** What a finish answers, by the same two things. */
  lemma FinishOutcome(uc: Controller, dlen: Word, capacity: nat, maxWait: Word, first: nat, k: nat, r: Result<Option<nat>, ApiError>)
    requires k <= MaxDelays(maxWait) && r == FinishResult(uc, dlen, capacity, maxWait, first, k)
    ensures var limit := if maxWait > 0 then maxWait else 0x1_0000_0000;
            r == Failure(MailboxTimeout) <==> k == limit
    ensures r != Failure(MailboxTimeout) ==>
              match uc.status(first + k + 1)
              case 1 => r == if dlen <= capacity then Success(Some(dlen as nat)) else Failure(ReadBuffTooSmall)
              case 2 => r == Success(None)
              case 3 => r == Failure(MailboxCmdFailed(if uc.fatal == 0 then uc.nonFatal else uc.fatal))
              case other => r == Failure(UnknownCommandStatus(other))
  {
  }

  function Delays(events: seq<Event>): nat {
    if events == [] then 0 else Delays(events[..|events| - 1]) + if events[|events| - 1].Delay? then 1 else 0
  }

  function Lowerings(events: seq<Event>): nat {
    if events == [] then 0
    else Lowerings(events[..|events| - 1]) + if events[|events| - 1] == WriteExecute(false, true) then 1 else 0
  }

  lemma {:induction false} CountsAdd(a: seq<Event>, b: seq<Event>)
    ensures Delays(a + b) == Delays(a) + Delays(b) && Lowerings(a + b) == Lowerings(a) + Lowerings(b)
  {
    if b == [] {
      assert a + b == a;
    } else {
      CountsAdd(a, b[..|b| - 1]);
      assert (a + b)[..|a + b| - 1] == a + b[..|b| - 1];
    }
  }

  lemma {:induction false} PollCounts(k: nat)
    ensures Delays(PollEvents(k)) == k && Lowerings(PollEvents(k)) == 0
  {
    if k > 0 {
      PollCounts(k - 1);
      CountsAdd(PollEvents(k - 1), [ReadStatus(CMD_BUSY), Delay]);
      CountsAdd([ReadStatus(CMD_BUSY)], [Delay]);
    }
  }

  lemma {:induction false} NoneCounted(events: seq<Event>)
    requires forall i :: 0 <= i < |events| ==> !events[i].Delay? && events[i] != WriteExecute(false, true)
    ensures Delays(events) == 0 && Lowerings(events) == 0
  {
    if events != [] {
      NoneCounted(events[..|events| - 1]);
    }
  }

  lemma TailCounts(uc: Controller, status: nat, dlen: Word, capacity: nat)
    ensures Delays(TailEvents(status, dlen, capacity, true)) == 0
    ensures Lowerings(TailEvents(status, dlen, capacity, true)) == if Releases(TailResult(uc, status, dlen, capacity)) then 1 else 0
  {
    var tail := TailEvents(status, dlen, capacity, true);
    var front, last := tail[..|tail| - 1], tail[|tail| - 1];
    NoneCounted(front);
  }

  /**
    Over a whole exchange that was started: at most MaxDelays delays, and EXECUTE is lowered exactly once
    unless the exchange timed out or saw an unknown status, when it is not lowered at all.
   */
  lemma ExchangeCounts(uc: Controller, cmd: Word, buf: seq<Byte>, capacity: nat, maxWait: Word, first: nat, k: nat)
    requires |buf| < TWO_TO_THE_32 && Polled(uc, first, maxWait, k)
    ensures var events := ExchangeEvents(uc, cmd, buf, capacity, maxWait, first, k);
            && Delays(events) == k <= MaxDelays(maxWait)
            && Lowerings(events) == if Releases(FinishResult(uc, uc.respLen, capacity, maxWait, first, k)) then 1 else 0
  {
    var start := StartEvents(false, None, cmd, buf, |buf|);
    NoneCounted(start);
    CountsAdd(start, FinishEvents(uc, uc.respLen, true, capacity, maxWait, first, k));
    FinishCounts(uc, capacity, maxWait, first, k);
  }

  lemma FinishCounts(uc: Controller, capacity: nat, maxWait: Word, first: nat, k: nat)
    requires k <= MaxDelays(maxWait)
    ensures var events := FinishEvents(uc, uc.respLen, true, capacity, maxWait, first, k);
            && Delays(events) == k
            && Lowerings(events) == if Releases(FinishResult(uc, uc.respLen, capacity, maxWait, first, k)) then 1 else 0
  {
    PollCounts(k);
    if k == MaxDelays(maxWait) {
      assert FinishEvents(uc, uc.respLen, true, capacity, maxWait, first, k) == PollEvents(k);
    } else {
      var seen := [ReadStatus(uc.status(first + k))];
      var tail := TailEvents(uc.status(first + k + 1), uc.respLen, capacity, true);
      TailCounts(uc, uc.status(first + k + 1), uc.respLen, capacity);
      NoneCounted(seen);
      CountsAdd(seen, tail);
      CountsAdd(PollEvents(k), seen + tail);
    }
  }

  // ---------- Typed requests ----------

  /** The request with its checksum filled in. */
  function SealedRequest(cmd: Word, req: seq<Byte>): (r: seq<Byte>)
    requires |req| >= REQ_HEADER_SIZE
    ensures |r| == |req| && r[4..] == req[4..] && WordAt(r, 0) == ChecksumOf(cmd, r[4..])
  {
    Stamp(ChecksumOf(cmd, req[4..]), req)
  }

  /** What a typed call returns for an answer to the raw exchange. */
  function Typed(r: Result<Option<nat>, ApiError>, resp: seq<Byte>, minSize: nat, size: nat): Result<seq<Byte>, ApiError>
    requires RESP_HEADER_SIZE <= minSize
    requires r.Success? && r.value.Some? ==> r.value.value <= |resp|
  {
    match r
    case Failure(e) => Failure(e)
    case Success(None) => Failure(MailboxNoResponseData)
    case Success(Some(n)) =>
      match Accept(minSize, size, resp[..n])
      case Failure(e) => Failure(UnacceptableResponse(e))
      case Success(bytes) => Success(bytes)
  }

  /** `raw` is what the untyped exchange answers. */
  ghost predicate Exchanged(uc: Controller, started: Result<(), ApiError>, capacity: nat, maxWait: Word, first: nat, k: nat,
                            raw: Result<Option<nat>, ApiError>)
  {
    && (raw.Success? && raw.value.Some? ==> raw.value.value == uc.respLen <= capacity)
    && if started.Failure? then raw == Failure(started.error)
       else Polled(uc, first, maxWait, k) && raw == FinishResult(uc, uc.respLen, capacity, maxWait, first, k)
  }

  /** `mailbox_exec_req`, for a request of `|req|` bytes and a response type of `size` bytes. */
  method MailboxExecReq(m: Registers, cmd: Word, req: seq<Byte>, limit: nat, resp: array<Byte>, maxWait: Word, minSize: nat, size: nat)
    returns (r: Result<seq<Byte>, ApiError>, ghost raw: Result<Option<nat>, ApiError>, ghost k: nat)
    modifies m, resp
    ensures |req| < REQ_HEADER_SIZE ==> r == Failure(MailboxReqTypeTooSmall) && unchanged(m)
    ensures |req| >= REQ_HEADER_SIZE && (size < RESP_HEADER_SIZE || minSize < RESP_HEADER_SIZE) ==>
              r == Failure(MailboxRespTypeTooSmall) && unchanged(m)
    ensures |req| >= REQ_HEADER_SIZE && size >= RESP_HEADER_SIZE && minSize >= RESP_HEADER_SIZE ==>
              && Exchanged(m.uc, StartResult(m.filtered, old(m.owner), req, limit), resp.Length, maxWait, old(m.statusReads), k, raw)
              && (StartResult(m.filtered, old(m.owner), req, limit).Success? ==>
                    m.trace == old(m.trace)
                      + ExchangeEvents(m.uc, cmd, SealedRequest(cmd, req), resp.Length, maxWait, old(m.statusReads), k))
              && r == Typed(raw, Response(m.uc, resp.Length), minSize, size)
              && (raw.Failure? ==> r == Failure(raw.error)) && (raw == Success(None) ==> r == Failure(MailboxNoResponseData))
              && (StartResult(m.filtered, old(m.owner), req, limit).Success? ==>
                    m.received == Some(Request(cmd, |req|, Pack(SealedRequest(cmd, req)))))
  {
    raw, k := Failure(MailboxReqTypeTooSmall), 0;
    if |req| < REQ_HEADER_SIZE {
      return Failure(MailboxReqTypeTooSmall), raw, k;
    }
    if size < RESP_HEADER_SIZE || minSize < RESP_HEADER_SIZE {
      return Failure(MailboxRespTypeTooSmall), raw, k;
    }
    var checksum := CalcChecksum(cmd, req[4..]);
    var sent := Stamp(checksum, req);
    var answer;
    answer, k := MailboxExec(m, cmd, sent, limit, resp, maxWait);
    raw := answer;
    if answer.Failure? {
      return Failure(answer.error), raw, k;
    }
    if answer.value.None? {
      return Failure(MailboxNoResponseData), raw, k;
    }
    var data := resp[..answer.value.value];
    assert data == Response(m.uc, resp.Length)[..answer.value.value];
    var accepted := AcceptResponse(minSize, size, data);
    if accepted.Failure? {
      return Failure(UnacceptableResponse(accepted.error)), raw, k;
    }
    return Success(accepted.value), raw, k;
  }

  method AcceptResponse(minSize: nat, size: nat, data: seq<Byte>) returns (r: Result<seq<Byte>, RespError>)
    requires RESP_HEADER_SIZE <= minSize
    ensures r == Accept(minSize, size, data)
  {
    if |data| < minSize || |data| > size {
      return Failure(UnexpectedLength);
    }
    var actual := CalcResponseChecksum(data[4..]);
    if actual != WordAt(data, 0) {
      return Failure(InvalidChecksum);
    }
    if !AcceptedFips(WordAt(data, 4)) {
      return Failure(InvalidFipsStatus);
    }
    return Success(Padded(data, size));
  }

  /** The microcontroller answers within the time limit, and its answer is `bytes`, queued word by word. */
  ghost predicate Delivers(uc: Controller, bytes: seq<Byte>, capacity: nat, maxWait: Word, first: nat, k: nat) {
    && uc.respLen == |bytes| <= capacity && uc.respWords == Pack(bytes)
    && k < MaxDelays(maxWait) && uc.status(first + k + 1) == DATA_READY
  }

  lemma TypedThroughFifo(uc: Controller, bytes: seq<Byte>, capacity: nat, maxWait: Word, first: nat, k: nat,
                         raw: Result<Option<nat>, ApiError>, minSize: nat, size: nat)
    requires RESP_HEADER_SIZE <= minSize
    requires Delivers(uc, bytes, capacity, maxWait, first, k) && Exchanged(uc, Success(()), capacity, maxWait, first, k, raw)
    ensures Typed(raw, Response(uc, capacity), minSize, size)
            == match Accept(minSize, size, bytes)
               case Failure(e) => Failure(UnacceptableResponse(e))
               case Success(padded) => Success(padded)
  {
    UnpackPack(bytes);
    assert Response(uc, capacity)[..|bytes|] == bytes;
  }

  /**
    End to end: a response whose checksum was populated, sent word by word through the FIFO, is returned
    by the typed call zero-padded.
   */
  lemma PreparedResponseArrives(uc: Controller, msg: seq<Byte>, capacity: nat, maxWait: Word, first: nat, k: nat,
                                raw: Result<Option<nat>, ApiError>, minSize: nat, size: nat)
    requires RESP_HEADER_SIZE <= minSize <= |msg| <= size && AcceptedFips(WordAt(msg, 4))
    requires Delivers(uc, Sealed(msg), capacity, maxWait, first, k) && Exchanged(uc, Success(()), capacity, maxWait, first, k, raw)
    ensures Typed(raw, Response(uc, capacity), minSize, size) == Success(Padded(Sealed(msg), size))
  {
    PreparedIsAccepted(minSize, size, msg);
    TypedThroughFifo(uc, Sealed(msg), capacity, maxWait, first, k, raw, minSize, size);
  }

  /** ... and with any single byte changed on the way, it is refused. */
  lemma CorruptedResponseIsRefused(uc: Controller, msg: seq<Byte>, i: nat, b: Byte, capacity: nat, maxWait: Word, first: nat, k: nat,
                                   raw: Result<Option<nat>, ApiError>, minSize: nat, size: nat)
    requires RESP_HEADER_SIZE <= minSize <= |msg| <= size
    requires i < |msg| && b != Sealed(msg)[i]
    requires Delivers(uc, Sealed(msg)[i := b], capacity, maxWait, first, k)
    requires Exchanged(uc, Success(()), capacity, maxWait, first, k, raw)
    ensures Typed(raw, Response(uc, capacity), minSize, size) == Failure(UnacceptableResponse(InvalidChecksum))
  {
    OneByteIsRejected(minSize, size, msg, i, b);
    TypedThroughFifo(uc, Sealed(msg)[i := b], capacity, maxWait, first, k, raw, minSize, size);
  }
}
