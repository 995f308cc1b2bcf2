/**
  The mailbox registers, as the client assumes them: reading LOCK as 0 acquires it, unless the
  requester's reads are filtered; DATAIN and DATAOUT are the ends of a word FIFO; the owner releases
  the mailbox by lowering EXECUTE. What the microcontroller does is given in advance.
 */
module Mailbox {
  import opened Common
  import opened MailboxWire

  datatype Agent = Client | Other

  const CMD_BUSY: nat := 0
  const DATA_READY: nat := 1
  const CMD_COMPLETE: nat := 2
  const CMD_FAILURE: nat := 3

  /** An access by the client; `held` tells whether the client owned the mailbox at that moment. */
  datatype Event =
    | ReadLock(locked: bool)
    | WriteCmd(cmd: Word, held: bool)
    | WriteDlen(len: Word, held: bool)
    | WriteDatain(word: Word, held: bool)
    | WriteExecute(on: bool, held: bool)
    | ReadStatus(status: nat)
    | Delay
    | ReadDlen
    | ReadDataout

  /** The microcontroller's side: STATUS by number of reads, the response, and the error registers. */
  datatype Controller = Controller(status: nat -> nat, respLen: Word, respWords: seq<Word>, fatal: Word, nonFatal: Word)

  /** What the microcontroller finds when EXECUTE rises. */
  datatype Request = Request(cmd: Word, len: Word, words: seq<Word>)

  class Registers {
    const filtered: bool
    const uc: Controller

    var owner: Option<Agent>
    var execute: bool
    var cmd: Word
    var dlen: Word
    var fifo: seq<Word>
    var statusReads: nat
    var received: Option<Request>
    ghost var trace: seq<Event>

    constructor (filtered: bool, uc: Controller, owner: Option<Agent>)
      ensures this.filtered == filtered && this.uc == uc && this.owner == owner && !execute && received == None && trace == []
    {
      this.filtered, this.uc, this.owner := filtered, uc, owner;
      execute, cmd, dlen, fifo, statusReads, received, trace := false, 0, 0, [], 0, None, [];
    }

    ghost predicate Held()
      reads this
    {
      owner == Some(Client)
    }

    method Lock() returns (locked: bool)
      modifies this`owner, this`trace
      ensures locked == (!filtered && old(owner).Some?)
      ensures owner == if !filtered && old(owner).None? then Some(Client) else old(owner)
      ensures trace == old(trace) + [ReadLock(locked)]
    {
      locked := !filtered && owner.Some?;
      if !filtered && owner.None? { owner := Some(Client); }
      trace := trace + [ReadLock(locked)];
    }

    method SetCmd(code: Word)
      modifies this`cmd, this`trace
      ensures cmd == code
      ensures trace == old(trace) + [WriteCmd(code, Held())]
    {
      cmd := code;
      trace := trace + [WriteCmd(code, Held())];
    }

    /** Writing DLEN resets the FIFO. */
    method SetDlen(len: Word)
      modifies this`dlen, this`fifo, this`trace
      ensures dlen == len && fifo == []
      ensures trace == old(trace) + [WriteDlen(len, Held())]
    {
      dlen, fifo := len, [];
      trace := trace + [WriteDlen(len, Held())];
    }

    method Datain(word: Word)
      modifies this`fifo, this`trace
      ensures fifo == old(fifo) + [word]
      ensures trace == old(trace) + [WriteDatain(word, Held())]
    {
      fifo := fifo + [word];
      trace := trace + [WriteDatain(word, Held())];
    }

    /** Raising EXECUTE hands over to the microcontroller, which leaves its response; lowering it releases the mailbox. */
    method SetExecute(on: bool)
      modifies this`execute, this`owner, this`dlen, this`fifo, this`received, this`trace
      ensures trace == old(trace) + [WriteExecute(on, old(Held()))]
      ensures old(owner) != Some(Client) ==> unchanged(`execute, `owner, `dlen, `fifo, `received)
      ensures old(Held()) ==> execute == on
      ensures old(Held()) && on ==> owner == old(owner) && dlen == uc.respLen && fifo == uc.respWords
      ensures old(Held()) && on ==> received == Some(Request(cmd, old(dlen), old(fifo)))
      ensures old(Held()) && !on ==> owner == None && dlen == old(dlen) && fifo == old(fifo) && received == old(received)
    {
      trace := trace + [WriteExecute(on, Held())];
      if owner == Some(Client) {
        execute := on;
        if on {
          received := Some(Request(cmd, dlen, fifo));
          dlen, fifo := uc.respLen, uc.respWords;
        } else {
          owner := None;
        }
      }
    }

    method Status() returns (status: nat)
      modifies this`statusReads, this`trace
      ensures status == uc.status(old(statusReads)) && statusReads == old(statusReads) + 1
      ensures trace == old(trace) + [ReadStatus(status)]
    {
      status := uc.status(statusReads);
      statusReads := statusReads + 1;
      trace := trace + [ReadStatus(status)];
    }

    method Wait()
      modifies this`trace
      ensures trace == old(trace) + [Delay]
    {
      trace := trace + [Delay];
    }

    method Dlen() returns (len: Word)
      modifies this`trace
      ensures len == dlen && trace == old(trace) + [ReadDlen]
    {
      len := dlen;
      trace := trace + [ReadDlen];
    }

    method Dataout() returns (word: Word)
      modifies this`fifo, this`trace
      ensures word == (if old(fifo) == [] then 0 else old(fifo)[0])
      ensures fifo == (if old(fifo) == [] then [] else old(fifo)[1..])
      ensures trace == old(trace) + [ReadDataout]
    {
      word := 0;
      if fifo != [] {
        word := fifo[0];
        fifo := fifo[1..];
      }
      trace := trace + [ReadDataout];
    }
  }

  // ---------- The FIFO functions ----------

  function DatainEvents(words: seq<Word>): seq<Event> {
    seq(|words|, i requires 0 <= i < |words| => WriteDatain(words[i], true))
  }

  /** `mbox_write_fifo_with_limit`; false is BufferTooLargeForMailbox, reported before anything is written. */
  method WriteFifo(m: Registers, buf: seq<Byte>, limit: nat) returns (ok: bool)
    modifies m`dlen, m`fifo, m`trace
    ensures ok <==> |buf| < TWO_TO_THE_32 && |buf| <= limit
    ensures !ok ==> unchanged(m)
    ensures ok ==> m.dlen == |buf| && m.fifo == Pack(buf)
    ensures ok && m.Held() ==> m.trace == old(m.trace) + [WriteDlen(|buf|, true)] + DatainEvents(Pack(buf))
  {
    if |buf| >= TWO_TO_THE_32 || |buf| > limit {
      return false;
    }
    m.SetDlen(|buf|);
    var remaining := buf;
    ghost var start := m.trace;
    while |remaining| >= 4
      invariant m.dlen == |buf| && |m.fifo| + |Pack(remaining)| == |Pack(buf)|
      invariant m.fifo + Pack(remaining) == Pack(buf)
      invariant m.Held() ==> m.trace == start + DatainEvents(m.fifo)
    {
      m.Datain(FromLe(remaining[0], remaining[1], remaining[2], remaining[3]));
      remaining := remaining[4..];
    }
    if remaining != [] {
      m.Datain(PackLast(remaining));
    }
    return true;
  }

  function ReadEvents(n: nat): seq<Event> {
    seq(n, i => ReadDataout)
  }

  lemma ReadEventsStep(before: seq<Event>, n: nat)
    ensures before + ReadEvents(n) + [ReadDataout] == before + ReadEvents(n + 1)
  {
  }

  function Drop(words: seq<Word>, n: nat): seq<Word> {
    if n <= |words| then words[n..] else []
  }

  lemma DropStep(words: seq<Word>, n: nat)
    ensures Drop(Drop(words, n), 1) == Drop(words, n + 1)
  {
  }

  /** `mbox_read_fifo`: fills the first DLEN bytes; the bytes after them are not touched. */
  method ReadFifo(m: Registers, buf: array<Byte>) returns (ok: bool)
    modifies m`fifo, m`trace, buf
    ensures ok <==> m.dlen <= buf.Length
    ensures !ok ==> buf[..] == old(buf[..]) && m.fifo == old(m.fifo) && m.trace == old(m.trace) + [ReadDlen]
    ensures ok ==> buf[..m.dlen] == Unpack(old(m.fifo), m.dlen) && buf[m.dlen..] == old(buf[m.dlen..])
    ensures ok ==> m.fifo == Drop(old(m.fifo), (m.dlen + 3) / 4)
    ensures ok ==> m.trace == old(m.trace) + [ReadDlen] + ReadEvents((m.dlen + 3) / 4)
  {
    var len := m.Dlen();
    if len > buf.Length {
      return false;
    }
    ghost var words := m.fifo;
    var at, k := ReadWholeWords(m, buf, len);
    if at < len {
      ReadWord(m, buf, at, len - at);
      ReadEventsStep(old(m.trace) + [ReadDlen], k);
      assert (len + 3) / 4 == k + 1;
      assert buf[..len] == Unpack(words, len);
    } else {
      assert (len + 3) / 4 == k;
    }
    return true;
  }

  /** The loop over the whole words; `k` of them are read, `at == 4 * k`. */
  method ReadWholeWords(m: Registers, buf: array<Byte>, len: nat) returns (at: nat, ghost k: nat)
    requires len <= buf.Length
    modifies m`fifo, m`trace, buf
    ensures at == 4 * k <= len < 4 * k + 4
    ensures m.fifo == Drop(old(m.fifo), k) && m.trace == old(m.trace) + ReadEvents(k)
    ensures Unpack(old(m.fifo), len) == buf[..at] + Unpack(m.fifo, len - at)
    ensures buf[len..] == old(buf[len..])
  {
    at, k := 0, 0;
    while len - at >= 4
      invariant at == 4 * k <= len
      invariant m.fifo == Drop(old(m.fifo), k) && m.trace == old(m.trace) + ReadEvents(k)
      invariant Unpack(old(m.fifo), len) == buf[..at] + Unpack(m.fifo, len - at)
      invariant buf[len..] == old(buf[len..])
    {
      ghost var done, words := buf[..at], m.fifo;
      UnpackStep(done, words, len - at);
      ReadEventsStep(old(m.trace), k);
      DropStep(old(m.fifo), k);
      ReadWord(m, buf, at, 4);
      assert buf[..at + 4] == done + Unpack(words, 4);
      at, k := at + 4, k + 1;
    }
  }

  lemma UnpackStep(done: seq<Byte>, words: seq<Word>, n: nat)
    requires 4 <= n
    ensures done + Unpack(words, n) == done + Unpack(words, 4) + Unpack(Drop(words, 1), n - 4)
  {
    assert Unpack(words, n) == Unpack(words, 4) + Unpack(Drop(words, 1), n - 4);
  }

  method ReadWord(m: Registers, buf: array<Byte>, at: nat, n: nat)
    requires n <= 4 && at + n <= buf.Length
    modifies m`fifo, m`trace, buf
    ensures m.fifo == Drop(old(m.fifo), 1) && m.trace == old(m.trace) + [ReadDataout]
    ensures buf[..at + n] == old(buf[..at]) + Unpack(old(m.fifo), n)
    ensures buf[at + n..] == old(buf[at + n..])
  {
    var word := m.Dataout();
    StoreWord(buf, at, n, word);
  }

  /** Copies the first `n` bytes of a word into the buffer. */
  method StoreWord(buf: array<Byte>, at: nat, n: nat, word: Word)
    requires n <= 4 && at + n <= buf.Length
    modifies buf
    ensures buf[..at + n] == old(buf[..at]) + ToLe(word)[..n]
    ensures buf[at + n..] == old(buf[at + n..])
  {
    var le := ToLe(word);
    forall i | 0 <= i < n {
      buf[at + i] := le[i];
    }
  }

  /** Writing bytes to the FIFO and reading them back gives the same bytes and leaves the FIFO empty. */
  method Loopback(m: Registers, bytes: seq<Byte>, limit: nat, buf: array<Byte>) returns (ok: bool)
    modifies m, buf
    ensures ok <==> |bytes| < TWO_TO_THE_32 && |bytes| <= limit && |bytes| <= buf.Length
    ensures ok ==> buf[..|bytes|] == bytes && buf[|bytes|..] == old(buf[|bytes|..]) && m.fifo == []
    ensures !ok ==> buf[..] == old(buf[..])
  {
    ok := WriteFifo(m, bytes, limit);
    if ok {
      ok := ReadFifo(m, buf);
      UnpackPack(bytes);
    }
  }
}
