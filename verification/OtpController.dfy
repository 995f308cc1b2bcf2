/**
  The fuse controller's direct access interface (DAI), as the flows assume it: a command takes the
  DAI from idle to busy for some finite number of status polls, and registers written while it is
  busy have no effect. The contents of WDATA and ADDRESS are used when CMD is written.
 */
module OtpController {
  import opened Common
  import opened OtpMap

  const CMD_WRITE: nat := 0x2
  const CMD_DIGEST: nat := 0x4
  const CMD_ZEROIZE: nat := 0x8

  datatype Register = Wdata0 | Wdata1 | Address | Cmd

  /** A register write, and whether the DAI was idle when it happened. */
  datatype RegWrite = RegWrite(reg: Register, value: nat, idle: bool)

  /** Digest and marker rows are 64 bits wide even where seed rows are 32 bits wide. */
  predicate AlwaysWide(w: nat) {
    w == 16 || w == 18 || (20 <= w < REGION_WORDS && ((w - 20) % 6 == 2 || (w - 20) % 6 == 4))
  }

  lemma DigestAndMarkerAreWide(f: Flow, w: nat)
    requires ValidFlow(f)
    ensures AlwaysWide(DigestWord(f)) && AlwaysWide(MarkerWord(f))
    ensures DigestWord(f) % 2 == 0 && MarkerWord(f) % 2 == 0
    ensures SeedWord(f) <= w < DigestWord(f) ==> !AlwaysWide(w)
  {
  }

  /** The partition whose seed starts at word `w`. */
  function PartitionAt(w: nat): (r: Option<Flow>)
    ensures r.Some? ==> ValidFlow(r.value) && SeedWord(r.value) == w
    ensures r.None? ==> forall f :: ValidFlow(f) ==> SeedWord(f) != w
  {
    if w == 0 then Some(Uds)
    else if 20 <= w < REGION_WORDS && (w - 20) % 6 == 0 then Some(Fe((w - 20) / 6))
    else None
  }

  function SeedContents(base: Word, f: Flow, cells: seq<Word>): seq<Word>
    requires |cells| == OTP_WORDS
  {
    seq(SeedWords(f), i requires 0 <= i < SeedWords(f) => cells[Cell(base, SeedWord(f) + i)])
  }

  type Hash = seq<Word> -> (Word, Word)

  /** The digest command on the partition that starts at OTP word `c` fills in its digest. */
  function Digested(base: Word, hash: Hash, cells: seq<Word>, c: nat): (r: seq<Word>)
    requires |cells| == OTP_WORDS && c < OTP_WORDS
    ensures |r| == OTP_WORDS
  {
    match PartitionAt(Relative(base, c))
    case None => cells
    case Some(f) =>
      var d := hash(SeedContents(base, f, cells));
      cells[Cell(base, DigestWord(f)) := d.0][Cell(base, DigestWord(f) + 1) := d.1]
  }

  /** A 64-bit row is an even pair of words. */
  function Written(cells: seq<Word>, c: nat, wide: bool, w0: Word, w1: Word): (r: seq<Word>)
    requires |cells| == OTP_WORDS && c < OTP_WORDS
    ensures |r| == OTP_WORDS
  {
    if wide && c + 1 < OTP_WORDS then cells[c := w0][c + 1 := w1] else cells[c := w0]
  }

  class Dai {
    const base: Word
    const rows64: bool
    const hash: Hash

    var cells: seq<Word>
    var busy: nat
    var address: nat
    var wdata0: Word
    var wdata1: Word
    var rdata0: Word
    var rdata1: Word

    ghost var touched: set<nat>        // OTP words some zeroize command has reached
    ghost var writes: seq<RegWrite>    // every register write
    ghost var history: seq<Fuses>      // the fuses after each command

    ghost function State(): Fuses
      reads this
    {
      Fuses(cells, touched)
    }

    ghost predicate Shape()
      reads this
    {
      base % 8 == 0 && |cells| == OTP_WORDS && address < 4096
    }

    /** Power may have been lost after any command so far: all of those states were crash-safe. */
    ghost predicate Valid()
      reads this
    {
      && Shape()
      && CrashSafe(base, State())
      && forall s :: s in history ==> CrashSafe(base, s)
    }

    constructor (base: Word, rows64: bool, hash: Hash, cells: seq<Word>)
      requires base % 8 == 0 && |cells| == OTP_WORDS
      ensures Valid() && this.base == base && this.rows64 == rows64 && this.hash == hash && this.cells == cells
      ensures touched == {} && writes == [] && history == []
    {
      this.base, this.rows64, this.hash, this.cells := base, rows64, hash, cells;
      busy, address, wdata0, wdata1, rdata0, rdata1 := 0, 0, 0, 0, 0, 0;
      touched, writes, history := {}, [], [];
    }

    /** A read of STATUS, reduced to the configured idle bit. */
    method Poll() returns (idle: bool)
      modifies this`busy
      ensures idle <==> old(busy) == 0
      ensures busy == if old(busy) == 0 then 0 else old(busy) - 1
    {
      idle := busy == 0;
      if busy > 0 { busy := busy - 1; }
    }

    method WriteData(reg: Register, value: Word)
      requires reg.Wdata0? || reg.Wdata1?
      modifies this`wdata0, this`wdata1, this`writes
      ensures writes == old(writes) + [RegWrite(reg, value, busy == 0)]
      ensures wdata0 == if busy == 0 && reg.Wdata0? then value else old(wdata0)
      ensures wdata1 == if busy == 0 && reg.Wdata1? then value else old(wdata1)
    {
      writes := writes + [RegWrite(reg, value, busy == 0)];
      if busy == 0 {
        if reg.Wdata0? { wdata0 := value; } else { wdata1 := value; }
      }
    }

    method WriteAddress(value: nat)
      requires value < 4096
      modifies this`address, this`writes
      ensures writes == old(writes) + [RegWrite(Address, value, busy == 0)]
      ensures address == if busy == 0 then value else old(address)
    {
      writes := writes + [RegWrite(Address, value, busy == 0)];
      if busy == 0 { address := value; }
    }

    /** The words the zeroize command on OTP word `c` reaches. */
    function Reached(c: nat): set<nat>
      requires c < OTP_WORDS
    {
      if (rows64 || AlwaysWide(Relative(base, c))) && c + 1 < OTP_WORDS then {c, c + 1} else {c}
    }

    method WriteCommand(cmd: nat)
      requires Shape()
      modifies this`cells, this`busy, this`rdata0, this`rdata1, this`touched, this`writes, this`history
      ensures Shape()
      ensures writes == old(writes) + [RegWrite(Cmd, cmd, old(busy) == 0)]
      ensures history == old(history) + [State()]
      ensures old(busy) == 0 && cmd == CMD_WRITE ==>
                cells == Written(old(cells), address / 4, rows64, wdata0, wdata1) && touched == old(touched)
      ensures old(busy) == 0 && cmd == CMD_DIGEST ==>
                cells == Digested(base, hash, old(cells), address / 4) && touched == old(touched)
      ensures old(busy) == 0 && cmd == CMD_ZEROIZE ==>
                var c := address / 4;
                && ZeroizeEffect(old(State()), State(), Reached(c))
                && rdata0 == cells[c]
                && (c + 1 in Reached(c) ==> rdata1 == cells[c + 1])
      ensures old(busy) > 0 || cmd !in {CMD_WRITE, CMD_DIGEST, CMD_ZEROIZE} ==> State() == old(State())
    {
      writes := writes + [RegWrite(Cmd, cmd, busy == 0)];
      if busy == 0 {
        var c := address / 4;
        if cmd == CMD_WRITE {
          cells := Written(cells, c, rows64, wdata0, wdata1);
        } else if cmd == CMD_DIGEST {
          cells := Digested(base, hash, cells, c);
        } else if cmd == CMD_ZEROIZE {
          var reached := Reached(c);
          var v0: Word :| cells[c] == ONES ==> v0 == ONES;  // clearing a fuse may fail
          var second := c + 1 in reached;
          if second {
            var v1: Word :| cells[c + 1] == ONES ==> v1 == ONES;
            cells := cells[c + 1 := v1];
            rdata1 := v1;
          }
          cells := cells[c := v0];
          rdata0 := v0;
          touched := touched + reached;
        }
        busy := *;
      }
      history := history + [State()];
    }
  }
}
