/** `UdsFeProgrammingFlow::program` and `zeroize`, driving the fuse controller. */
module UdsFeFlow {
  import opened Common
  import opened OtpMap
  import opened OtpController

  datatype FlowError =
    | InvalidPartition | TrngError | DmaError
    | MarkerNotCleared | SeedNotCleared | DigestNotCleared

  type FlowResult = Result<(), FlowError>

  /** The bits of the debug-service response register that UDS programming reports in. */
  class DebugService {
    var inProgress: bool
    var success: bool
    var fail: bool

    constructor ()
      ensures !inProgress && !success && !fail
    {
      inProgress, success, fail := false, false, false;
    }
  }

  /** `while !is_dai_idle() {}`: the DAI's countdown is what makes it terminate. */
  method WaitIdle(dai: Dai)
    modifies dai`busy
    ensures dai.busy == 0
  {
    var idle := dai.Poll();
    while !idle
      invariant idle ==> dai.busy == 0
      decreases dai.busy, !idle
    {
      idle := dai.Poll();
    }
  }

  /** Wait, write ADDRESS and CMD, wait: the helper `execute_dai_cmd`, and the digest step of `program`. */
  method ExecuteCommand(dai: Dai, address: nat, cmd: nat)
    requires dai.Shape() && address < 4096 && (cmd == CMD_DIGEST || cmd == CMD_ZEROIZE)
    modifies dai
    ensures dai.Shape() && dai.busy == 0
    ensures dai.writes == old(dai.writes) + CommandWrites(address, cmd)
    ensures dai.history == old(dai.history) + [dai.State()]
    ensures cmd == CMD_DIGEST ==>
              dai.cells == Digested(dai.base, dai.hash, old(dai.cells), address / 4) && dai.touched == old(dai.touched)
    ensures cmd == CMD_ZEROIZE ==>
              var c := address / 4;
              && ZeroizeEffect(old(dai.State()), dai.State(), dai.Reached(c))
              && dai.rdata0 == dai.cells[c]
              && (c + 1 in dai.Reached(c) ==> dai.rdata1 == dai.cells[c + 1])
  {
    WaitIdle(dai);
    dai.WriteAddress(address);
    dai.WriteCommand(cmd);
    WaitIdle(dai);
  }

  function CommandWrites(address: nat, cmd: nat): seq<RegWrite> {
    [RegWrite(Address, address, true), RegWrite(Cmd, cmd, true)]
  }

  // ---------- Programming ----------

  /** The fuses with the first `n` seed words of partition `f` programmed. No row width in sight. */
  function SeedImage(base: Word, f: Flow, cells: seq<Word>, words: seq<Word>, n: nat): (r: seq<Word>)
    requires |cells| == OTP_WORDS && n <= |words|
    ensures |r| == OTP_WORDS
  {
    seq(OTP_WORDS, c requires 0 <= c < OTP_WORDS =>
      var w := Relative(base, c);
      if SeedWord(f) <= w < SeedWord(f) + n then words[w - SeedWord(f)] else cells[c])
  }

  lemma SeedImageNothing(base: Word, f: Flow, cells: seq<Word>, words: seq<Word>)
    requires |cells| == OTP_WORDS
    ensures SeedImage(base, f, cells, words, 0) == cells
  {
    assert forall c :: 0 <= c < OTP_WORDS ==> SeedImage(base, f, cells, words, 0)[c] == cells[c];
  }

  lemma SeedImageStep(base: Word, f: Flow, cells: seq<Word>, words: seq<Word>, n: nat)
    requires |cells| == OTP_WORDS && n < |words| && SeedWord(f) + n < OTP_WORDS
    ensures SeedImage(base, f, cells, words, n + 1)
            == SeedImage(base, f, cells, words, n)[Cell(base, SeedWord(f) + n) := words[n]]
  {
    var after := SeedImage(base, f, cells, words, n)[Cell(base, SeedWord(f) + n) := words[n]];
    forall c | 0 <= c < OTP_WORDS ensures SeedImage(base, f, cells, words, n + 1)[c] == after[c] {
      RelativeCell(base, SeedWord(f) + n);
    }
  }

  /** What programming leaves in the fuses, for either row width. */
  function ProgramImage(base: Word, hash: Hash, f: Flow, cells: seq<Word>, words: seq<Word>): (r: seq<Word>)
    requires |cells| == OTP_WORDS && SeedWords(f) <= |words|
    ensures |r| == OTP_WORDS
  {
    var d := hash(words[..SeedWords(f)]);
    SeedImage(base, f, cells, words, SeedWords(f))
      [Cell(base, DigestWord(f)) := d.0][Cell(base, DigestWord(f) + 1) := d.1]
  }

  /** The register writes of the rows that hold the first `n` seed words. */
  function SeedWrites(base: Word, rows64: bool, f: Flow, words: seq<Word>, n: nat): seq<RegWrite>
    requires ValidFlow(f) && n <= |words|
  {
    if n < RowWords(rows64) then []
    else
      var m := n - RowWords(rows64);
      SeedWrites(base, rows64, f, words, m)
      + RowWrites(rows64, Masked(WrappingAdd(SeedAddress(base, f), 4 * m)), words[m..n])
  }

  lemma SeedWritesStep(base: Word, rows64: bool, f: Flow, words: seq<Word>, n: nat, writes: seq<RegWrite>)
    requires ValidFlow(f) && n + RowWords(rows64) <= |words|
    ensures writes + SeedWrites(base, rows64, f, words, n)
              + RowWrites(rows64, Masked(WrappingAdd(SeedAddress(base, f), 4 * n)), words[n..n + RowWords(rows64)])
            == writes + SeedWrites(base, rows64, f, words, n + RowWords(rows64))
  {
  }

  function RowWords(rows64: bool): nat {
    if rows64 then 2 else 1
  }

  function RowWrites(rows64: bool, address: nat, row: seq<Word>): seq<RegWrite>
    requires |row| == RowWords(rows64)
  {
    [RegWrite(Wdata0, row[0], true)]
    + (if rows64 then [RegWrite(Wdata1, row[1], true)] else [])
    + [RegWrite(Address, address, true), RegWrite(Cmd, CMD_WRITE, true)]
  }

  /** Every register write of a programming run: all while the DAI is idle. */
  function ProgramWrites(base: Word, rows64: bool, f: Flow, words: seq<Word>): seq<RegWrite>
    requires ValidFlow(f) && |words| == 16
  {
    SeedWrites(base, rows64, f, words, SeedWords(f))
    + CommandWrites(Masked(SeedAddress(base, f)), CMD_DIGEST)
  }

  /** The register writes for one chunk of the seed. */
  method WriteRow(dai: Dai, part: seq<Word>, address: nat)
    requires dai.Shape() && |part| == RowWords(dai.rows64) && address < 4096
    modifies dai
    ensures dai.Shape() && dai.touched == old(dai.touched)
    ensures dai.writes == old(dai.writes) + RowWrites(dai.rows64, address, part)
    ensures dai.cells == Written(old(dai.cells), address / 4, dai.rows64, part[0], dai.wdata1)
    ensures dai.rows64 ==> dai.wdata1 == part[1]
    ensures dai.history == old(dai.history) + [dai.State()]
  {
    WaitIdle(dai);
    dai.WriteData(Wdata0, part[0]);
    if |part| > 1 {
      dai.WriteData(Wdata1, part[1]);
    }
    dai.WriteAddress(address);
    dai.WriteCommand(CMD_WRITE);
  }

  /** One iteration over the seed's chunks; `n` words are done. */
  method ProgramRow(dai: Dai, f: Flow, words: seq<Word>, n: nat, ghost cells: seq<Word>)
    requires ValidFlow(f) && dai.Valid() && |cells| == OTP_WORDS
    requires (dai.rows64 ==> n % 2 == 0) && n + RowWords(dai.rows64) <= SeedWords(f) <= |words|
    requires dai.cells == SeedImage(dai.base, f, cells, words, n)
    modifies dai
    ensures old(dai.history) <= dai.history
    ensures dai.Valid() && dai.touched == old(dai.touched)
    ensures dai.cells == SeedImage(dai.base, f, cells, words, n + RowWords(dai.rows64))
    ensures dai.writes == old(dai.writes)
              + RowWrites(dai.rows64, Masked(WrappingAdd(SeedAddress(dai.base, f), 4 * n)), words[n..n + RowWords(dai.rows64)])
  {
    var part := words[n..n + RowWords(dai.rows64)];
    var dest := WrappingAdd(SeedAddress(dai.base, f), 4 * n);
    WriteRow(dai, part, Masked(dest));
    assert dai.cells == SeedImage(dai.base, f, cells, words, n + RowWords(dai.rows64)) by {
      RowAddress(dai.base, f, n);
      WrittenRow(dai.base, dai.rows64, f, cells, words, n, dai.wdata1);
    }
    assert CrashSafe(dai.base, dai.State()) by {
      SeedImageSafe(dai.base, f, cells, words, n, n + RowWords(dai.rows64), dai.touched);
    }
  }

  lemma RowAddress(base: Word, f: Flow, n: nat)
    requires ValidFlow(f) && base % 8 == 0
    ensures Masked(WrappingAdd(SeedAddress(base, f), 4 * n)) / 4 == Cell(base, SeedWord(f) + n)
  {
    FlowAddresses(base, f);
    AddAdd(base, 4 * SeedWord(f), 4 * n);
    MaskedSelects(base, SeedWord(f) + n);
  }

  lemma WrittenRow(base: Word, rows64: bool, f: Flow, cells: seq<Word>, words: seq<Word>, n: nat, wdata1: Word)
    requires ValidFlow(f) && base % 8 == 0 && |cells| == OTP_WORDS
    requires (rows64 ==> n % 2 == 0) && n + RowWords(rows64) <= SeedWords(f) <= |words|
    requires rows64 ==> wdata1 == words[n + 1]
    ensures Written(SeedImage(base, f, cells, words, n), Cell(base, SeedWord(f) + n), rows64, words[n], wdata1)
            == SeedImage(base, f, cells, words, n + RowWords(rows64))
  {
    SeedImageStep(base, f, cells, words, n);
    if rows64 {
      CellPair(base, SeedWord(f) + n);
      SeedImageStep(base, f, cells, words, n + 1);
    }
  }

  lemma SeedImageSafe(base: Word, f: Flow, cells: seq<Word>, words: seq<Word>, m: nat, n: nat, touched: set<nat>)
    requires ValidFlow(f) && |cells| == OTP_WORDS && m <= n <= SeedWords(f) <= |words|
    requires CrashSafe(base, Fuses(SeedImage(base, f, cells, words, m), touched))
    ensures CrashSafe(base, Fuses(SeedImage(base, f, cells, words, n), touched))
  {
    var before, after := SeedImage(base, f, cells, words, m), SeedImage(base, f, cells, words, n);
    SeedImageKeepsMarkers(base, f, cells, words, m, n);
    ProgramSafe(base, Fuses(before, touched), Fuses(after, touched));
  }

  lemma SeedImageKeepsMarkers(base: Word, f: Flow, cells: seq<Word>, words: seq<Word>, m: nat, n: nat)
    requires ValidFlow(f) && |cells| == OTP_WORDS && m <= n <= SeedWords(f) <= |words|
    ensures SameMarkers(base, SeedImage(base, f, cells, words, m), SeedImage(base, f, cells, words, n))
  {
    var before, after := SeedImage(base, f, cells, words, m), SeedImage(base, f, cells, words, n);
    forall g | ValidFlow(g)
      ensures after[Cell(base, MarkerWord(g))] == before[Cell(base, MarkerWord(g))]
      ensures after[Cell(base, MarkerWord(g) + 1)] == before[Cell(base, MarkerWord(g) + 1)]
    {
      RelativeCell(base, MarkerWord(g));
      RelativeCell(base, MarkerWord(g) + 1);
    }
  }

  lemma SeedImageWord(base: Word, f: Flow, cells: seq<Word>, words: seq<Word>, n: nat, i: nat)
    requires |cells| == OTP_WORDS && i < n <= |words| && SeedWord(f) + i < OTP_WORDS
    ensures SeedImage(base, f, cells, words, n)[Cell(base, SeedWord(f) + i)] == words[i]
  {
    RelativeCell(base, SeedWord(f) + i);
  }

  lemma DigestedSeed(base: Word, hash: Hash, f: Flow, cells: seq<Word>, words: seq<Word>)
    requires ValidFlow(f) && |cells| == OTP_WORDS && SeedWords(f) <= |words|
    ensures Digested(base, hash, SeedImage(base, f, cells, words, SeedWords(f)), Cell(base, SeedWord(f)))
            == ProgramImage(base, hash, f, cells, words)
  {
    RelativeCell(base, SeedWord(f));
    PartitionAtSeed(f);
    SeedImageContents(base, f, cells, words);
  }

  lemma PartitionAtSeed(f: Flow)
    requires ValidFlow(f)
    ensures PartitionAt(SeedWord(f)) == Some(f)
  {
  }

  lemma SeedImageContents(base: Word, f: Flow, cells: seq<Word>, words: seq<Word>)
    requires ValidFlow(f) && |cells| == OTP_WORDS && SeedWords(f) <= |words|
    ensures SeedContents(base, f, SeedImage(base, f, cells, words, SeedWords(f))) == words[..SeedWords(f)]
  {
    var contents := SeedContents(base, f, SeedImage(base, f, cells, words, SeedWords(f)));
    forall i | 0 <= i < SeedWords(f) ensures contents[i] == words[i] {
      SeedImageWord(base, f, cells, words, SeedWords(f), i);
    }
  }

  lemma ProgramImageSafe(base: Word, hash: Hash, f: Flow, cells: seq<Word>, words: seq<Word>, touched: set<nat>)
    requires ValidFlow(f) && |cells| == OTP_WORDS && SeedWords(f) <= |words|
    requires CrashSafe(base, Fuses(SeedImage(base, f, cells, words, SeedWords(f)), touched))
    ensures CrashSafe(base, Fuses(ProgramImage(base, hash, f, cells, words), touched))
  {
    var seeded := SeedImage(base, f, cells, words, SeedWords(f));
    var image := ProgramImage(base, hash, f, cells, words);
    forall g | ValidFlow(g)
      ensures image[Cell(base, MarkerWord(g))] == seeded[Cell(base, MarkerWord(g))]
      ensures image[Cell(base, MarkerWord(g) + 1)] == seeded[Cell(base, MarkerWord(g) + 1)]
    {
      DistinctCells(base, MarkerWord(g), DigestWord(f));
      DistinctCells(base, MarkerWord(g), DigestWord(f) + 1);
      DistinctCells(base, MarkerWord(g) + 1, DigestWord(f));
      DistinctCells(base, MarkerWord(g) + 1, DigestWord(f) + 1);
    }
    ProgramSafe(base, Fuses(seeded, touched), Fuses(image, touched));
  }

  lemma DistinctCells(base: Word, v: nat, w: nat)
    requires v != w && v < OTP_WORDS && w < OTP_WORDS
    ensures Cell(base, v) != Cell(base, w)
  {
  }

  /** The seed loop. */
  method ProgramSeed(dai: Dai, f: Flow, words: seq<Word>)
    requires ValidFlow(f) && dai.Valid() && |words| == 16
    modifies dai
    ensures old(dai.history) <= dai.history
    ensures dai.Valid() && dai.touched == old(dai.touched)
    ensures dai.cells == SeedImage(dai.base, f, old(dai.cells), words, SeedWords(f))
    ensures dai.writes == old(dai.writes) + SeedWrites(dai.base, dai.rows64, f, words, SeedWords(f))
  {
    var index, n := 0, 0;
    ghost var cells, writes := dai.cells, dai.writes;
    SeedImageNothing(dai.base, f, cells, words);
    while n < SeedWords(f)
      invariant n <= SeedWords(f) && n == if dai.rows64 then 2 * index else index
      invariant old(dai.history) <= dai.history
      invariant dai.Valid() && dai.touched == old(dai.touched)
      invariant dai.cells == SeedImage(dai.base, f, cells, words, n)
      invariant dai.writes == writes + SeedWrites(dai.base, dai.rows64, f, words, n)
    {
      ProgramRow(dai, f, words, n, cells);
      SeedWritesStep(dai.base, dai.rows64, f, words, n, writes);
      index, n := index + 1, n + RowWords(dai.rows64);
    }
  }

  /** The closure of `program`: the seed, then the digest command. */
  method ProgramFuses(dai: Dai, f: Flow, words: seq<Word>)
    requires ValidFlow(f) && dai.Valid() && |words| == 16
    modifies dai
    ensures old(dai.history) <= dai.history
    ensures dai.Valid() && dai.touched == old(dai.touched) && dai.busy == 0
    ensures dai.cells == ProgramImage(dai.base, dai.hash, f, old(dai.cells), words)
    ensures dai.writes == old(dai.writes) + ProgramWrites(dai.base, dai.rows64, f, words)
  {
    ProgramSeed(dai, f, words);
    ProgramDigest(dai, f, words, old(dai.cells));
  }

  method ProgramDigest(dai: Dai, f: Flow, words: seq<Word>, ghost cells: seq<Word>)
    requires ValidFlow(f) && dai.Valid() && |words| == 16 && |cells| == OTP_WORDS
    requires dai.cells == SeedImage(dai.base, f, cells, words, SeedWords(f))
    modifies dai
    ensures old(dai.history) <= dai.history
    ensures dai.Valid() && dai.touched == old(dai.touched) && dai.busy == 0
    ensures dai.cells == ProgramImage(dai.base, dai.hash, f, cells, words)
    ensures dai.writes == old(dai.writes) + CommandWrites(Masked(SeedAddress(dai.base, f)), CMD_DIGEST)
  {
    DigestStep(dai.base, dai.hash, f, cells, words, dai.touched);
    ExecuteCommand(dai, Masked(SeedAddress(dai.base, f)), CMD_DIGEST);
  }

  lemma DigestStep(base: Word, hash: Hash, f: Flow, cells: seq<Word>, words: seq<Word>, touched: set<nat>)
    requires ValidFlow(f) && base % 8 == 0 && |cells| == OTP_WORDS && SeedWords(f) <= |words|
    requires CrashSafe(base, Fuses(SeedImage(base, f, cells, words, SeedWords(f)), touched))
    ensures Digested(base, hash, SeedImage(base, f, cells, words, SeedWords(f)), Masked(SeedAddress(base, f)) / 4)
            == ProgramImage(base, hash, f, cells, words)
    ensures CrashSafe(base, Fuses(ProgramImage(base, hash, f, cells, words), touched))
  {
    RowAddress(base, f, 0);
    assert WrappingAdd(SeedAddress(base, f), 0) == SeedAddress(base, f);
    DigestedSeed(base, hash, f, cells, words);
    ProgramImageSafe(base, hash, f, cells, words, touched);
  }

  /**
    `program`. `trng` is the generated value, None if the generator failed; `dmaError` is what
    `with_regs_mut` reports after the closure has run.
   */
  method Program(dai: Dai, soc: DebugService, f: Flow, trng: Option<seq<Word>>, dmaError: bool) returns (r: FlowResult)
    requires dai.Valid() && (trng.Some? ==> |trng.value| == 16)
    modifies dai, soc
    ensures old(dai.history) <= dai.history
    ensures dai.Valid() && dai.touched == old(dai.touched)
    ensures r == if !ValidFlow(f) then Failure(InvalidPartition)
                 else if trng.None? then Failure(TrngError)
                 else if dmaError then Failure(DmaError)
                 else Success(())
    ensures var ran := ValidFlow(f) && trng.Some?;
            && dai.cells == (if ran then ProgramImage(dai.base, dai.hash, f, old(dai.cells), trng.value) else old(dai.cells))
            && dai.writes == old(dai.writes) + if ran then ProgramWrites(dai.base, dai.rows64, f, trng.value) else []
    // UDS programming reports success and clears its in-progress bit; leaving through `?` keeps the bit set.
    ensures f.Uds? ==> soc.inProgress == r.Failure?
    ensures f.Uds? ==> soc.success == (r.Success? || old(soc.success)) && soc.fail == (old(soc.fail) && r.Failure?)
    ensures f.Fe? ==> unchanged(soc)
  {
    if !ValidFlow(f) {
      return Failure(InvalidPartition);
    }
    if f.Uds? {
      soc.inProgress := true;
    }
    if trng.None? {
      return Failure(TrngError);
    }
    ProgramFuses(dai, f, trng.value);
    if dmaError {
      return Failure(DmaError);
    }
    if f.Uds? {
      soc.success, soc.fail := true, false;
      soc.inProgress := false;
    }
    return Success(());
  }

  // ---------- What programming means ----------

  /** Seed words in order, digest after them, every other fuse as it was. */
  lemma ProgramImageMeaning(base: Word, hash: Hash, f: Flow, cells: seq<Word>, words: seq<Word>)
    requires ValidFlow(f) && |cells| == OTP_WORDS && SeedWords(f) <= |words|
    ensures var image := ProgramImage(base, hash, f, cells, words);
            && (forall i :: 0 <= i < SeedWords(f) ==> image[Cell(base, SeedWord(f) + i)] == words[i])
            && (image[Cell(base, DigestWord(f))], image[Cell(base, DigestWord(f) + 1)]) == hash(words[..SeedWords(f)])
            && (forall c :: 0 <= c < OTP_WORDS && !DataWord(f, Relative(base, c)) ==> image[c] == cells[c])
  {
    var image := ProgramImage(base, hash, f, cells, words);
    DistinctCells(base, DigestWord(f), DigestWord(f) + 1);
    forall i | 0 <= i < SeedWords(f) ensures image[Cell(base, SeedWord(f) + i)] == words[i] {
      SeedImageWord(base, f, cells, words, SeedWords(f), i);
      DistinctCells(base, SeedWord(f) + i, DigestWord(f));
      DistinctCells(base, SeedWord(f) + i, DigestWord(f) + 1);
    }
    forall c | 0 <= c < OTP_WORDS && !DataWord(f, Relative(base, c)) ensures image[c] == cells[c] {
      RelativeCell(base, DigestWord(f));
      RelativeCell(base, DigestWord(f) + 1);
    }
  }

  // ---------- Zeroization ----------

  predicate Wide(rows64: bool, w: nat) {
    rows64 || AlwaysWide(w)
  }

  ghost predicate Confined(base: Word, f: Flow, before: seq<Word>, after: seq<Word>)
    requires |before| == |after| == OTP_WORDS
  {
    forall c :: 0 <= c < OTP_WORDS && !(SeedWord(f) <= Relative(base, c) < MarkerWord(f) + 2) ==> after[c] == before[c]
  }

  /** The zeroize command on word `w` of partition `f`, at the address the flow computed for it. */
  method ZeroizeRow(dai: Dai, f: Flow, a: Word, ghost w: nat)
    requires ValidFlow(f) && dai.Valid() && a == WrappingAdd(dai.base, 4 * w)
    requires w == MarkerWord(f) || (DataWord(f, w) && MarkerZeroized(dai.base, dai.State(), f))
    requires Wide(dai.rows64, w) ==> w % 2 == 0 && (DataWord(f, w) ==> DataWord(f, w + 1))
    modifies dai
    ensures old(dai.history) <= dai.history
    ensures dai.Valid() && dai.busy == 0
    ensures dai.writes == old(dai.writes) + CommandWrites(Masked(a), CMD_ZEROIZE)
    ensures ZeroizeEffect(old(dai.State()), dai.State(), Row(dai.base, w, Wide(dai.rows64, w)))
    ensures dai.rdata0 == dai.cells[Cell(dai.base, w)]
    ensures Wide(dai.rows64, w) ==> dai.rdata1 == dai.cells[Cell(dai.base, w + 1)]
    ensures DataWord(f, w) ==> MarkerZeroized(dai.base, dai.State(), f)
  {
    MaskedSelects(dai.base, w);
    ReachedRow(dai, w);
    ExecuteCommand(dai, Masked(a), CMD_ZEROIZE);
    if w == MarkerWord(f) {
      DigestAndMarkerAreWide(f, w);
      ZeroizeMarkerSafe(dai.base, f, old(dai.State()), dai.State());
    } else {
      ZeroizeDataSafe(dai.base, f, w, Wide(dai.rows64, w), old(dai.State()), dai.State());
    }
  }

  lemma ReachedRow(dai: Dai, w: nat)
    requires dai.base % 8 == 0 && w < REGION_WORDS && (Wide(dai.rows64, w) ==> w % 2 == 0)
    ensures dai.Reached(Cell(dai.base, w)) == Row(dai.base, w, Wide(dai.rows64, w))
    ensures Wide(dai.rows64, w) ==> Cell(dai.base, w + 1) == Cell(dai.base, w) + 1
  {
    RelativeCell(dai.base, w);
    if w % 2 == 0 {
      CellPair(dai.base, w);
    }
  }

  /** The seed rows are visited only if the end of the address range does not wrap. */
  predicate RangeFits(base: Word, f: Flow)
    requires ValidFlow(f)
  {
    SeedAddress(base, f) + SeedBytes(f) < TWO_TO_THE_32
  }

  /** The register writes of the rows that hold the first `n` words from `start`. */
  function RangeWrites(start: nat, rows64: bool, n: nat): seq<RegWrite> {
    if n < RowWords(rows64) then []
    else
      var m := n - RowWords(rows64);
      RangeWrites(start, rows64, m) + CommandWrites((start + 4 * m) % 4096, CMD_ZEROIZE)
  }

  lemma RangeWritesStep(start: nat, rows64: bool, n: nat, writes: seq<RegWrite>)
    ensures writes + RangeWrites(start, rows64, n) + CommandWrites((start + 4 * n) % 4096, CMD_ZEROIZE)
            == writes + RangeWrites(start, rows64, n + RowWords(rows64))
  {
  }

  function SeedZeroizeWrites(base: Word, rows64: bool, f: Flow): seq<RegWrite>
    requires ValidFlow(f)
  {
    RangeWrites(SeedAddress(base, f), rows64, if RangeFits(base, f) then SeedWords(f) else 0)
  }

  ghost predicate WordsCleared(base: Word, cells: seq<Word>, from: nat, to: nat)
    requires |cells| == OTP_WORDS
  {
    forall w :: from <= w < to ==> WordCleared(base, cells, w)
  }

  /** A command on one row leaves the verdict on the rows before it as it was. */
  lemma EarlierRowsKept(base: Word, before: Fuses, after: Fuses, from: nat, w: nat, wide: bool)
    requires ZeroizeEffect(before, after, Row(base, w, wide)) && w + 1 < OTP_WORDS
    ensures WordsCleared(base, after.cells, from, w) <==> WordsCleared(base, before.cells, from, w)
  {
    forall v | from <= v < w ensures after.cells[Cell(base, v)] == before.cells[Cell(base, v)] {
      DistinctCells(base, v, w);
      DistinctCells(base, v, w + 1);
    }
    assert forall v :: from <= v < w ==> (WordCleared(base, after.cells, v) <==> WordCleared(base, before.cells, v));
  }

  lemma RowConfined(base: Word, f: Flow, before: Fuses, after: Fuses, w: nat, wide: bool)
    requires ValidFlow(f) && ZeroizeEffect(before, after, Row(base, w, wide))
    requires SeedWord(f) <= w < MarkerWord(f) + 2 && (wide ==> w + 1 < MarkerWord(f) + 2)
    ensures Confined(base, f, before.cells, after.cells)
  {
    RelativeCell(base, w);
    RelativeCell(base, w + 1);
  }

  /** Step 2: returns whether every visited row read back as all ones. */
  method ZeroizeSeed(dai: Dai, f: Flow) returns (cleared: bool)
    requires ValidFlow(f) && dai.Valid() && MarkerZeroized(dai.base, dai.State(), f)
    modifies dai
    ensures old(dai.history) <= dai.history
    ensures dai.Valid() && MarkerZeroized(dai.base, dai.State(), f)
    ensures dai.writes == old(dai.writes) + SeedZeroizeWrites(dai.base, dai.rows64, f)
    ensures Confined(dai.base, f, old(dai.cells), dai.cells)
    ensures RangeFits(dai.base, f) ==> (cleared <==> WordsCleared(dai.base, dai.cells, SeedWord(f), DigestWord(f)))
    ensures !RangeFits(dai.base, f) ==> cleared && dai.State() == old(dai.State())
  {
    cleared := true;
    var start, end := SeedAddress(dai.base, f), DigestAddress(dai.base, f);
    var addr, step := start, 4 * RowWords(dai.rows64);
    ghost var k, n, writes := 0, 0, dai.writes;
    RangeOfSeed(dai.base, f);
    while addr < end
      invariant n == (if dai.rows64 then 2 * k else k) && addr == start + 4 * n
      invariant n <= SeedWords(f) && (!RangeFits(dai.base, f) ==> n == 0)
      invariant old(dai.history) <= dai.history
      invariant dai.Valid() && MarkerZeroized(dai.base, dai.State(), f)
      invariant dai.writes == writes + RangeWrites(start, dai.rows64, n)
      invariant Confined(dai.base, f, old(dai.cells), dai.cells)
      invariant cleared <==> WordsCleared(dai.base, dai.cells, SeedWord(f), SeedWord(f) + n)
      invariant n == 0 ==> dai.State() == old(dai.State())
    {
      cleared := ZeroizeSeedRow(dai, f, addr, n, k, cleared, old(dai.cells), writes);
      addr, n, k := addr + step, n + RowWords(dai.rows64), k + 1;
    }
  }

  lemma EvenWord(f: Flow, k: nat)
    ensures (SeedWord(f) + 2 * k) % 2 == 0
  {
  }

  lemma RangeOfSeed(base: Word, f: Flow)
    requires ValidFlow(f)
    ensures if RangeFits(base, f) then DigestAddress(base, f) == SeedAddress(base, f) + SeedBytes(f)
            else DigestAddress(base, f) < SeedAddress(base, f)
  {
  }

  lemma AddressOfWord(base: Word, f: Flow, w: nat)
    requires ValidFlow(f) && SeedWord(f) <= w
    requires SeedAddress(base, f) + 4 * (w - SeedWord(f)) < TWO_TO_THE_32
    ensures SeedAddress(base, f) + 4 * (w - SeedWord(f)) == WrappingAdd(base, 4 * w)
  {
    FlowAddresses(base, f);
    AddAdd(base, 4 * SeedWord(f), 4 * (w - SeedWord(f)));
    NoWrap(SeedAddress(base, f), 4 * (w - SeedWord(f)));
  }

  lemma NoWrap(a: Word, n: nat)
    requires a + n < TWO_TO_THE_32
    ensures WrappingAdd(a, n) == a + n
  {
  }

  /** One iteration of the loop over the seed rows, after `k` rows or `n` words. */
  method ZeroizeSeedRow(dai: Dai, f: Flow, addr: Word, ghost n: nat, ghost k: nat, ok: bool,
                        ghost cells: seq<Word>, ghost writes: seq<RegWrite>) returns (cleared: bool)
    requires ValidFlow(f) && dai.Valid() && MarkerZeroized(dai.base, dai.State(), f)
    requires n == (if dai.rows64 then 2 * k else k) && n < SeedWords(f)
    requires addr == SeedAddress(dai.base, f) + 4 * n
    requires |cells| == OTP_WORDS && Confined(dai.base, f, cells, dai.cells)
    requires dai.writes == writes + RangeWrites(SeedAddress(dai.base, f), dai.rows64, n)
    requires ok <==> WordsCleared(dai.base, dai.cells, SeedWord(f), SeedWord(f) + n)
    modifies dai
    ensures old(dai.history) <= dai.history
    ensures dai.Valid() && MarkerZeroized(dai.base, dai.State(), f)
    ensures dai.writes == writes + RangeWrites(SeedAddress(dai.base, f), dai.rows64, n + RowWords(dai.rows64))
    ensures Confined(dai.base, f, cells, dai.cells)
    ensures cleared <==> WordsCleared(dai.base, dai.cells, SeedWord(f), SeedWord(f) + n + RowWords(dai.rows64))
  {
    ghost var before := dai.State();
    RowsFit(f, dai.rows64, n, k);
    var ones := ZeroizeAndCheck(dai, f, addr, SeedWord(f) + n, k);
    cleared := ok && ones;
    RangeWritesStep(SeedAddress(dai.base, f), dai.rows64, n, writes);
    SeedRowDone(dai.base, f, cells, before, dai.State(), SeedWord(f) + n, dai.rows64);
  }

  /** A row that starts inside the seed ends inside it. */
  lemma RowsFit(f: Flow, rows64: bool, n: nat, k: nat)
    requires n == (if rows64 then 2 * k else k) && n < SeedWords(f)
    ensures n + RowWords(rows64) <= SeedWords(f)
  {
  }

  /** One seed row: the command, then the check at the row's width. */
  method ZeroizeAndCheck(dai: Dai, f: Flow, addr: Word, ghost w: nat, ghost k: nat) returns (ones: bool)
    requires ValidFlow(f) && dai.Valid() && MarkerZeroized(dai.base, dai.State(), f)
    requires w == SeedWord(f) + (if dai.rows64 then 2 * k else k) && w + RowWords(dai.rows64) <= DigestWord(f)
    requires addr == SeedAddress(dai.base, f) + 4 * (w - SeedWord(f))
    modifies dai
    ensures old(dai.history) <= dai.history
    ensures dai.Valid() && MarkerZeroized(dai.base, dai.State(), f)
    ensures dai.writes == old(dai.writes) + CommandWrites(Masked(addr), CMD_ZEROIZE)
    ensures ZeroizeEffect(old(dai.State()), dai.State(), Row(dai.base, w, dai.rows64))
    ensures ones <==> WordCleared(dai.base, dai.cells, w) && (dai.rows64 ==> WordCleared(dai.base, dai.cells, w + 1))
  {
    AddressOfWord(dai.base, f, w);
    EvenWord(f, k);
    DigestAndMarkerAreWide(f, w);
    ZeroizeRow(dai, f, addr, w);
    ones := true;
    if dai.rdata0 != ONES {
      ones := false;
    }
    if dai.rows64 {
      if dai.rdata1 != ONES {
        ones := false;
      }
    }
  }

  lemma SeedRowDone(base: Word, f: Flow, cells: seq<Word>, before: Fuses, after: Fuses, w: nat, pair: bool)
    requires ValidFlow(f) && |cells| == OTP_WORDS && ZeroizeEffect(before, after, Row(base, w, pair))
    requires SeedWord(f) <= w && w + RowWords(pair) <= DigestWord(f) && Confined(base, f, cells, before.cells)
    ensures Confined(base, f, cells, after.cells)
    ensures WordsCleared(base, after.cells, SeedWord(f), w + RowWords(pair))
            <==> && WordsCleared(base, before.cells, SeedWord(f), w)
                 && WordCleared(base, after.cells, w) && (pair ==> WordCleared(base, after.cells, w + 1))
  {
    EarlierRowsKept(base, before, after, SeedWord(f), w, pair);
    RowConfined(base, f, before, after, w, pair);
    WordsClearedSplit(base, after.cells, SeedWord(f), w, pair);
  }

  lemma WordsClearedSplit(base: Word, cells: seq<Word>, from: nat, w: nat, pair: bool)
    requires |cells| == OTP_WORDS && from <= w
    ensures WordsCleared(base, cells, from, w + RowWords(pair))
            <==> WordsCleared(base, cells, from, w) && WordCleared(base, cells, w) && (pair ==> WordCleared(base, cells, w + 1))
  {
  }

  /** Step 3, with its read-back check. */
  method ZeroizeDigest(dai: Dai, f: Flow) returns (cleared: bool)
    requires ValidFlow(f) && dai.Valid() && MarkerZeroized(dai.base, dai.State(), f)
    modifies dai
    ensures old(dai.history) <= dai.history
    ensures dai.Valid() && MarkerZeroized(dai.base, dai.State(), f)
    ensures dai.writes == old(dai.writes) + CommandWrites(Masked(DigestAddress(dai.base, f)), CMD_ZEROIZE)
    ensures Confined(dai.base, f, old(dai.cells), dai.cells)
    ensures cleared <==> PairCleared(dai.base, dai.cells, DigestWord(f))
    ensures WordsCleared(dai.base, dai.cells, SeedWord(f), DigestWord(f))
            <==> WordsCleared(dai.base, old(dai.cells), SeedWord(f), DigestWord(f))
  {
    FlowAddresses(dai.base, f);
    DigestAndMarkerAreWide(f, DigestWord(f));
    ZeroizeRow(dai, f, DigestAddress(dai.base, f), DigestWord(f));
    cleared := dai.rdata0 == ONES && dai.rdata1 == ONES;
    EarlierRowsKept(dai.base, old(dai.State()), dai.State(), SeedWord(f), DigestWord(f), true);
    RowConfined(dai.base, f, old(dai.State()), dai.State(), DigestWord(f), true);
  }

  /** Step 1, with its read-back check: the order that makes an interrupted zeroization safe. */
  method ZeroizeMarker(dai: Dai, f: Flow) returns (cleared: bool)
    requires ValidFlow(f) && dai.Valid()
    modifies dai
    ensures old(dai.history) <= dai.history
    ensures dai.Valid()
    ensures dai.writes == old(dai.writes) + CommandWrites(Masked(MarkerAddress(dai.base, f)), CMD_ZEROIZE)
    ensures Confined(dai.base, f, old(dai.cells), dai.cells)
    ensures cleared <==> PairCleared(dai.base, dai.cells, MarkerWord(f))
    ensures cleared ==> MarkerZeroized(dai.base, dai.State(), f)
  {
    FlowAddresses(dai.base, f);
    DigestAndMarkerAreWide(f, MarkerWord(f));
    ZeroizeRow(dai, f, MarkerAddress(dai.base, f), MarkerWord(f));
    cleared := dai.rdata0 == ONES && dai.rdata1 == ONES;
    RowConfined(dai.base, f, old(dai.State()), dai.State(), MarkerWord(f), true);
  }

  /** The verdict of a zeroization, read off the fuses it leaves. */
  ghost function Verdict(base: Word, f: Flow, cells: seq<Word>): FlowResult
    requires ValidFlow(f) && |cells| == OTP_WORDS
  {
    if !PairCleared(base, cells, MarkerWord(f)) then Failure(MarkerNotCleared)
    else if !PairCleared(base, cells, DigestWord(f)) then Failure(DigestNotCleared)
    else if RangeFits(base, f) && !WordsCleared(base, cells, SeedWord(f), DigestWord(f)) then Failure(SeedNotCleared)
    else Success(())
  }

  /** The register writes of a zeroization: none after a marker that did not clear, all of them otherwise. */
  function ZeroizeWrites(base: Word, rows64: bool, f: Flow, markerCleared: bool): seq<RegWrite>
    requires ValidFlow(f)
  {
    CommandWrites(Masked(MarkerAddress(base, f)), CMD_ZEROIZE)
    + if !markerCleared then []
      else SeedZeroizeWrites(base, rows64, f) + CommandWrites(Masked(DigestAddress(base, f)), CMD_ZEROIZE)
  }

  /** The closure of `zeroize`. */
  method ZeroizeFuses(dai: Dai, f: Flow) returns (r: FlowResult)
    requires ValidFlow(f) && dai.Valid()
    modifies dai
    ensures old(dai.history) <= dai.history
    ensures dai.Valid()
    ensures r == Verdict(dai.base, f, dai.cells)
    ensures dai.writes == old(dai.writes)
              + ZeroizeWrites(dai.base, dai.rows64, f, PairCleared(dai.base, dai.cells, MarkerWord(f)))
    ensures Confined(dai.base, f, old(dai.cells), dai.cells)
  {
    var marker := ZeroizeMarker(dai, f);
    if !marker {
      return Failure(MarkerNotCleared);
    }
    var seed := ZeroizeSeed(dai, f);
    var digest := ZeroizeDigest(dai, f);
    Associate(old(dai.writes), CommandWrites(Masked(MarkerAddress(dai.base, f)), CMD_ZEROIZE),
              SeedZeroizeWrites(dai.base, dai.rows64, f), CommandWrites(Masked(DigestAddress(dai.base, f)), CMD_ZEROIZE));
    if !digest {
      return Failure(DigestNotCleared);
    }
    return if seed then Success(()) else Failure(SeedNotCleared);
  }

  /** Word `w` of the region reads all ones. */
  ghost predicate ReadsOnes(base: Word, cells: seq<Word>, w: nat)
    requires |cells| == OTP_WORDS
  {
    cells[Cell(base, w)] == 0xFFFF_FFFF
  }

  /** The result, by what marker, digest and seed words read; the seed counts only if its range does not wrap. */
  ghost predicate Reports(base: Word, f: Flow, cells: seq<Word>, r: FlowResult)
    requires ValidFlow(f) && |cells| == OTP_WORDS
  {
    var marker := ReadsOnes(base, cells, MarkerWord(f)) && ReadsOnes(base, cells, MarkerWord(f) + 1);
    var digest := ReadsOnes(base, cells, DigestWord(f)) && ReadsOnes(base, cells, DigestWord(f) + 1);
    var seed := forall w :: SeedWord(f) <= w < DigestWord(f) ==> ReadsOnes(base, cells, w);
    var fits := SeedAddress(base, f) + SeedBytes(f) < 0x1_0000_0000;
    && (r == Failure(MarkerNotCleared) <==> !marker)
    && (r == Failure(DigestNotCleared) <==> marker && !digest)
    && (r == Failure(SeedNotCleared) <==> marker && digest && fits && !seed)
    && (r == Success(()) <==> marker && digest && (fits ==> seed))
  }

  lemma VerdictReports(base: Word, f: Flow, cells: seq<Word>)
    requires ValidFlow(f) && |cells| == OTP_WORDS
    ensures Reports(base, f, cells, Verdict(base, f, cells))
  {
    assert forall w: nat :: WordCleared(base, cells, w) <==> ReadsOnes(base, cells, w);
  }

  /** `zeroize`. `dmaError` is what `with_regs_mut` reports after the closure has run. */
  method Zeroize(dai: Dai, f: Flow, dmaError: bool) returns (r: FlowResult)
    requires dai.Valid()
    modifies dai
    ensures old(dai.history) <= dai.history
    ensures dai.Valid()
    ensures !ValidFlow(f) ==> r == Failure(InvalidPartition) && dai.cells == old(dai.cells) && dai.writes == old(dai.writes)
    ensures ValidFlow(f) ==> r == if dmaError then Failure(DmaError) else Verdict(dai.base, f, dai.cells)
    ensures ValidFlow(f) ==>
              dai.writes == old(dai.writes)
                + ZeroizeWrites(dai.base, dai.rows64, f, PairCleared(dai.base, dai.cells, MarkerWord(f)))
    ensures ValidFlow(f) ==> Confined(dai.base, f, old(dai.cells), dai.cells)
    // Which failure is reported: the marker's before the digest's, the digest's before the seed's.
    ensures ValidFlow(f) && !dmaError ==> Reports(dai.base, f, dai.cells, r)
  {
    if !ValidFlow(f) {
      return Failure(InvalidPartition);
    }
    var verdict := ZeroizeFuses(dai, f);
    VerdictReports(dai.base, f, dai.cells);
    return if dmaError then Failure(DmaError) else verdict;
  }

  // ---------- What the verdict means ----------

  /**
    Ok implies that the whole seed reads as all ones, whatever the fuses hold, exactly when the end of
    the seed's address range does not wrap around 32 bits; if it wraps, no seed row is visited at all.
   */
  lemma OkMeansSeedClearedIffRangeFits(base: Word, f: Flow)
    requires ValidFlow(f)
    ensures RangeFits(base, f) <==>
            forall cells: seq<Word> :: |cells| == OTP_WORDS && Verdict(base, f, cells).Success? ==>
              WordsCleared(base, cells, SeedWord(f), DigestWord(f))
  {
    if !RangeFits(base, f) {
      var cells := seq(OTP_WORDS, c requires 0 <= c < OTP_WORDS =>
        if DigestWord(f) <= Relative(base, c) < MarkerWord(f) + 2 then ONES else 0);
      forall w | SeedWord(f) <= w < MarkerWord(f) + 2 ensures WordCleared(base, cells, w) <==> DigestWord(f) <= w {
        RelativeCell(base, w);
      }
      assert PairCleared(base, cells, MarkerWord(f)) && PairCleared(base, cells, DigestWord(f));
      assert !WordCleared(base, cells, SeedWord(f));
    }
  }

  /** Where the range fits, Ok is returned exactly when marker, seed and digest all read as all ones. */
  lemma OkIffAllCleared(base: Word, f: Flow, cells: seq<Word>)
    requires ValidFlow(f) && |cells| == OTP_WORDS && RangeFits(base, f)
    ensures Verdict(base, f, cells).Success? <==> WordsCleared(base, cells, SeedWord(f), MarkerWord(f) + 2)
  {
    assert WordsCleared(base, cells, SeedWord(f), MarkerWord(f) + 2)
      <==> && WordsCleared(base, cells, SeedWord(f), DigestWord(f))
           && PairCleared(base, cells, DigestWord(f)) && PairCleared(base, cells, MarkerWord(f));
  }

  // ---------- Registers are written only while the DAI is idle ----------

  ghost predicate IdleOnly(writes: seq<RegWrite>) {
    forall i :: 0 <= i < |writes| ==> writes[i].idle
  }

  lemma {:induction false} SeedWritesIdle(base: Word, rows64: bool, f: Flow, words: seq<Word>, n: nat)
    requires ValidFlow(f) && n <= |words|
    ensures IdleOnly(SeedWrites(base, rows64, f, words, n))
  {
    if n >= RowWords(rows64) {
      SeedWritesIdle(base, rows64, f, words, n - RowWords(rows64));
    }
  }

  lemma {:induction false} RangeWritesIdle(start: nat, rows64: bool, n: nat)
    ensures IdleOnly(RangeWrites(start, rows64, n))
  {
    if n >= RowWords(rows64) {
      RangeWritesIdle(start, rows64, n - RowWords(rows64));
    }
  }

  lemma ProgramWritesIdle(base: Word, rows64: bool, f: Flow, words: seq<Word>)
    requires ValidFlow(f) && |words| == 16
    ensures IdleOnly(ProgramWrites(base, rows64, f, words))
  {
    SeedWritesIdle(base, rows64, f, words, SeedWords(f));
  }

  lemma ZeroizeWritesIdle(base: Word, rows64: bool, f: Flow, markerCleared: bool)
    requires ValidFlow(f)
    ensures IdleOnly(ZeroizeWrites(base, rows64, f, markerCleared))
  {
    RangeWritesIdle(SeedAddress(base, f), rows64, if RangeFits(base, f) then SeedWords(f) else 0);
  }

  // ---------- Any sequence of calls ----------

  datatype Op =
    | ProgramOp(f: Flow, trng: Option<seq<Word>>, dmaError: bool)
    | ZeroizeOp(f: Flow, dmaError: bool)

  /**
    Starting from untouched fuses, every state in which any sequence of calls can be cut off is crash-safe,
    and no register was ever written while the DAI was busy.
   */
  method RunFlows(base: Word, rows64: bool, hash: Hash, cells: seq<Word>, ops: seq<Op>) returns (dai: Dai)
    requires base % 8 == 0 && |cells| == OTP_WORDS
    requires forall op :: op in ops && op.ProgramOp? && op.trng.Some? ==> |op.trng.value| == 16
    ensures fresh(dai) && dai.base == base
    ensures forall s :: s in dai.history ==> CrashSafe(base, s)
    ensures CrashSafe(base, dai.State())
    ensures IdleOnly(dai.writes)
  {
    dai := new Dai(base, rows64, hash, cells);
    var soc := new DebugService();
    for i := 0 to |ops|
      invariant fresh(dai) && fresh(soc) && dai.base == base && dai.Valid() && IdleOnly(dai.writes)
    {
      var _ := Call(dai, soc, ops[i]);
    }
  }

  method Call(dai: Dai, soc: DebugService, op: Op) returns (r: FlowResult)
    requires dai.Valid() && (op.ProgramOp? && op.trng.Some? ==> |op.trng.value| == 16)
    modifies dai, soc
    ensures dai.Valid() && old(dai.history) <= dai.history
    ensures old(IdleOnly(dai.writes)) ==> IdleOnly(dai.writes)
  {
    match op {
      case ProgramOp(f, trng, dmaError) =>
        if ValidFlow(f) && trng.Some? {
          ProgramWritesIdle(dai.base, dai.rows64, f, trng.value);
        }
        r := Program(dai, soc, f, trng, dmaError);
      case ZeroizeOp(f, dmaError) =>
        r := Zeroize(dai, f, dmaError);
        if ValidFlow(f) {
          ZeroizeWritesIdle(dai.base, dai.rows64, f, PairCleared(dai.base, dai.cells, MarkerWord(f)));
        }
    }
  }
}
