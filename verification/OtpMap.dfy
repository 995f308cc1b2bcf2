/**
  The fuse region of the UDS/FE flows: which OTP words belong to which partition, the addresses the
  flow computes for them, and what must hold of the fuses whenever power may be lost.
 */
module OtpMap {
  import opened Common

  datatype Flow = Uds | Fe(partition: nat)

  const FE_MAX_PARTITIONS: nat := 4
  const REGION_WORDS: nat := 44
  const OTP_WORDS: nat := 1024
  const ONES: Word := 0xFFFF_FFFF

  /** `validate` */
  predicate ValidFlow(f: Flow) {
    f.Fe? ==> f.partition < FE_MAX_PARTITIONS
  }

  /** `seed_length_words` */
  function SeedWords(f: Flow): nat {
    if f.Uds? then 16 else 2
  }

  function SeedBytes(f: Flow): nat {
    if f.Uds? then 64 else 8
  }

  // ---------- Addresses, in 32-bit arithmetic, as the flow computes them ----------

  /** `get_seed_config().address` */
  function SeedAddress(base: Word, f: Flow): Word
    requires ValidFlow(f)
  {
    if f.Uds? then base
    else WrappingAdd(WrappingAdd(WrappingAdd(WrappingAdd(base, 64), 8), 8), f.partition * 24)
  }

  function DigestAddress(base: Word, f: Flow): Word
    requires ValidFlow(f)
  {
    WrappingAdd(SeedAddress(base, f), SeedBytes(f))
  }

  function MarkerAddress(base: Word, f: Flow): Word
    requires ValidFlow(f)
  {
    WrappingAdd(DigestAddress(base, f), 8)
  }

  /** The 12 address bits the controller sees. */
  function Masked(a: Word): nat {
    a % 4096
  }

  // ---------- Words of the region, counted from the UDS base ----------

  function SeedWord(f: Flow): nat {
    if f.Uds? then 0 else 20 + 6 * f.partition
  }

  function DigestWord(f: Flow): nat {
    SeedWord(f) + SeedWords(f)
  }

  function MarkerWord(f: Flow): nat {
    DigestWord(f) + 2
  }

  /** The OTP word that word `w` of the region occupies. */
  function Cell(base: Word, w: nat): (c: nat)
    ensures c < OTP_WORDS
  {
    (base / 4 + w) % OTP_WORDS
  }

  /** The inverse of Cell on the whole OTP. */
  function Relative(base: Word, c: nat): (w: nat)
    requires c < OTP_WORDS
    ensures w < OTP_WORDS && Cell(base, w) == c
  {
    (c + OTP_WORDS - base / 4 % OTP_WORDS) % OTP_WORDS
  }

  lemma CellInjective(base: Word, v: nat, w: nat)
    requires v < OTP_WORDS && w < OTP_WORDS && Cell(base, v) == Cell(base, w)
    ensures v == w
  {
  }

  lemma RelativeCell(base: Word, w: nat)
    requires w < OTP_WORDS
    ensures Relative(base, Cell(base, w)) == w
  {
    CellInjective(base, Relative(base, Cell(base, w)), w);
  }

  /** An 8-aligned region never splits a 64-bit row. */
  lemma CellPair(base: Word, w: nat)
    requires base % 8 == 0 && w % 2 == 0
    ensures Cell(base, w) + 1 < OTP_WORDS && Cell(base, w + 1) == Cell(base, w) + 1
  {
    var h := base / 8 + w / 2;
    assert base / 4 + w == 2 * h;
    assert (2 * h) % 1024 == 2 * (h % 512);
  }

  /** The masked 32-bit address of word `w` selects the word's cell, whether or not the sum wraps. */
  lemma MaskedSelects(base: Word, w: nat)
    requires base % 8 == 0
    ensures Masked(WrappingAdd(base, 4 * w)) == 4 * Cell(base, w)
    ensures Masked(WrappingAdd(base, 4 * w)) / 4 == Cell(base, w)
  {
    var i := base / 4 + w;
    assert base + 4 * w == 4 * i;
    MaskOfWrapped(4 * i);
    ScaledMod(i);
  }

  /** The 12-bit mask tells the addresses of the 176-byte region apart, whether or not they wrap. */
  lemma MaskInjective(base: Word, m: nat, n: nat)
    requires m < 4 * REGION_WORDS && n < 4 * REGION_WORDS
    requires Masked(WrappingAdd(base, m)) == Masked(WrappingAdd(base, n))
    ensures m == n
  {
    MaskOfWrapped(base + m);
    MaskOfWrapped(base + n);
    ModInjective(base, m, n);
  }

  lemma ModInjective(b: nat, m: nat, n: nat)
    requires m < 4096 && n < 4096 && (b + m) % 4096 == (b + n) % 4096
    ensures m == n
  {
    var p, q := (b + m) / 4096, (b + n) / 4096;
    assert m - n == 4096 * (p - q);
  }

  lemma MaskOfWrapped(n: nat)
    ensures n % TWO_TO_THE_32 % 4096 == n % 4096
  {
  }

  lemma ScaledMod(i: nat)
    ensures (4 * i) % 4096 == 4 * (i % 1024)
  {
  }

  /** The flow's addresses are the region's words. */
  lemma FlowAddresses(base: Word, f: Flow)
    requires ValidFlow(f)
    ensures SeedAddress(base, f) == WrappingAdd(base, 4 * SeedWord(f))
    ensures DigestAddress(base, f) == WrappingAdd(base, 4 * DigestWord(f))
    ensures MarkerAddress(base, f) == WrappingAdd(base, 4 * MarkerWord(f))
  {
    AddAdd(base, 64, 8);
    AddAdd(base, 72, 8);
    if f.Fe? {
      AddAdd(base, 80, f.partition * 24);
    }
    AddAdd(base, 4 * SeedWord(f), SeedBytes(f));
    AddAdd(base, 4 * DigestWord(f), 8);
  }

  lemma AddAdd(a: Word, m: nat, n: nat)
    ensures WrappingAdd(WrappingAdd(a, m), n) == WrappingAdd(a, m + n)
  {
  }

  // ---------- Crash safety ----------

  /** The fuses, and which of them a zeroize command has reached. */
  datatype Fuses = Fuses(cells: seq<Word>, touched: set<nat>)

  ghost predicate WordCleared(base: Word, cells: seq<Word>, w: nat)
    requires |cells| == OTP_WORDS
  {
    cells[Cell(base, w)] == ONES
  }

  ghost predicate PairCleared(base: Word, cells: seq<Word>, w: nat)
    requires |cells| == OTP_WORDS
  {
    WordCleared(base, cells, w) && WordCleared(base, cells, w + 1)
  }

  /** Word `w` holds seed or digest of partition `f`. */
  predicate DataWord(f: Flow, w: nat) {
    SeedWord(f) <= w < MarkerWord(f)
  }

  ghost predicate MarkerZeroized(base: Word, s: Fuses, f: Flow)
    requires |s.cells| == OTP_WORDS
  {
    && PairCleared(base, s.cells, MarkerWord(f))
    && Cell(base, MarkerWord(f)) in s.touched && Cell(base, MarkerWord(f) + 1) in s.touched
  }

  /** Wherever a seed or digest word has been zeroized, that partition's marker was zeroized and reads all ones. */
  ghost predicate CrashSafe(base: Word, s: Fuses) {
    && |s.cells| == OTP_WORDS
    && forall f, w {:trigger DataWord(f, w)} :: ValidFlow(f) && DataWord(f, w) && Cell(base, w) in s.touched ==> MarkerZeroized(base, s, f)
  }

  /** A zeroize command may fail to clear a fuse, but never un-clears one; it reaches no other fuse. */
  ghost predicate ZeroizeEffect(before: Fuses, after: Fuses, reached: set<nat>) {
    && |before.cells| == |after.cells| == OTP_WORDS
    && after.touched == before.touched + reached
    && forall c :: 0 <= c < OTP_WORDS ==>
         if c in reached then before.cells[c] == ONES ==> after.cells[c] == ONES
         else after.cells[c] == before.cells[c]
  }

  /** The words one zeroize command at word `w` reaches. */
  function Row(base: Word, w: nat, wide: bool): set<nat> {
    if wide then {Cell(base, w), Cell(base, w + 1)} else {Cell(base, w)}
  }

  lemma ZeroizeMarkerSafe(base: Word, f: Flow, before: Fuses, after: Fuses)
    requires ValidFlow(f) && CrashSafe(base, before)
    requires ZeroizeEffect(before, after, Row(base, MarkerWord(f), true))
    ensures CrashSafe(base, after)
  {
    forall g, w | ValidFlow(g) && DataWord(g, w) && Cell(base, w) in after.touched
      ensures MarkerZeroized(base, after, g)
    {
      if w == MarkerWord(f) || w == MarkerWord(f) + 1 {
        assert false;
      }
      if Cell(base, w) in Row(base, MarkerWord(f), true) {
        var m := if Cell(base, w) == Cell(base, MarkerWord(f)) then MarkerWord(f) else MarkerWord(f) + 1;
        CellInjective(base, w, m);
      }
      assert Cell(base, w) in before.touched;
    }
  }

  lemma ZeroizeDataSafe(base: Word, f: Flow, w: nat, wide: bool, before: Fuses, after: Fuses)
    requires ValidFlow(f) && CrashSafe(base, before) && MarkerZeroized(base, before, f)
    requires DataWord(f, w) && (wide ==> DataWord(f, w + 1))
    requires ZeroizeEffect(before, after, Row(base, w, wide))
    ensures CrashSafe(base, after) && MarkerZeroized(base, after, f)
  {
    forall g, v | ValidFlow(g) && DataWord(g, v) && Cell(base, v) in after.touched
      ensures MarkerZeroized(base, after, g)
    {
      if Cell(base, v) !in before.touched {
        var m := if Cell(base, v) == Cell(base, w) then w else w + 1;
        CellInjective(base, v, m);
        assert g == f;
      }
    }
  }

  /** No partition's marker has changed. */
  ghost predicate SameMarkers(base: Word, before: seq<Word>, after: seq<Word>)
    requires |before| == |after| == OTP_WORDS
  {
    forall f :: ValidFlow(f) ==>
      && after[Cell(base, MarkerWord(f))] == before[Cell(base, MarkerWord(f))]
      && after[Cell(base, MarkerWord(f) + 1)] == before[Cell(base, MarkerWord(f) + 1)]
  }

  /** Programming reaches seed and digest only, so it cannot disturb a marker. */
  lemma ProgramSafe(base: Word, before: Fuses, after: Fuses)
    requires CrashSafe(base, before) && |after.cells| == OTP_WORDS && after.touched == before.touched
    requires SameMarkers(base, before.cells, after.cells)
    ensures CrashSafe(base, after)
  {
  }
}
