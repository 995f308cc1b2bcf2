/** The register writes of a programming and of a zeroizing run, spelled out register by register and row by row. */
module FlowSequences {
  import opened Common
  import opened OtpMap
  import opened OtpController
  import opened UdsFeFlow

  /** The 12 bits of a 32-bit address that the controller is given. */
  function LowBits(address: nat): nat {
    address % 0x1_0000_0000 % 0x1000
  }

  // ---------- Programming ----------

  /** The first `n` 64-bit rows: words 2m and 2m + 1 at byte 8m of the seed, both data registers before address and command. */
  function WideRows(seed: Word, words: seq<Word>, n: nat): seq<RegWrite>
    requires 2 * n <= |words|
  {
    if n == 0 then []
    else
      var m := n - 1;
      WideRows(seed, words, m)
      + [RegWrite(Wdata0, words[2 * m], true), RegWrite(Wdata1, words[2 * m + 1], true),
         RegWrite(Address, LowBits(seed + 8 * m), true), RegWrite(Cmd, 0x2, true)]
  }

  /** The first `n` 32-bit rows: word m at byte 4m of the seed. */
  function NarrowRows(seed: Word, words: seq<Word>, n: nat): seq<RegWrite>
    requires n <= |words|
  {
    if n == 0 then []
    else
      var m := n - 1;
      NarrowRows(seed, words, m)
      + [RegWrite(Wdata0, words[m], true), RegWrite(Address, LowBits(seed + 4 * m), true), RegWrite(Cmd, 0x2, true)]
  }

  lemma WideRow(address: nat, words: seq<Word>, m: nat)
    requires 2 * m + 2 <= |words|
    ensures RowWrites(true, address, words[2 * m..2 * m + 2])
            == [RegWrite(Wdata0, words[2 * m], true), RegWrite(Wdata1, words[2 * m + 1], true),
                RegWrite(Address, address, true), RegWrite(Cmd, 0x2, true)]
  {
  }

  lemma NarrowRow(address: nat, words: seq<Word>, m: nat)
    requires m < |words|
    ensures RowWrites(false, address, words[m..m + 1])
            == [RegWrite(Wdata0, words[m], true), RegWrite(Address, address, true), RegWrite(Cmd, 0x2, true)]
  {
  }

  lemma {:induction false} SeedInWideRows(base: Word, f: Flow, words: seq<Word>, n: nat)
    requires ValidFlow(f) && 2 * n <= |words|
    ensures SeedWrites(base, true, f, words, 2 * n) == WideRows(SeedAddress(base, f), words, n)
  {
    if n > 0 {
      var m := n - 1;
      SeedInWideRows(base, f, words, m);
      WideAddress(SeedAddress(base, f), m);
      WideRow(LowBits(SeedAddress(base, f) + 8 * m), words, m);
      LastWideRow(base, f, words, m);
    }
  }

  lemma WideAddress(seed: Word, m: nat)
    ensures Masked(WrappingAdd(seed, 4 * (2 * m))) == LowBits(seed + 8 * m)
  {
  }

  lemma LastWideRow(base: Word, f: Flow, words: seq<Word>, m: nat)
    requires ValidFlow(f) && 2 * m + 2 <= |words|
    ensures SeedWrites(base, true, f, words, 2 * (m + 1))
            == SeedWrites(base, true, f, words, 2 * m)
               + RowWrites(true, Masked(WrappingAdd(SeedAddress(base, f), 4 * (2 * m))), words[2 * m..2 * m + 2])
  {
  }

  lemma {:induction false} SeedInNarrowRows(base: Word, f: Flow, words: seq<Word>, n: nat)
    requires ValidFlow(f) && n <= |words|
    ensures SeedWrites(base, false, f, words, n) == NarrowRows(SeedAddress(base, f), words, n)
  {
    if n > 0 {
      SeedInNarrowRows(base, f, words, n - 1);
      NarrowRow(Masked(WrappingAdd(SeedAddress(base, f), 4 * (n - 1))), words, n - 1);
    }
  }

  lemma DigestCommand(address: Word)
    ensures CommandWrites(Masked(address), CMD_DIGEST) == [RegWrite(Address, LowBits(address), true), RegWrite(Cmd, 0x4, true)]
  {
  }

  /** Programming with 64-bit rows: the seed's rows in order, then the digest command on the seed's address; nothing else. */
  lemma WideProgramSequence(base: Word, f: Flow, words: seq<Word>, n: nat)
    requires ValidFlow(f) && |words| == 16 && 2 * n == SeedWords(f)
    ensures ProgramWrites(base, true, f, words)
            == WideRows(SeedAddress(base, f), words, n)
               + [RegWrite(Address, LowBits(SeedAddress(base, f)), true), RegWrite(Cmd, 0x4, true)]
  {
    SeedInWideRows(base, f, words, n);
    DigestCommand(SeedAddress(base, f));
  }

  /** Programming with 32-bit rows: likewise. */
  lemma NarrowProgramSequence(base: Word, f: Flow, words: seq<Word>)
    requires ValidFlow(f) && |words| == 16
    ensures ProgramWrites(base, false, f, words)
            == NarrowRows(SeedAddress(base, f), words, SeedWords(f))
               + [RegWrite(Address, LowBits(SeedAddress(base, f)), true), RegWrite(Cmd, 0x4, true)]
  {
    SeedInNarrowRows(base, f, words, SeedWords(f));
    DigestCommand(SeedAddress(base, f));
  }

  // ---------- Zeroizing ----------

  function ZeroizeCommand(address: nat): seq<RegWrite> {
    [RegWrite(Address, LowBits(address), true), RegWrite(Cmd, 0x8, true)]
  }

  /** A command on each of the first `n` rows of `step` bytes. */
  function ZeroizeRows(seed: Word, step: nat, n: nat): seq<RegWrite> {
    if n == 0 then [] else ZeroizeRows(seed, step, n - 1) + ZeroizeCommand(seed + step * (n - 1))
  }

  lemma CommandAt(address: nat)
    requires address < TWO_TO_THE_32
    ensures CommandWrites(address % 4096, CMD_ZEROIZE) == ZeroizeCommand(address)
  {
  }

  lemma {:induction false} RangeInWideRows(seed: Word, n: nat)
    requires seed + 8 * n <= TWO_TO_THE_32
    ensures RangeWrites(seed, true, 2 * n) == ZeroizeRows(seed, 8, n)
  {
    if n > 0 {
      RangeInWideRows(seed, n - 1);
      CommandAt(seed + 8 * (n - 1));
      assert RangeWrites(seed, true, 2 * n)
          == RangeWrites(seed, true, 2 * (n - 1)) + CommandWrites((seed + 8 * (n - 1)) % 4096, CMD_ZEROIZE);
    }
  }

  lemma {:induction false} RangeInNarrowRows(seed: Word, n: nat)
    requires seed + 4 * n <= TWO_TO_THE_32
    ensures RangeWrites(seed, false, n) == ZeroizeRows(seed, 4, n)
  {
    if n > 0 {
      RangeInNarrowRows(seed, n - 1);
      CommandAt(seed + 4 * (n - 1));
    }
  }

  /** The rows of the seed that a zeroization visits: all of them, or none if the end of their range wraps. */
  ghost predicate Visits(base: Word, rows64: bool, f: Flow, rows: nat)
    requires ValidFlow(f)
  {
    if SeedAddress(base, f) + SeedBytes(f) >= 0x1_0000_0000 then rows == 0
    else SeedWords(f) == if rows64 then 2 * rows else rows
  }

  lemma SeedInRows(base: Word, rows64: bool, f: Flow, rows: nat)
    requires ValidFlow(f) && Visits(base, rows64, f, rows)
    ensures SeedZeroizeWrites(base, rows64, f) == ZeroizeRows(SeedAddress(base, f), if rows64 then 8 else 4, rows)
  {
    if rows64 {
      RangeInWideRows(SeedAddress(base, f), rows);
    } else {
      RangeInNarrowRows(SeedAddress(base, f), rows);
    }
  }

  /** Zeroizing: the marker; if it does not clear, nothing else; otherwise every seed row in order, then the digest. */
  lemma ZeroizeSequence(base: Word, rows64: bool, f: Flow, rows: nat)
    requires ValidFlow(f) && Visits(base, rows64, f, rows)
    ensures ZeroizeWrites(base, rows64, f, false) == ZeroizeCommand(MarkerAddress(base, f))
    ensures ZeroizeWrites(base, rows64, f, true)
            == ZeroizeCommand(MarkerAddress(base, f))
               + (ZeroizeRows(SeedAddress(base, f), if rows64 then 8 else 4, rows) + ZeroizeCommand(DigestAddress(base, f)))
  {
    SeedInRows(base, rows64, f, rows);
    CommandAt(MarkerAddress(base, f));
    CommandAt(DigestAddress(base, f));
  }
}
