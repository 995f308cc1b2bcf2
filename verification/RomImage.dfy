/** `elf2rom` and `sha256_word_reversed`: a flat ROM image that carries the digest of what precedes it. */
module RomImage {
  import opened Common

  const ROM_SIZE: nat := 0x18000
  const ROM_INFO_SIZE: nat := 60
  const PT_LOAD: nat := 1

  datatype Segment = Segment(pType: nat, offset: nat, paddr: nat, filesz: nat)

  datatype Symbol = Symbol(name: string, value: nat)

  /** What the external ELF parser reports. */
  datatype Parsed = Parsed(segments: Option<seq<Segment>>, symbols: Option<seq<Symbol>>)

  datatype RomError =
    | NotAnElf | NoSegments | BadSymbols | NoRevision
    | OutOfFileBounds(segment: nat) | ExceedsRom(segment: nat)
    | NoSpaceForRomInfo
    | Panic                      // slicing the image at a symbol beyond its end

  type Digest = d: seq<Word> | |d| == 8 witness [0, 0, 0, 0, 0, 0, 0, 0]
  type Revision = r: seq<Byte> | |r| == 20 witness seq(20, i => 0)

  // ---------- The digest's framing ----------

  function SwapBytes(w: Word): Word {
    var b := ToLe(w);
    FromLe(b[3], b[2], b[1], b[0])
  }

  /** The first `n` words, the bytes of each word reversed. */
  function ReversedWords(bytes: seq<Byte>, n: nat): (r: seq<Byte>)
    requires 4 * n <= |bytes|
    ensures |r| == 4 * n
  {
    if n == 0 then []
    else ReversedWords(bytes, n - 1) + [bytes[4 * n - 1], bytes[4 * n - 2], bytes[4 * n - 3], bytes[4 * n - 4]]
  }

  /** The message that is hashed: whole words only, the bytes of each word reversed. */
  function WordReversed(bytes: seq<Byte>): (r: seq<Byte>)
    ensures |r| == |bytes| / 4 * 4
  {
    ReversedWords(bytes, |bytes| / 4)
  }

  lemma {:induction false} ReversedByte(bytes: seq<Byte>, n: nat, q: nat, m: nat)
    requires 4 * n <= |bytes| && q < n && m < 4
    ensures ReversedWords(bytes, n)[4 * q + m] == bytes[4 * q + 3 - m]
  {
    if q < n - 1 {
      ReversedByte(bytes, n - 1, q, m);
    }
  }

  /** Byte `m` of word `q` of the message is byte `3 - m` of word `q` of the image. */
  lemma WordReversedByte(bytes: seq<Byte>, q: nat, m: nat)
    requires 4 * q + 4 <= |bytes| && m < 4
    ensures WordReversed(bytes)[4 * q + m] == bytes[4 * q + 3 - m]
  {
    ReversedByte(bytes, |bytes| / 4, q, m);
  }

  /** The framing loses nothing of a word-aligned image. */
  lemma WordReversedInvolution(bytes: seq<Byte>)
    requires |bytes| % 4 == 0
    ensures WordReversed(WordReversed(bytes)) == bytes
  {
    var r := WordReversed(bytes);
    forall k | 0 <= k < |bytes| ensures WordReversed(r)[k] == bytes[k] {
      var q, m := k / 4, k % 4;
      assert k == 4 * q + m;
      WordReversedByte(r, q, m);
      WordReversedByte(bytes, q, 3 - m);
    }
  }

  method Sha256WordReversed(sha: seq<Byte> -> Digest, bytes: seq<Byte>) returns (digest: Digest)
    ensures digest == sha(WordReversed(bytes))
  {
    var message: seq<Byte> := [];
    for i := 0 to |bytes| / 4
      invariant message == ReversedWords(bytes, i)
    {
      var b := bytes[4 * i..4 * i + 4];
      var word := FromLe(b[0], b[1], b[2], b[3]);
      SwappedBytes(b[0], b[1], b[2], b[3]);
      message := message + ToLe(SwapBytes(word));
    }
    digest := sha(message);
  }

  lemma SwappedBytes(b0: Byte, b1: Byte, b2: Byte, b3: Byte)
    ensures ToLe(SwapBytes(FromLe(b0, b1, b2, b3))) == [b3, b2, b1, b0]
  {
    ToLeInverse(b0, b1, b2, b3);
    ToLeInverse(b3, b2, b1, b0);
  }

  // ---------- The segments ----------

  predicate Covers(s: Segment, p: nat) {
    s.pType == PT_LOAD && s.paddr <= p < s.paddr + s.filesz
  }

  predicate InFile(bytes: seq<Byte>, s: Segment) {
    s.pType == PT_LOAD ==> s.offset + s.filesz <= |bytes|
  }

  predicate InRom(s: Segment) {
    s.pType == PT_LOAD && s.filesz > 0 ==> s.paddr + s.filesz <= ROM_SIZE
  }

  /** A segment that is not PT_LOAD is skipped; the file bounds matter even for an empty one, the ROM bounds do not. */
  ghost predicate Loadable(bytes: seq<Byte>, s: Segment) {
    s.pType == 1 ==> s.offset + s.filesz <= |bytes| && (s.filesz == 0 || s.paddr + s.filesz <= 0x18000)
  }

  ghost predicate AllLoadable(bytes: seq<Byte>, segments: seq<Segment>) {
    forall i :: 0 <= i < |segments| ==> Loadable(bytes, segments[i])
  }

  /** How loading the `i`-th segment fails. */
  ghost predicate SegmentFails(bytes: seq<Byte>, s: Segment, i: nat, e: RomError) {
    && !Loadable(bytes, s)
    && e == if s.offset + s.filesz > |bytes| then OutOfFileBounds(i) else ExceedsRom(i)
  }

  /** The last segment that covers `p` decides; what no segment covers is zero. */
  ghost predicate ByteLoaded(bytes: seq<Byte>, segments: seq<Segment>, p: nat, value: Byte)
    requires forall i :: 0 <= i < |segments| ==> InFile(bytes, segments[i])
  {
    && (forall i :: 0 <= i < |segments| && Covers(segments[i], p) && (forall j :: i < j < |segments| ==> !Covers(segments[j], p)) ==>
          assert InFile(bytes, segments[i]);
          value == bytes[segments[i].offset + p - segments[i].paddr])
    && ((forall i :: 0 <= i < |segments| ==> !Covers(segments[i], p)) ==> value == 0)
  }

  lemma ByteLoadedStep(bytes: seq<Byte>, front: seq<Segment>, s: Segment, p: nat, value: Byte)
    requires forall i :: 0 <= i < |front| ==> InFile(bytes, front[i])
    requires InFile(bytes, s)
    requires if Covers(s, p) then value == bytes[s.offset + p - s.paddr] else ByteLoaded(bytes, front, p, value)
    ensures ByteLoaded(bytes, front + [s], p, value)
  {
    var all := front + [s];
    assert all[|front|] == s;
    forall i | 0 <= i < |all| && Covers(all[i], p) && (forall j :: i < j < |all| ==> !Covers(all[j], p))
      ensures value == bytes[all[i].offset + p - all[i].paddr]
    {
      if i < |front| {
        assert !Covers(all[|front|], p);
        assert forall j :: i < j < |front| ==> front[j] == all[j];
      }
    }
    if forall i :: 0 <= i < |all| ==> !Covers(all[i], p) {
      assert !Covers(all[|front|], p);
      assert forall i :: 0 <= i < |front| ==> front[i] == all[i];
    }
  }

  method LoadSegments(bytes: seq<Byte>, segments: seq<Segment>, rom: array<Byte>) returns (r: Option<RomError>)
    requires rom.Length == ROM_SIZE && forall p :: 0 <= p < ROM_SIZE ==> rom[p] == 0
    modifies rom
    ensures r.None? <==> AllLoadable(bytes, segments)
    ensures r.None? ==> forall p :: 0 <= p < ROM_SIZE ==> ByteLoaded(bytes, segments, p, rom[p])
    ensures r.Some? ==>
              exists i :: 0 <= i < |segments| && SegmentFails(bytes, segments[i], i, r.value) && AllLoadable(bytes, segments[..i])
  {
    for i := 0 to |segments|
      invariant AllLoadable(bytes, segments[..i])
      invariant forall p :: 0 <= p < ROM_SIZE ==> ByteLoaded(bytes, segments[..i], p, rom[p])
    {
      var s := segments[i];
      r := SegmentError(bytes, s, i);
      if r.Some? {
        return;
      }
      ghost var before := rom[..];
      if s.pType == PT_LOAD && s.filesz > 0 {
        forall k | 0 <= k < s.filesz {
          rom[s.paddr + k] := bytes[s.offset + k];
        }
      }
      forall p | 0 <= p < ROM_SIZE ensures ByteLoaded(bytes, segments[..i + 1], p, rom[p]) {
        TakeNext(segments, i);
        assert if Covers(s, p) then rom[p] == bytes[s.offset + (p - s.paddr)] else rom[p] == before[p];
        ByteLoadedStep(bytes, segments[..i], s, p, rom[p]);
      }
    }
    TakeAll(segments);
    r := None;
  }

  function SegmentError(bytes: seq<Byte>, s: Segment, i: nat): (r: Option<RomError>)
    ensures r.None? <==> Loadable(bytes, s)
    ensures r.Some? ==> SegmentFails(bytes, s, i, r.value)
  {
    if !InFile(bytes, s) then Some(OutOfFileBounds(i))
    else if !InRom(s) then Some(ExceedsRom(i))
    else None
  }

  // ---------- The whole conversion ----------

  function DigestBytes(d: seq<Word>): (r: seq<Byte>)
    ensures |r| == 4 * |d|
  {
    if d == [] then [] else DigestBytes(d[..|d| - 1]) + ToLe(d[|d| - 1])
  }

  function RomInfoBytes(digest: Digest, revision: Revision, version: nat): (r: seq<Byte>)
    requires version < 65536
    ensures |r| == ROM_INFO_SIZE
  {
    DigestBytes(digest) + revision + [0, 0, 0, 0, version % 256, version / 256, 0, 0]
  }

  /** The record's fields: digest, revision, flags (zero), version, reserved (zero). */
  lemma RomInfoFields(digest: Digest, revision: Revision, version: nat)
    requires version < 65536
    ensures var r := RomInfoBytes(digest, revision, version);
            && r[..32] == DigestBytes(digest)
            && r[32..52] == revision
            && r[52..56] == [0, 0, 0, 0]
            && FromLe(r[56], r[57], 0, 0) == version
            && r[58..] == [0, 0]
  {
    var r := RomInfoBytes(digest, revision, version);
    assert r[52..] == [0, 0, 0, 0, version % 256, version / 256, 0, 0];
    assert r[52..56] == r[52..][..4] && r[58..] == r[52..][6..];
    assert r[56] == r[52..][4] && r[57] == r[52..][5];
  }

  /** Each digest word can be read back. */
  lemma {:induction false} DigestWord(d: seq<Word>, i: nat)
    requires i < |d|
    ensures DigestBytes(d)[4 * i..4 * i + 4] == ToLe(d[i])
  {
    if i < |d| - 1 {
      DigestWord(d[..|d| - 1], i);
      assert DigestBytes(d)[4 * i..4 * i + 4] == DigestBytes(d[..|d| - 1])[4 * i..4 * i + 4];
    }
  }

  /** Symbol `i` is the first one of that name. */
  ghost predicate RomInfoSymbol(symbols: seq<Symbol>, i: nat) {
    && i < |symbols| && symbols[i].name == "CALIPTRA_ROM_INFO"
    && forall j :: 0 <= j < i ==> symbols[j].name != "CALIPTRA_ROM_INFO"
  }

  method FindRomInfo(symbols: seq<Symbol>) returns (start: Option<nat>)
    ensures start.None? ==> forall i: nat :: !RomInfoSymbol(symbols, i)
    ensures start.Some? ==> exists i: nat :: RomInfoSymbol(symbols, i)
    ensures start.Some? ==> forall i: nat :: RomInfoSymbol(symbols, i) ==> start.value == symbols[i].value
  {
    for i := 0 to |symbols|
      invariant forall j :: 0 <= j < i ==> symbols[j].name != "CALIPTRA_ROM_INFO"
    {
      if symbols[i].name == "CALIPTRA_ROM_INFO" {
        assert RomInfoSymbol(symbols, i);
        return Some(symbols[i].value);
      }
    }
    return None;
  }

  /** Everything the conversion needs to succeed. */
  ghost predicate Convertible(bytes: seq<Byte>, parsed: Option<Parsed>, revision: Option<Revision>) {
    && parsed.Some? && parsed.value.segments.Some? && parsed.value.symbols.Some?
    && AllLoadable(bytes, parsed.value.segments.value)
    && var symbols := parsed.value.symbols.value;
       forall i: nat :: RomInfoSymbol(symbols, i) ==> symbols[i].value + ROM_INFO_SIZE <= ROM_SIZE && revision.Some?
  }

  /** A self-describing image: the record at `start` holds the digest of everything before it. */
  ghost predicate SelfDescribing(sha: seq<Byte> -> Digest, rom: seq<Byte>, start: nat, revision: Revision, version: nat)
    requires version < 65536
  {
    && start + ROM_INFO_SIZE <= |rom|
    && rom[start..start + ROM_INFO_SIZE] == RomInfoBytes(sha(WordReversed(rom[..start])), revision, version)
  }

  /** What each error says about the input; a segment error names the first segment that is wrong. */
  ghost predicate FailsWith(bytes: seq<Byte>, parsed: Option<Parsed>, revision: Option<Revision>, e: RomError) {
    if parsed.None? then e.NotAnElf?
    else if parsed.value.segments.None? then e.NoSegments?
    else
      var segments := parsed.value.segments.value;
      if !AllLoadable(bytes, segments) then
        exists i :: 0 <= i < |segments| && SegmentFails(bytes, segments[i], i, e) && AllLoadable(bytes, segments[..i])
      else if parsed.value.symbols.None? then e.BadSymbols?
      else
        var symbols := parsed.value.symbols.value;
        exists i: nat :: RomInfoSymbol(symbols, i) &&
          if symbols[i].value > ROM_SIZE then e.Panic?
          else if revision.None? then e.NoRevision?
          else symbols[i].value + ROM_INFO_SIZE > ROM_SIZE && e.NoSpaceForRomInfo?
  }

  /** Byte `p` is not part of the record. */
  ghost predicate Outside(symbols: seq<Symbol>, p: nat) {
    forall i: nat :: RomInfoSymbol(symbols, i) ==> p < symbols[i].value || symbols[i].value + ROM_INFO_SIZE <= p
  }

  method Elf2Rom(sha: seq<Byte> -> Digest, bytes: seq<Byte>, parsed: Option<Parsed>, revision: Option<Revision>, version: nat)
    returns (r: Result<seq<Byte>, RomError>)
    requires version < 65536
    ensures r.Success? <==> Convertible(bytes, parsed, revision)
    ensures r.Success? ==>
              var symbols := parsed.value.symbols.value;
              && |r.value| == 0x18000
              && (forall p :: 0 <= p < 0x18000 && Outside(symbols, p) ==> ByteLoaded(bytes, parsed.value.segments.value, p, r.value[p]))
              && (forall i: nat :: RomInfoSymbol(symbols, i) ==>
                    SelfDescribing(sha, r.value, symbols[i].value, revision.value, version))
    ensures r.Failure? ==> FailsWith(bytes, parsed, revision, r.error)
  {
    if parsed.None? {
      return Failure(NotAnElf);
    }
    if parsed.value.segments.None? {
      return Failure(NoSegments);
    }
    var rom := new Byte[ROM_SIZE](_ => 0);
    var error := LoadSegments(bytes, parsed.value.segments.value, rom);
    if error.Some? {
      return Failure(error.value);
    }
    if parsed.value.symbols.None? {
      return Failure(BadSymbols);
    }
    var found := FindRomInfo(parsed.value.symbols.value);
    match found {
      case None =>
      case Some(start) =>
        if start > ROM_SIZE {
          return Failure(Panic);
        }
        var digest := Sha256WordReversed(sha, rom[..start]);
        if revision.None? {
          return Failure(NoRevision);
        }
        if start + ROM_INFO_SIZE > ROM_SIZE {
          return Failure(NoSpaceForRomInfo);
        }
        var info := RomInfoBytes(digest, revision.value, version);
        ghost var before := rom[..start];
        forall k | 0 <= k < ROM_INFO_SIZE {
          rom[start + k] := info[k];
        }
        assert rom[..start] == before;
        assert rom[start..start + ROM_INFO_SIZE] == info;
        assert rom[..][..start] == before && rom[..][start..start + ROM_INFO_SIZE] == info;
    }
    return Success(rom[..]);
  }
}
