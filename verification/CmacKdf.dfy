/** `cmac_kdf`: the KDF in counter mode of section 4.1 of NIST SP 800-108, with CMAC as the PRF. */
module CmacKdf {
  import opened Common

  const MAX_KMAC_INPUT_SIZE: nat := 4096
  const BLOCK_WORDS: nat := 4
  const OUTPUT_WORDS: nat := 16

  datatype KdfError = InvalidSlice | InvalidRounds | EngineError

  type Block = b: seq<Word> | |b| == BLOCK_WORDS witness [0, 0, 0, 0]

  /** The AES engine with the key loaded: a MAC for a message, or an engine error. */
  type Cmac = seq<Byte> -> Option<Block>

  /** `u32::to_be_bytes`; counters here are at most four, so the three leading bytes are zero. */
  function BigEndian(n: nat): seq<Byte>
    requires n < 256
  {
    [0, 0, 0, n]
  }

  /** The most significant byte comes first. */
  lemma BigEndianValue(n: nat)
    requires n < 256
    ensures var b := BigEndian(n); |b| == 4 && 16777216 * b[0] as int + 65536 * b[1] as int + 256 * b[2] as int + b[3] as int == n
  {
  }

  /** The fixed input: the label (here `tag`), or label, a zero byte and the context. */
  function FixedInput(tag: seq<Byte>, context: Option<seq<Byte>>): seq<Byte> {
    tag + if context.Some? then [0] + context.value else []
  }

  /** The PRF input of round `i`, counted from 1. */
  function PrfInput(i: nat, tag: seq<Byte>, context: Option<seq<Byte>>): seq<Byte>
    requires i < 256
  {
    BigEndian(i) + FixedInput(tag, context)
  }

  predicate RoundsSucceed(cmac: Cmac, tag: seq<Byte>, context: Option<seq<Byte>>, rounds: nat)
    requires rounds < 256
  {
    forall i :: 1 <= i <= rounds ==> cmac(PrfInput(i, tag, context)).Some?
  }

  /** K(1) || K(2) || ... || K(n) */
  function Blocks(cmac: Cmac, tag: seq<Byte>, context: Option<seq<Byte>>, n: nat): (r: seq<Word>)
    requires n < 256 && RoundsSucceed(cmac, tag, context, n)
    ensures |r| == BLOCK_WORDS * n
  {
    if n == 0 then []
    else Blocks(cmac, tag, context, n - 1) + cmac(PrfInput(n, tag, context)).value
  }

  /** The output buffer: the blocks, then zeroes. */
  function Output(blocks: seq<Word>): (r: seq<Word>)
    requires |blocks| <= OUTPUT_WORDS
    ensures |r| == OUTPUT_WORDS
  {
    blocks + seq(OUTPUT_WORDS - |blocks|, i => 0)
  }

  /** `ArrayVec::try_extend_from_slice` on the 4096-byte input buffer. */
  method TryExtend(input: seq<Byte>, more: seq<Byte>) returns (ok: bool, extended: seq<Byte>)
    ensures ok <==> |input| + |more| <= MAX_KMAC_INPUT_SIZE
    ensures extended == if ok then input + more else input
  {
    ok := |input| + |more| <= MAX_KMAC_INPUT_SIZE;
    extended := if ok then input + more else input;
  }

  /** One round's input; it cannot overflow the buffer once the total length has been checked. */
  method FillInput(i: nat, tag: seq<Byte>, context: Option<seq<Byte>>) returns (ok: bool, input: seq<Byte>)
    requires i < 256
    ensures ok <==> |PrfInput(i, tag, context)| <= MAX_KMAC_INPUT_SIZE
    ensures ok ==> input == PrfInput(i, tag, context)
  {
    ok, input := TryExtend([], BigEndian(i));
    if !ok { return; }
    ok, input := TryExtend(input, tag);
    if !ok { return; }
    ghost var start := BigEndian(i) + tag;
    assert input == start;
    if context.Some? {
      assert PrfInput(i, tag, context) == start + [0] + context.value;
      ok, input := TryExtend(input, [0]);
      if !ok { return; }
      ok, input := TryExtend(input, context.value);
    } else {
      assert PrfInput(i, tag, context) == start;
    }
  }

  method CmacKdf(cmac: Cmac, tag: seq<Byte>, context: Option<seq<Byte>>, rounds: nat) returns (r: Result<seq<Word>, KdfError>)
    ensures |FixedInput(tag, context)| + 4 > MAX_KMAC_INPUT_SIZE ==> r == Failure(InvalidSlice)
    ensures |FixedInput(tag, context)| + 4 <= MAX_KMAC_INPUT_SIZE && !(1 <= rounds <= 4) ==> r == Failure(InvalidRounds)
    ensures |FixedInput(tag, context)| + 4 <= MAX_KMAC_INPUT_SIZE && 1 <= rounds <= 4 ==>
              if RoundsSucceed(cmac, tag, context, rounds) then r == Success(Output(Blocks(cmac, tag, context, rounds)))
              else r == Failure(EngineError)
  {
    var inputLen := |tag| + (if context.Some? then |context.value| + 1 else 0) + 4;
    if inputLen > MAX_KMAC_INPUT_SIZE {
      return Failure(InvalidSlice);
    }
    if !(1 <= rounds <= 4) {
      return Failure(InvalidRounds);
    }
    var output: array<Word> := new Word[OUTPUT_WORDS](_ => 0);
    for round := 0 to rounds
      invariant RoundsSucceed(cmac, tag, context, round)
      invariant output[..] == Output(Blocks(cmac, tag, context, round))
    {
      var ok, input := FillInput(round + 1, tag, context);
      if !ok {
        return Failure(InvalidSlice);
      }
      var result := cmac(input);
      if result.None? {
        return Failure(EngineError);
      }
      ghost var before := Blocks(cmac, tag, context, round);
      assert forall k :: 0 <= k < OUTPUT_WORDS ==> output[k] == Output(before)[k];
      forall k | 0 <= k < BLOCK_WORDS {
        output[round * BLOCK_WORDS + k] := result.value[k];
      }
      assert output[..] == Output(before + result.value);
    }
    return Success(output[..]);
  }

  /** The PRF input of round `i`, byte by byte: the counter from 1, the label, and a zero byte and the context if there is one. */
  lemma PrfInputBytes(i: nat, tag: seq<Byte>, context: Option<seq<Byte>>)
    requires i < 256
    ensures PrfInput(i, tag, context)
            == match context
               case None => [0, 0, 0, i] + tag
               case Some(c) => [0, 0, 0, i] + tag + [0] + c
  {
    if context.Some? {
      assert BigEndian(i) + (tag + ([0] + context.value)) == BigEndian(i) + tag + [0] + context.value;
    } else {
      assert tag + [] == tag;
    }
  }

  /** Word `j` of block `i` of the output, both counted from 0, is that of the MAC of round `i + 1`; the rest is zero. */
  lemma OutputWord(cmac: Cmac, tag: seq<Byte>, context: Option<seq<Byte>>, n: nat, i: nat, j: nat)
    requires n <= 4 && RoundsSucceed(cmac, tag, context, n) && i < 4 && j < 4
    ensures var word := Output(Blocks(cmac, tag, context, n))[4 * i + j];
            if i < n then cmac(PrfInput(i + 1, tag, context)).Some? && word == cmac(PrfInput(i + 1, tag, context)).value[j]
            else word == 0
  {
    if i < n {
      BlockWord(cmac, tag, context, n, i, j);
    }
  }

  lemma {:induction false} BlockWord(cmac: Cmac, tag: seq<Byte>, context: Option<seq<Byte>>, n: nat, i: nat, j: nat)
    requires i < n < 256 && j < 4 && RoundsSucceed(cmac, tag, context, n)
    ensures cmac(PrfInput(i + 1, tag, context)).Some?
    ensures Blocks(cmac, tag, context, n)[4 * i + j] == cmac(PrfInput(i + 1, tag, context)).value[j]
  {
    var front := Blocks(cmac, tag, context, n - 1);
    if i < n - 1 {
      BlockWord(cmac, tag, context, n - 1, i, j);
      assert Blocks(cmac, tag, context, n)[4 * i + j] == front[4 * i + j];
    } else {
      assert |front| == 4 * i;
    }
  }

  /** More rounds only extend the derived key. */
  lemma {:induction false} BlocksPrefix(cmac: Cmac, tag: seq<Byte>, context: Option<seq<Byte>>, m: nat, n: nat)
    requires m <= n < 256 && RoundsSucceed(cmac, tag, context, n)
    ensures Blocks(cmac, tag, context, m) <= Blocks(cmac, tag, context, n)
  {
    if m < n {
      BlocksPrefix(cmac, tag, context, m, n - 1);
    }
  }

  /** Without a context, the label is the whole fixed input: label, 0 and context may equally be passed as one label. */
  lemma LabelIsFixedInput(cmac: Cmac, tag: seq<Byte>, context: seq<Byte>, n: nat)
    requires n < 256 && RoundsSucceed(cmac, tag, Some(context), n)
    ensures RoundsSucceed(cmac, tag + [0] + context, None, n)
    ensures Blocks(cmac, tag + [0] + context, None, n) == Blocks(cmac, tag, Some(context), n)
  {
    assert tag + ([0] + context) == tag + [0] + context;
    assert FixedInput(tag + [0] + context, None) == FixedInput(tag, Some(context));
    forall i | 1 <= i <= n ensures cmac(PrfInput(i, tag + [0] + context, None)).Some? {
      assert PrfInput(i, tag + [0] + context, None) == PrfInput(i, tag, Some(context));
    }
    if n > 0 {
      assert PrfInput(n, tag + [0] + context, None) == PrfInput(n, tag, Some(context));
      LabelIsFixedInput(cmac, tag, context, n - 1);
    }
  }
}
