/** The mailbox checksum: 0 - (sum of the command's bytes + sum of the data bytes), modulo 2^32. */
module Checksum {
  import opened Common

  function ByteSum(data: seq<Byte>): nat {
    if data == [] then 0 else ByteSum(data[..|data| - 1]) + data[|data| - 1]
  }

  /** `0u32.wrapping_sub(total)` */
  function Negated(total: int): Word {
    (0 - total) % TWO_TO_THE_32
  }

  function ChecksumOf(cmd: Word, data: seq<Byte>): Word {
    Negated(ByteSum(ToLe(cmd)) + ByteSum(data))
  }

  /** `calc_checksum`: wrapping sums, one byte at a time. */
  method CalcChecksum(cmd: Word, data: seq<Byte>) returns (checksum: Word)
    ensures checksum == ChecksumOf(cmd, data)
  {
    var bytes := ToLe(cmd);
    var sum := AddBytes(0, bytes);
    sum := AddBytes(sum, data);
    AddMod(ByteSum(bytes), ByteSum(data));
    NegateMod(ByteSum(bytes) + ByteSum(data));
    checksum := Negated(sum);
  }

  lemma AddMod(m: nat, n: nat)
    ensures ((0 + m) % TWO_TO_THE_32 + n) % TWO_TO_THE_32 == (m + n) % TWO_TO_THE_32
  {
  }

  lemma NegateMod(n: int)
    ensures Negated(n % TWO_TO_THE_32) == Negated(n)
  {
    var q := n / TWO_TO_THE_32;
    assert n == q * TWO_TO_THE_32 + n % TWO_TO_THE_32;
  }

  method AddBytes(start: Word, data: seq<Byte>) returns (sum: Word)
    ensures sum == (start + ByteSum(data)) % TWO_TO_THE_32
  {
    sum := start;
    for i := 0 to |data|
      invariant sum == (start + ByteSum(data[..i])) % TWO_TO_THE_32
    {
      TakeNext(data, i);
      sum := WrappingAdd(sum, data[i]);
    }
    TakeAll(data);
  }

  /** The checksum of a response, whose command code is zero. */
  function ResponseChecksum(data: seq<Byte>): Word {
    Negated(ByteSum(data))
  }

  lemma ResponseChecksumIsChecksum(cmd: Word, data: seq<Byte>)
    requires ByteSum(ToLe(cmd)) == 0
    ensures ChecksumOf(cmd, data) == ResponseChecksum(data)
  {
  }

  lemma ByteSumOfWord(w: Word)
    ensures ByteSum(ToLe(w)) <= w
  {
    var b := ToLe(w);
    ByteSumOfFour(b);
    assert b[0] as int + b[1] as int + b[2] as int + b[3] as int <= FromLe(b[0], b[1], b[2], b[3]);
  }

  lemma ByteSumOfFour(b: seq<Byte>)
    requires |b| == 4
    ensures ByteSum(b) == b[0] as int + b[1] as int + b[2] as int + b[3] as int
  {
    assert ByteSum(b) == ByteSum(b[..3]) + b[3];
    assert ByteSum(b[..3]) == ByteSum(b[..3][..2]) + b[2];
    assert ByteSum(b[..3][..2]) == ByteSum(b[..3][..2][..1]) + b[1];
    assert ByteSum(b[..3][..2][..1]) == b[0];
  }

  /** What the name promises: checksum and bytes add up to zero. */
  lemma ChecksumLaw(cmd: Word, data: seq<Byte>, c: Word, total: nat)
    requires total == ByteSum(ToLe(cmd)) + ByteSum(data)
    ensures ChecksumOf(cmd, data) == c <==> (c + total) % TWO_TO_THE_32 == 0
  {
    NegatedLaw(total, c);
  }

  lemma NegatedLaw(total: int, c: Word)
    ensures Negated(total) == c <==> (c + total) % TWO_TO_THE_32 == 0
  {
    assert (Negated(total) + total) % TWO_TO_THE_32 == 0;
  }

  lemma {:induction false} ByteSumUpdate(data: seq<Byte>, i: nat, b: Byte)
    requires i < |data|
    ensures ByteSum(data[i := b]) == ByteSum(data) - data[i] + b
  {
    var front := data[..|data| - 1];
    if i < |data| - 1 {
      ByteSumUpdate(front, i, b);
      assert data[i := b][..|data| - 1] == front[i := b];
    } else {
      assert data[i := b][..|data| - 1] == front;
    }
  }

  /** One changed data byte always changes the checksum, however long the data is. */
  lemma DetectsOneByte(cmd: Word, data: seq<Byte>, i: nat, b: Byte)
    requires i < |data| && b != data[i]
    ensures ChecksumOf(cmd, data[i := b]) != ChecksumOf(cmd, data)
    ensures ResponseChecksum(data[i := b]) != ResponseChecksum(data)
  {
    ByteSumUpdate(data, i, b);
    ShiftChangesNegated(ByteSum(ToLe(cmd)) + ByteSum(data), b - data[i]);
    ShiftChangesNegated(ByteSum(data), b - data[i]);
  }

  lemma ShiftChangesNegated(m: int, d: int)
    requires -256 < d < 256 && d != 0
    ensures Negated(m + d) != Negated(m)
  {
  }
}
