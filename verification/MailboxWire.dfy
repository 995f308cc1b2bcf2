/** Bytes and FIFO words. */
module MailboxWire {
  import opened Common

  /** The words `mbox_write_fifo` queues: little-endian, the last one padded with zeroes. */
  function Pack(bytes: seq<Byte>): (words: seq<Word>)
    ensures |words| == (|bytes| + 3) / 4
  {
    if bytes == [] then []
    else if |bytes| < 4 then [PackLast(bytes)]
    else [FromLe(bytes[0], bytes[1], bytes[2], bytes[3])] + Pack(bytes[4..])
  }

  function PackLast(bytes: seq<Byte>): Word
    requires 0 < |bytes| < 4
  {
    FromLe(bytes[0], if |bytes| > 1 then bytes[1] else 0, if |bytes| > 2 then bytes[2] else 0, 0)
  }

  /** The first `n` bytes of a word stream; an exhausted FIFO reads as zero. */
  function Unpack(words: seq<Word>, n: nat): (bytes: seq<Byte>)
    ensures |bytes| == n
  {
    var head := ToLe(if words == [] then 0 else words[0]);
    if n <= 4 then head[..n]
    else head + Unpack(if words == [] then [] else words[1..], n - 4)
  }

  /** What is queued can be read back, for every length modulo 4. */
  lemma {:induction false} UnpackPack(bytes: seq<Byte>)
    ensures Unpack(Pack(bytes), |bytes|) == bytes
  {
    if 0 < |bytes| < 4 {
      ToLeInverse(bytes[0], if |bytes| > 1 then bytes[1] else 0, if |bytes| > 2 then bytes[2] else 0, 0);
    } else if 4 <= |bytes| {
      ToLeInverse(bytes[0], bytes[1], bytes[2], bytes[3]);
      UnpackPack(bytes[4..]);
      assert Pack(bytes)[1..] == Pack(bytes[4..]);
      assert bytes == bytes[..4] + bytes[4..];
    }
  }

  /** Word `i` holds bytes 4i to 4i+3, the first of them least significant. */
  lemma {:induction false} PackWord(bytes: seq<Byte>, i: nat)
    requires 4 * i + 4 <= |bytes|
    ensures Pack(bytes)[i] == bytes[4 * i] as int + 256 * bytes[4 * i + 1] as int
                              + 65536 * bytes[4 * i + 2] as int + 16777216 * bytes[4 * i + 3] as int
  {
    if i > 0 {
      PackWord(bytes[4..], i - 1);
      assert Pack(bytes)[i] == Pack(bytes[4..])[i - 1];
    }
  }

  /** The padding of the last word is zero. */
  lemma {:induction false} PaddingIsZero(bytes: seq<Byte>)
    requires |bytes| % 4 != 0
    ensures ToLe(Pack(bytes)[|bytes| / 4]) == bytes[|bytes| / 4 * 4..] + seq(4 - |bytes| % 4, i => 0)
  {
    if |bytes| < 4 {
      ToLeInverse(bytes[0], if |bytes| > 1 then bytes[1] else 0, if |bytes| > 2 then bytes[2] else 0, 0);
    } else {
      PaddingIsZero(bytes[4..]);
      assert bytes[4..][|bytes[4..]| / 4 * 4..] == bytes[|bytes| / 4 * 4..];
    }
  }
}
