/** Failure-compatible results, machine-sized integers and little-endian words. */
module Common {

  datatype Option<+T> = None | Some(value: T)

  datatype Result<+T, +E> = Success(value: T) | Failure(error: E)

  const TWO_TO_THE_32: int := 0x1_0000_0000

  type Byte = b: int | 0 <= b < 256
  type Word = w: int | 0 <= w < TWO_TO_THE_32

  /** 32-bit addition as the release profile compiles it. */
  function WrappingAdd(a: int, b: int): (r: Word)
  {
    (a + b) % TWO_TO_THE_32
  }

  /** `u32::from_le_bytes` */
  function FromLe(b0: Byte, b1: Byte, b2: Byte, b3: Byte): (w: Word)
  {
    b0 + 256 * b1 + 65536 * b2 + 16777216 * b3
  }

  /** `u32::to_le_bytes` */
  function ToLe(w: Word): (bs: seq<Byte>)
    ensures |bs| == 4
    ensures FromLe(bs[0], bs[1], bs[2], bs[3]) == w
  {
    var w1 := w / 256;
    var w2 := w1 / 256;
    [w % 256, w1 % 256, w2 % 256, w2 / 256]
  }

  /** The bytes of a word are its base-256 digits, least significant first. */
  lemma LittleEndian(w: Word)
    ensures ToLe(w) == [w % 256, w / 256 % 256, w / 65536 % 256, w / 16777216]
  {
    assert w / 256 / 256 == w / 65536 && w / 65536 / 256 == w / 16777216;
  }

  lemma ToLeInverse(b0: Byte, b1: Byte, b2: Byte, b3: Byte)
    ensures ToLe(FromLe(b0, b1, b2, b3)) == [b0, b1, b2, b3]
  {
    var w := FromLe(b0, b1, b2, b3);
    var w1 := b1 + 256 * b2 + 65536 * b3;
    var w2 := b2 + 256 * b3;
    assert w == b0 + 256 * w1 && w / 256 == w1 && w % 256 == b0;
    assert w1 == b1 + 256 * w2 && w1 / 256 == w2 && w1 % 256 == b1;
    assert w2 / 256 == b3 && w2 % 256 == b2;
  }

  lemma SplitFirst<T>(s: seq<T>)
    requires s != []
    ensures s == [s[0]] + s[1..]
  {
  }

  lemma SplitLast<T>(s: seq<T>)
    requires s != []
    ensures s == s[..|s| - 1] + [s[|s| - 1]]
  {
  }

  lemma Unsplit<T>(s: seq<T>, x: T)
    ensures (s + [x])[..|s|] == s && (s + [x])[|s|] == x
  {
  }

  lemma TakeNext<T>(s: seq<T>, i: nat)
    requires i < |s|
    ensures s[..i + 1] == s[..i] + [s[i]] && s[..i + 1][..i] == s[..i]
  {
  }

  lemma TakeAll<T>(s: seq<T>)
    ensures s[..|s|] == s
  {
  }

  lemma Associate<T>(a: seq<T>, b: seq<T>, c: seq<T>, d: seq<T>)
    ensures a + b + c + d == a + (b + (c + d))
  {
  }
}
