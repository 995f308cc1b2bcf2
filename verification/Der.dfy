/** `get_tbs`: cutting the to-be-signed part out of a DER certificate or request. */
module Der {
  import opened Common

  /** Every failure of the source is a panic. */
  datatype Panic = InvalidStartTag | UnsupportedLength | InvalidTbsTag | InvalidTbsLength | IndexOutOfBounds

  /** Bitwise or. */
  function BitOr(a: nat, b: nat): nat
    decreases a + b
  {
    if a == 0 then b
    else if b == 0 then a
    else 2 * BitOr(a / 2, b / 2) + if a % 2 == 1 || b % 2 == 1 then 1 else 0
  }

  /** The number of bytes of a length field, by its first byte. */
  function LengthBytes(first: Byte): Option<nat> {
    if first <= 0x7F then Some(1)
    else if first == 0x81 then Some(2)
    else if first == 0x82 then Some(3)
    else None
  }

  /** The source's size of the TBS encoding whose length field starts at `at`. */
  function TbsSize(der: seq<Byte>, at: nat): Result<nat, Panic>
    requires at < |der|
  {
    if der[at] <= 0x7F then Success(der[at] as nat + 2)
    else if der[at] == 0x81 then
      if at + 1 < |der| then Success(der[at + 1] as nat + 3) else Failure(IndexOutOfBounds)
    else if der[at] == 0x82 then
      if at + 2 < |der| then Success(BitOr(der[at + 1] as nat * 256, der[at + 2] as nat + 4)) else Failure(IndexOutOfBounds)
    else Failure(InvalidTbsLength)
  }

  function GetTbs(der: seq<Byte>): Result<seq<Byte>, Panic> {
    if |der| < 1 then Failure(IndexOutOfBounds)
    else if der[0] != 0x30 then Failure(InvalidStartTag)
    else if |der| < 2 then Failure(IndexOutOfBounds)
    else if LengthBytes(der[1]).None? then Failure(UnsupportedLength)
    else
      var offset := 1 + LengthBytes(der[1]).value;
      if |der| <= offset then Failure(IndexOutOfBounds)
      else if der[offset] != 0x30 then Failure(InvalidTbsTag)
      else if |der| <= offset + 1 then Failure(IndexOutOfBounds)
      else
        match TbsSize(der, offset + 1)
        case Failure(e) => Failure(e)
        case Success(size) =>
          if offset + size > |der| then Failure(IndexOutOfBounds) else Success(der[offset..offset + size])
  }

  // ---------- Bitwise or with a carry ----------

  /** `a << k` */
  function Shift(a: nat, k: nat): nat {
    if k == 0 then a else 2 * Shift(a, k - 1)
  }

  lemma Shift8(a: nat)
    ensures Shift(a, 8) == a * 256
  {
    assert Shift(a, 0) == a;
    assert Shift(a, 2) == 4 * a;
    assert Shift(a, 4) == 16 * a;
    assert Shift(a, 6) == 64 * a;
  }

  /** Or works on the high and the low bits separately. */
  lemma {:induction false} BitOrSplit(k: nat, a: nat, b: nat, y: nat)
    requires y < Shift(1, k)
    ensures BitOr(Shift(a, k), Shift(b, k) + y) == Shift(BitOr(a, b), k) + y
  {
    if k > 0 {
      BitOrSplit(k - 1, a, b, y / 2);
      BitOrStep(Shift(a, k - 1), Shift(b, k - 1) + y / 2, y % 2);
    }
  }

  lemma BitOrStep(m: nat, n: nat, bit: nat)
    requires bit < 2
    ensures BitOr(2 * m, 2 * n + bit) == 2 * BitOr(m, n) + bit
  {
    assert (2 * m) / 2 == m && (2 * n + bit) / 2 == n;
  }

  lemma BitOrOne(a: nat)
    ensures BitOr(a, 1) == if a % 2 == 1 then a else a + 1
  {
    if a > 0 {
      assert BitOr(a / 2, 0) == a / 2;
    }
  }

  lemma BitOrZero(a: nat)
    ensures BitOr(a, 0) == a
  {
  }

  /** The or of the shifted high byte with the low byte plus four: a sum, unless the carry meets a set bit. */
  lemma TwoByteLength(hi: Byte, lo: Byte)
    ensures BitOr(hi as nat * 256, lo as nat + 4)
            == hi as nat * 256 + lo as nat + 4 - if hi % 2 == 1 && lo >= 252 then 256 else 0
  {
    Shift8(hi);
    Shift8(0);
    Shift8(1);
    Shift8(BitOr(hi, 1));
    if lo < 252 {
      BitOrSplit(8, hi, 0, lo + 4);
      BitOrZero(hi);
    } else {
      BitOrSplit(8, hi, 1, lo - 252);
      BitOrOne(hi);
    }
  }

  // ---------- Encodings, per section 8.1.3 of ITU-T X.690 ----------

  datatype LengthForm = Short | Long1 | Long2

  predicate Encodable(form: LengthForm, n: nat) {
    match form
    case Short => n < 128
    case Long1 => n < 256
    case Long2 => n < 65536
  }

  function Length(form: LengthForm, n: nat): seq<Byte>
    requires Encodable(form, n)
  {
    match form
    case Short => [n]
    case Long1 => [0x81, n]
    case Long2 => [0x82, n / 256, n % 256]
  }

  /** A SEQUENCE with the given contents. */
  function Sequence(form: LengthForm, contents: seq<Byte>): seq<Byte>
    requires Encodable(form, |contents|)
  {
    [0x30] + Length(form, |contents|) + contents
  }

  /** The defect's guard: a two-byte TBS length with an odd high byte and a low byte of at least 252. */
  predicate CarryLost(form: LengthForm, n: nat) {
    form.Long2? && n / 256 % 2 == 1 && n % 256 >= 252
  }

  /**
    For every certificate SEQUENCE that starts with a TBS SEQUENCE, in any of the length forms, the
    result is the TBS encoding, or, if and only if the carry is lost, its prefix that is 256 bytes short.
   */
  lemma GetTbsResult(outer: LengthForm, inner: LengthForm, contents: seq<Byte>, rest: seq<Byte>, trailing: seq<Byte>)
    requires Encodable(inner, |contents|)
    requires Encodable(outer, |Sequence(inner, contents) + rest|)
    ensures var tbs := Sequence(inner, contents);
            var r := GetTbs(Sequence(outer, tbs + rest) + trailing);
            && (!CarryLost(inner, |contents|) <==> r == Success(tbs))
            && (CarryLost(inner, |contents|) ==> r == Success(tbs[..|tbs| - 256]))
  {
    var tbs := Sequence(inner, contents);
    var der := Sequence(outer, tbs + rest) + trailing;
    var offset := Header(outer, tbs + rest, trailing);
    assert der[offset..] == tbs + (rest + trailing);
    TbsAt(inner, contents, rest + trailing, der, offset);
    var lost := if CarryLost(inner, |contents|) then 256 else 0;
    SliceAt(der, offset, tbs, rest + trailing, |tbs| - lost);
    assert GetTbs(der) == Success(tbs[..|tbs| - lost]);
    TakeAll(tbs);
  }

  lemma SliceAt(der: seq<Byte>, offset: nat, tbs: seq<Byte>, after: seq<Byte>, n: nat)
    requires offset <= |der| && der[offset..] == tbs + after && n <= |tbs|
    ensures offset + n <= |der| && der[offset..offset + n] == tbs[..n]
  {
    assert der[offset..offset + n] == der[offset..][..n];
  }

  /** Where the contents of the outer SEQUENCE start. */
  lemma Header(outer: LengthForm, contents: seq<Byte>, trailing: seq<Byte>) returns (offset: nat)
    requires Encodable(outer, |contents|)
    ensures var der := Sequence(outer, contents) + trailing;
            && 2 <= offset <= |der|
            && der[0] == 0x30 && LengthBytes(der[1]) == Some(offset - 1)
            && der[offset..] == contents + trailing
  {
    offset := 1 + |Length(outer, |contents|)|;
    var der := Sequence(outer, contents) + trailing;
    assert der[1] == Length(outer, |contents|)[0];
    assert der[offset..] == contents + trailing;
  }

  lemma TbsAt(inner: LengthForm, contents: seq<Byte>, after: seq<Byte>, der: seq<Byte>, offset: nat)
    requires Encodable(inner, |contents|) && offset <= |der|
    requires der[offset..] == Sequence(inner, contents) + after
    ensures |der| >= offset + |Sequence(inner, contents)| >= offset + 2
    ensures der[offset] == 0x30
    ensures TbsSize(der, offset + 1) == Success(|Sequence(inner, contents)| - if CarryLost(inner, |contents|) then 256 else 0)
  {
    var tbs := Sequence(inner, contents);
    var n := |contents|;
    forall k | 0 <= k < |tbs| ensures der[offset + k] == tbs[k] {
      assert der[offset + k] == der[offset..][k];
    }
    if inner.Long2? {
      TwoByteLength(n / 256, n % 256);
      assert tbs[1] == 0x82 && tbs[2] == n / 256 && tbs[3] == n % 256;
    }
  }
}
