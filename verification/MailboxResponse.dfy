/** Preparing responses (checksum, variable length) and accepting them on the other side. */
module MailboxResponse {
  import opened Common
  import opened Checksum

  const REQ_HEADER_SIZE: nat := 4         // chksum
  const RESP_HEADER_SIZE: nat := 8        // chksum, fips_status
  const VAR_HEADER_SIZE: nat := 12        // chksum, fips_status, data_len
  const FIPS_STATUS_APPROVED: Word := 0
  const FIPS_STATUS_USER_SUPPLIED_DIGEST: Word := 0x5553_5244

  function WordAt(bytes: seq<Byte>, at: nat): Word
    requires at + 4 <= |bytes|
  {
    FromLe(bytes[at], bytes[at + 1], bytes[at + 2], bytes[at + 3])
  }

  // ---------- Preparing ----------

  /** A message with its first word replaced. */
  function Stamp(c: Word, msg: seq<Byte>): (r: seq<Byte>)
    requires |msg| >= 4
    ensures |r| == |msg| && r[4..] == msg[4..] && WordAt(r, 0) == c
  {
    var r := ToLe(c) + msg[4..];
    assert WordAt(r, 0) == FromLe(ToLe(c)[0], ToLe(c)[1], ToLe(c)[2], ToLe(c)[3]);
    r
  }

  /** A response with its first word replaced by the checksum of the rest. */
  function Sealed(msg: seq<Byte>): (r: seq<Byte>)
    requires |msg| >= 4
    ensures |r| == |msg| && r[4..] == msg[4..] && WordAt(r, 0) == ResponseChecksum(r[4..])
  {
    Stamp(ResponseChecksum(msg[4..]), msg)
  }

  method WriteFirstWord(msg: array<Byte>, c: Word)
    requires msg.Length >= 4
    modifies msg
    ensures msg[..] == Stamp(c, old(msg[..]))
  {
    var le := ToLe(c);
    forall i | 0 <= i < 4 {
      msg[i] := le[i];
    }
    assert msg[..] == le + old(msg[..])[4..];
  }

  /** `calc_checksum(0, ..)` */
  method CalcResponseChecksum(data: seq<Byte>) returns (checksum: Word)
    ensures checksum == ResponseChecksum(data)
  {
    var cmd: Word := 0;
    ByteSumOfWord(cmd);
    checksum := CalcChecksum(cmd, data);
    ResponseChecksumIsChecksum(cmd, data);
  }

  /** `populate_checksum`; the source's slice split panics on fewer than four bytes. */
  method PopulateChecksum(msg: array<Byte>)
    requires msg.Length >= 4
    modifies msg
    ensures msg[..] == Sealed(old(msg[..]))
  {
    var payload := msg[4..];
    var checksum := CalcResponseChecksum(payload);
    assert payload == msg[..][4..];
    WriteFirstWord(msg, checksum);
  }

  /** `partial_len` */
  function PartialLen(bytes: seq<Byte>): Option<nat> {
    if |bytes| < VAR_HEADER_SIZE then None else Some(VAR_HEADER_SIZE + WordAt(bytes, 8))
  }

  /** `as_bytes`: the whole struct, or `as_bytes_partial` for a variable-size response. */
  function AsBytes(varSize: bool, bytes: seq<Byte>): Option<seq<Byte>> {
    if !varSize then Some(bytes)
    else
      var n := PartialLen(bytes);
      if n.None? || n.value > |bytes| then None else Some(bytes[..n.value])
  }

  /** `data` */
  function Data(bytes: seq<Byte>): Option<seq<Byte>> {
    if |bytes| < VAR_HEADER_SIZE || WordAt(bytes, 8) > |bytes| - VAR_HEADER_SIZE then None
    else Some(bytes[VAR_HEADER_SIZE..][..WordAt(bytes, 8)])
  }

  /** The two views of a variable-size response agree, in success and in failure. */
  lemma PartialIsHeaderAndData(bytes: seq<Byte>)
    ensures Data(bytes).Some? <==> AsBytes(true, bytes).Some?
    ensures Data(bytes).Some? ==> AsBytes(true, bytes).value == bytes[..VAR_HEADER_SIZE] + Data(bytes).value
  {
  }

  /** A header for `data`, then `data`, then anything, is a variable-size response that holds exactly `data`. */
  lemma VarSizeRoundTrip(checksum: seq<Byte>, fips: seq<Byte>, data: seq<Byte>, rest: seq<Byte>)
    requires |checksum| == 4 && |fips| == 4 && |data| < TWO_TO_THE_32
    ensures var header := checksum + fips + ToLe(|data|);
            && Data(header + data + rest) == Some(data)
            && AsBytes(true, header + data + rest) == Some(header + data)
  {
    var header := checksum + fips + ToLe(|data|);
    var bytes := header + data + rest;
    assert bytes[..12] == header && bytes[12..] == data + rest;
    assert WordAt(bytes, 8) == |data| by {
      forall k | 0 <= k < 4 ensures bytes[8 + k] == ToLe(|data|)[k] {
        assert bytes[8 + k] == header[8 + k];
      }
    }
    assert bytes[..12 + |data|] == header + data;
  }

  /** `MailboxResp::populate_chksum`, on the bytes of the response struct. */
  method PopulateResponse(varSize: bool, resp: array<Byte>) returns (ok: bool)
    modifies resp
    ensures ok <==> AsBytes(varSize, old(resp[..])).Some? && |AsBytes(varSize, old(resp[..])).value| >= RESP_HEADER_SIZE
    ensures !ok ==> resp[..] == old(resp[..])
    ensures ok ==> resp[..] == Stamp(ResponseChecksum(AsBytes(varSize, old(resp[..])).value[4..]), old(resp[..]))
  {
    var bytes := AsBytes(varSize, resp[..]);
    if bytes.None? || 4 >= |bytes.value| {
      return false;
    }
    var checksum := CalcResponseChecksum(bytes.value[4..]);
    if RESP_HEADER_SIZE > |bytes.value| {
      return false;
    }
    WriteFirstWord(resp, checksum);
    return true;
  }

  /** Writing the checksum keeps the (partial) length, and what is sent is the sealed message. */
  lemma PopulateSeals(varSize: bool, before: seq<Byte>, after: seq<Byte>)
    requires AsBytes(varSize, before).Some? && |AsBytes(varSize, before).value| >= RESP_HEADER_SIZE
    requires after == Stamp(ResponseChecksum(AsBytes(varSize, before).value[4..]), before)
    ensures varSize ==> PartialLen(after) == PartialLen(before)
    ensures AsBytes(varSize, after) == Some(Sealed(AsBytes(varSize, before).value))
  {
    StampKeepsLength(varSize, before, ResponseChecksum(AsBytes(varSize, before).value[4..]));
  }

  lemma StampKeepsLength(varSize: bool, msg: seq<Byte>, c: Word)
    requires AsBytes(varSize, msg).Some? && |AsBytes(varSize, msg).value| >= RESP_HEADER_SIZE
    ensures varSize ==> PartialLen(Stamp(c, msg)) == PartialLen(msg)
    ensures AsBytes(varSize, Stamp(c, msg)) == Some(Stamp(c, AsBytes(varSize, msg).value))
  {
    var s := Stamp(c, msg);
    SameTail(s, msg);
    if varSize {
      var n := PartialLen(msg).value;
      assert msg[..n][4..] == msg[4..][..n - 4];
      assert s[..n] == Stamp(c, msg[..n]);
    }
  }

  // ---------- Accepting ----------

  datatype RespError = UnexpectedLength | InvalidChecksum | InvalidFipsStatus

  predicate AcceptedFips(status: Word) {
    status == FIPS_STATUS_APPROVED || status == FIPS_STATUS_USER_SUPPLIED_DIGEST
  }

  function Padded(data: seq<Byte>, size: nat): (r: seq<Byte>)
    requires |data| <= size
    ensures |r| == size && r[..|data|] == data
    ensures forall i :: |data| <= i < size ==> r[i] == 0
  {
    data + seq(size - |data|, i => 0)
  }

  /** The checks of `mailbox_exec_req` on a response of type size `size` and minimum size `minSize`. */
  function Accept(minSize: nat, size: nat, data: seq<Byte>): Result<seq<Byte>, RespError>
    requires RESP_HEADER_SIZE <= minSize
  {
    if |data| < minSize || |data| > size then Failure(UnexpectedLength)
    else if ResponseChecksum(data[4..]) != WordAt(data, 0) then Failure(InvalidChecksum)
    else if !AcceptedFips(WordAt(data, 4)) then Failure(InvalidFipsStatus)
    else Success(Padded(data, size))
  }

  /** Exactly when a response is refused, and why; the length is checked before the checksum, the checksum before the status. */
  lemma AcceptOutcome(minSize: nat, size: nat, data: seq<Byte>)
    requires RESP_HEADER_SIZE <= minSize
    ensures var r := Accept(minSize, size, data);
            if |data| < minSize || |data| > size then r == Failure(UnexpectedLength)
            else if (WordAt(data, 0) + ByteSum(data[4..])) % TWO_TO_THE_32 != 0 then r == Failure(InvalidChecksum)
            else if WordAt(data, 4) != 0 && WordAt(data, 4) != 0x5553_5244 then r == Failure(InvalidFipsStatus)
            else r.Success? && |r.value| == size && r.value[..|data|] == data && forall i :: |data| <= i < size ==> r.value[i] == 0
  {
    if minSize <= |data| <= size {
      NegatedLaw(ByteSum(data[4..]), WordAt(data, 0));
    }
  }

  /** A prepared response of acceptable length and FIPS status is accepted and zero-padded. */
  lemma PreparedIsAccepted(minSize: nat, size: nat, msg: seq<Byte>)
    requires RESP_HEADER_SIZE <= minSize <= |msg| <= size && AcceptedFips(WordAt(msg, 4))
    ensures Accept(minSize, size, Sealed(msg)) == Success(Padded(Sealed(msg), size))
  {
    var s := Sealed(msg);
    SameTail(s, msg);
  }

  lemma SameTail(s: seq<Byte>, t: seq<Byte>)
    requires |s| == |t| >= 4 && s[4..] == t[4..]
    ensures forall k :: 4 <= k < |s| ==> s[k] == t[k]
  {
    forall k | 4 <= k < |s| ensures s[k] == t[k] {
      assert s[k] == s[4..][k - 4] == t[4..][k - 4];
    }
  }

  /** Any message that differs from a prepared one in exactly one position is rejected. */
  lemma OneByteIsRejected(minSize: nat, size: nat, msg: seq<Byte>, i: nat, b: Byte)
    requires RESP_HEADER_SIZE <= minSize <= |msg| <= size
    requires i < |msg| && b != Sealed(msg)[i]
    ensures Accept(minSize, size, Sealed(msg)[i := b]) == Failure(InvalidChecksum)
  {
    var s := Sealed(msg);
    var t := s[i := b];
    if i < 4 {
      assert t[4..] == s[4..];
      assert WordAt(t, 0) != WordAt(s, 0) by { WordChanges(s, i, b); }
    } else {
      assert t[4..] == s[4..][i - 4 := b];
      DetectsOneByte(WordAt(s, 0), s[4..], i - 4, b);
    }
  }

  lemma WordChanges(s: seq<Byte>, i: nat, b: Byte)
    requires i < 4 <= |s| && b != s[i]
    ensures WordAt(s[i := b], 0) != WordAt(s, 0)
  {
  }
}
