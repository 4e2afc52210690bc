/** Command codec: the 31-byte outbound command header and recognition of the
    13-byte inbound status trailer (CSW). */
module Codec {
  import opened Bytes
  import opened Errors
  import opened Consts

  /** `Vec::resize(n, 0)`: pad with zeros, or truncate, to exactly `n` bytes. */
  function Resize(s: Bytes, n: nat): (r: Bytes)
    ensures |r| == n
    ensures forall i :: 0 <= i < n ==> r[i] == (if i < |s| then s[i] else 0)
  {
    if |s| >= n then s[..n] else s + Zeros(n - |s|)
  }

  function DirectionByte(isRead: bool): Byte
  {
    if isRead then READ_DIRECTION else 0
  }

  /** `make_cmd_header`: magic, check value (big-endian), maximum receive size
      (little-endian), direction, a reserved zero, the opcode length 16 (fixed,
      whatever the real length), then the opcode bytes, zero-padded or cut to
      31 bytes in all. */
  function MakeCmdHeader(cmd: seq<I8>, maxRecvSize: I32, isRead: bool, checkInt: I32): (h: Bytes)
    ensures |h| == HEADER_SIZE
    ensures h[0..4] == TX_HEADER_MAGIC
    ensures h[4..8] == BeI32(checkInt)
    ensures h[8..12] == LeI32(maxRecvSize)
    ensures h[12] == (if isRead then 0x80 else 0x00)
    ensures h[13] == 0 && h[14] == 16
    ensures forall i :: 15 <= i < HEADER_SIZE ==> h[i] == (if i - 15 < |cmd| then AsU8(cmd[i - 15]) else 0)
  {
    var fields := TX_HEADER_MAGIC + BeI32(checkInt) + LeI32(maxRecvSize)
      + [DirectionByte(isRead), 0, OPCODE_LENGTH_FIELD];
    assert |fields| == 15;
    var h := Resize(fields + Unsigned(cmd), HEADER_SIZE);
    assert h[0..4] == fields[0..4];
    assert h[4..8] == fields[4..8];
    assert h[8..12] == fields[8..12];
    h
  }

  /** The fields of a command header as the device reads them. */
  datatype CmdHeader = CmdHeader(checkInt: I32, maxRecvSize: I32, isRead: bool, opcode: Bytes)

  /** The 16 opcode bytes a header carries for a command buffer. */
  function OpcodeField(cmd: seq<I8>): (r: Bytes)
    ensures |r| == 16
  {
    Resize(Unsigned(cmd), 16)
  }

  /** Reads a command header back into its fields; `None` for any buffer that
      is not laid out as one. */
  function ParseCmdHeader(h: Bytes): (r: Option<CmdHeader>)
    ensures r.Some? ==> |h| == HEADER_SIZE && |r.value.opcode| == 16
  {
    if |h| != HEADER_SIZE || h[..4] != TX_HEADER_MAGIC || (h[12] != 0 && h[12] != READ_DIRECTION)
      || h[13] != 0 || h[14] != OPCODE_LENGTH_FIELD
    then None
    else Some(CmdHeader(FromBeI32(h[4..8]), FromLeI32(h[8..12]), h[12] == READ_DIRECTION, h[15..]))
  }

  /** Parsing a built header recovers every field. */
  lemma ParseMakeCmdHeader(cmd: seq<I8>, maxRecvSize: I32, isRead: bool, checkInt: I32)
    ensures ParseCmdHeader(MakeCmdHeader(cmd, maxRecvSize, isRead, checkInt))
         == Some(CmdHeader(checkInt, maxRecvSize, isRead, OpcodeField(cmd)))
  {
    var h := MakeCmdHeader(cmd, maxRecvSize, isRead, checkInt);
    FromBeI32OfBeI32(checkInt);
    FromLeI32OfLeI32(maxRecvSize);
    assert h[..4] == h[0..4];
    assert h[15..] == OpcodeField(cmd);
  }

  /** Every well-formed header is the one built from its own fields. */
  lemma MakeParseCmdHeader(h: Bytes)
    requires ParseCmdHeader(h).Some?
    ensures var c := ParseCmdHeader(h).value;
            MakeCmdHeader(Signed(c.opcode), c.maxRecvSize, c.isRead, c.checkInt) == h
  {
    var c := ParseCmdHeader(h).value;
    var h' := MakeCmdHeader(Signed(c.opcode), c.maxRecvSize, c.isRead, c.checkInt);
    BeI32OfFromBeI32(h[4..8]);
    LeI32OfFromLeI32(h[8..12]);
    assert h'[4..8] == h[4..8];
    assert h'[8..12] == h[8..12];
    forall i | 0 <= i < HEADER_SIZE
      ensures h'[i] == h[i]
    {
      if i < 4 {
        assert h'[i] == h'[0..4][i] && h[i] == h[..4][i];
      } else if i < 8 {
        assert h'[i] == h'[4..8][i - 4] && h[i] == h[4..8][i - 4];
      } else if i < 12 {
        assert h'[i] == h'[8..12][i - 8] && h[i] == h[8..12][i - 8];
      } else if i >= 15 {
        assert h[i] == c.opcode[i - 15];
      }
    }
  }

  /** `is_msg_csw`: the last 13 bytes start with "USBS" and, unless the check
      value is 0, the next four bytes are the check value big-endian. */
  predicate IsMsgCsw(buf: Bytes, checkInt: I32)
  {
    var len := |buf|;
    if len < CSW_SIZE then false
    else
      var isFirstPartOk := buf[len - 13..len - 9] == RX_HEADER_MAGIC;
      if checkInt == 0 then isFirstPartOk
      else isFirstPartOk && buf[len - 9..len - 5] == BeI32(checkInt)
  }

  /** A status trailer as the device sends it: magic, the echoed check value,
      then five bytes (data residue and status) the host does not inspect. */
  function MakeCsw(checkInt: I32, tail: Bytes): (r: Bytes)
    requires |tail| == 5
    ensures |r| == CSW_SIZE && r[..4] == RX_HEADER_MAGIC && r[8..] == tail
  {
    RX_HEADER_MAGIC + BeI32(checkInt) + tail
  }

  /** With a nonzero check value, a buffer is a trailer exactly when its last 13
      bytes are the trailer for that check value. */
  lemma CswCharacterised(buf: Bytes, checkInt: I32)
    requires checkInt != 0
    ensures IsMsgCsw(buf, checkInt)
        <==> |buf| >= CSW_SIZE && buf[|buf| - 13..] == MakeCsw(checkInt, buf[|buf| - 5..])
  {
    if |buf| >= CSW_SIZE {
      var w := buf[|buf| - 13..];
      var t := MakeCsw(checkInt, buf[|buf| - 5..]);
      assert w[..4] == buf[|buf| - 13..|buf| - 9];
      assert w[4..8] == buf[|buf| - 9..|buf| - 5];
      assert t[4..8] == BeI32(checkInt);
      if w == t {
        assert w[..4] == t[..4] && w[4..8] == t[4..8];
      }
      if IsMsgCsw(buf, checkInt) {
        assert w == w[..4] + w[4..8] + w[8..];
      }
    }
  }

  /** Any bytes followed by a trailer are recognised, with the trailer's check
      value or with the check disabled. */
  lemma CswRecognised(prefix: Bytes, checkInt: I32, tail: Bytes)
    requires |tail| == 5
    ensures IsMsgCsw(prefix + MakeCsw(checkInt, tail), checkInt)
    ensures IsMsgCsw(prefix + MakeCsw(checkInt, tail), 0)
  {
    var b := prefix + MakeCsw(checkInt, tail);
    assert b[|b| - 13..|b| - 9] == RX_HEADER_MAGIC;
    assert b[|b| - 9..|b| - 5] == BeI32(checkInt);
  }

  /** A trailer echoing a different nonzero check value is not accepted. */
  lemma CswOtherCheckRejected(prefix: Bytes, checkInt: I32, other: I32, tail: Bytes)
    requires |tail| == 5 && other != 0 && other != checkInt
    ensures !IsMsgCsw(prefix + MakeCsw(checkInt, tail), other)
  {
    var b := prefix + MakeCsw(checkInt, tail);
    assert b[|b| - 9..|b| - 5] == BeI32(checkInt);
    if BeI32(checkInt) == BeI32(other) {
      BeI32Injective(checkInt, other);
    }
  }
}
