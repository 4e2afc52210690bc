/** Response decoders: what each operation makes of the payload the retry
    layer hands back, and the opcode buffers that carry a parameter. */
module Responses {
  import opened Bytes
  import opened Errors
  import opened Consts
  import opened Settings

  // ---------------------------------------------------------------------
  // Thermal status
  // ---------------------------------------------------------------------

  datatype ThermalStatus = ThermalOk | OverheatLow | OverheatHigh | Cold

  function ThermalCode(t: ThermalStatus): (c: I8)
    ensures 0 <= c <= 3
  {
    match t
    case ThermalOk => 0 case OverheatLow => 1 case OverheatHigh => 2 case Cold => 3
  }

  /** `ThermalStatus::try_from(b as i8)`, with a failure reported as
      `InvalidFormat`. */
  function ThermalFromByte(b: Byte): (r: Result<ThermalStatus>)
    ensures r.Ok? <==> b < 4
    ensures r.Ok? ==> ThermalCode(r.value) == b
    ensures !r.Ok? ==> r == Err(InvalidFormat)
  {
    var c := AsI8(b);
    if c == 0 then Ok(ThermalOk) else if c == 1 then Ok(OverheatLow)
    else if c == 2 then Ok(OverheatHigh) else if c == 3 then Ok(Cold)
    else Err(InvalidFormat)
  }

  lemma ThermalRoundTrip(t: ThermalStatus)
    ensures ThermalFromByte(ThermalCode(t)) == Ok(t)
  {
  }

  // ---------------------------------------------------------------------
  // Status flags
  // ---------------------------------------------------------------------

  /** The four `check_*` requests: byte 0 is the verdict; 1 and 3 mean "not
      done", everything else means done. An empty payload is
      `InvalidLength { expected: 1, received: 0 }`. */
  function CheckFlag(data: Bytes): (r: Result<bool>)
    ensures !r.Panic?
    ensures r.Err? <==> |data| == 0
    ensures r.Err? ==> r.error == InvalidLength(1, 0)
    ensures r.Ok? ==> (r.value <==> data[0] !in {1, 3})
  {
    if |data| == 0 then Err(InvalidLength(1, 0))
    else Ok(data[0] != 3 && data[0] != 1)
  }

  // ---------------------------------------------------------------------
  // Length-prefixed payloads (live view, thumbnail, picture buffer)
  // ---------------------------------------------------------------------

  /** A reply whose fixed-size header ends with a little-endian `u32` payload
      length: the header must be there, then the payload it announces;
      anything after the payload is ignored. */
  function Envelope(data: Bytes, headerSize: nat): (r: Result<Bytes>)
    requires headerSize >= 4
    ensures !r.Panic?
    ensures r.Err? ==> r.error.InvalidLength? && r.error.received == |data|
                       && r.error.expected > |data|
    ensures |data| < headerSize ==> r == Err(InvalidLength(headerSize, |data|))
    ensures |data| >= headerSize && |data| < headerSize + FromLeU32(data[headerSize - 4..headerSize]) ==>
              r == Err(InvalidLength(headerSize + FromLeU32(data[headerSize - 4..headerSize]), |data|))
    ensures r.Ok? ==> |data| >= headerSize + |r.value|
                      && |r.value| == FromLeU32(data[headerSize - 4..headerSize])
                      && r.value == data[headerSize..headerSize + |r.value|]
  {
    if |data| < headerSize then Err(InvalidLength(headerSize, |data|))
    else
      var n := FromLeU32(data[headerSize - 4..headerSize]);
      if |data| < headerSize + n then Err(InvalidLength(headerSize + n, |data|))
      else Ok(data[headerSize..headerSize + n])
  }

  /** The reply a device builds: a header whose last four bytes announce the
      payload length, the payload, then anything. */
  function Enclose(head: Bytes, payload: Bytes, rest: Bytes): (r: Bytes)
    requires |payload| < 0x1_0000_0000
  {
    head + LeU32(|payload|) + payload + rest
  }

  /** Every enclosed payload is recovered whole. */
  lemma EnvelopeOfEnclose(head: Bytes, payload: Bytes, rest: Bytes)
    requires |payload| < 0x1_0000_0000
    ensures Envelope(Enclose(head, payload, rest), |head| + 4) == Ok(payload)
  {
    var data := Enclose(head, payload, rest);
    var h := |head| + 4;
    assert data[h - 4..h] == LeU32(|payload|);
    FromLeU32OfLeU32(|payload|);
    assert data[h..h + |payload|] == payload;
  }

  /** Every accepted reply is an enclosed payload: the envelope loses
      nothing but the bytes after the payload. */
  lemma EncloseOfEnvelope(data: Bytes, headerSize: nat)
    requires headerSize >= 4 && Envelope(data, headerSize).Ok?
    ensures var p := Envelope(data, headerSize).value;
            data == Enclose(data[..headerSize - 4], p, data[headerSize + |p|..])
  {
    var p := Envelope(data, headerSize).value;
    LeU32OfFromLeU32(data[headerSize - 4..headerSize]);
    assert data == data[..headerSize - 4] + data[headerSize - 4..headerSize]
                   + data[headerSize..headerSize + |p|] + data[headerSize + |p|..];
  }

  /** One part of a live-view frame: the payload, whether it is the last part
      (byte 1 is 1), and the raw thermal byte (byte 20). */
  datatype FramePart = FramePart(payload: Bytes, last: bool, thermal: Byte)

  const LIVE_VIEW_HEADER_SIZE: nat := 32
  const PICTURE_HEADER_SIZE: nat := 20

  /** One iteration of `get_live_view_frame`'s loop: at least 32 bytes, then
      the payload announced at bytes 28..32. */
  function DecodeFramePart(data: Bytes): (r: Result<FramePart>)
    ensures !r.Panic?
    ensures r.Ok? <==> Envelope(data, LIVE_VIEW_HEADER_SIZE).Ok?
    ensures r.Err? ==> r.error == Envelope(data, LIVE_VIEW_HEADER_SIZE).error
    ensures r.Ok? ==> && r.value.payload == Envelope(data, LIVE_VIEW_HEADER_SIZE).value
                      && (r.value.last <==> data[1] == 1) && r.value.thermal == data[20]
  {
    var e := Envelope(data, LIVE_VIEW_HEADER_SIZE);
    if !e.Ok? then e.Cast()
    else Ok(FramePart(e.value, data[1] == 1, data[20]))
  }

  /** `get_thumbnail`: the payload announced at bytes 16..20. */
  function DecodeThumbnail(data: Bytes): (r: Result<Bytes>)
    ensures !r.Panic?
    ensures |data| < PICTURE_HEADER_SIZE ==> r == Err(InvalidLength(20, |data|))
    ensures r.Ok? ==> |data| >= 20 + |r.value| && |r.value| == FromLeU32(data[16..20])
                      && r.value == data[20..20 + |r.value|]
  {
    Envelope(data, PICTURE_HEADER_SIZE)
  }

  /** One part of the picture buffer and whether it is the last. */
  datatype PicturePart = PicturePart(payload: Bytes, isEnd: bool)

  /** `get_partial_picture_buffer`: like a thumbnail, and byte 1 says whether
      this is the last part. */
  function DecodePicturePart(data: Bytes): (r: Result<PicturePart>)
    ensures !r.Panic?
    ensures r.Ok? <==> DecodeThumbnail(data).Ok?
    ensures r.Err? ==> r.error == DecodeThumbnail(data).error
    ensures r.Ok? ==> r.value.payload == DecodeThumbnail(data).value && (r.value.isEnd <==> data[1] == 1)
  {
    if |data| < PICTURE_HEADER_SIZE then Err(InvalidLength(20, |data|))
    else
      var isEnd := data[1] == 1;
      var e := DecodeThumbnail(data);
      if !e.Ok? then e.Cast()
      else Ok(PicturePart(e.value, isEnd))
  }

  // ---------------------------------------------------------------------
  // Capture status
  // ---------------------------------------------------------------------

  datatype CaptureStatus =
    | ThumbnailAvailable(storedPicNum: Byte, isExposureReady: bool, pictureStatus: Byte,
                         pictureString: Option<Bytes>)
    | TryAgain
    | Captured

  /** Where the picture name sits in a capture-status reply. */
  const PICTURE_STRING_START: nat := 8
  const PICTURE_STRING_END: nat := 72

  /** `check_capture_status`: byte 0 is 1 (try again), 3 (captured), 0 (a
      thumbnail is available: then at least 9 bytes, with the picture status
      at byte 1, exposure ready when byte 2 is 0, the stored picture count at
      byte 3, and a NUL-terminated name from byte 8 within the first 72
      bytes when byte 8 is not 0), or anything else (`InvalidFormat`). */
  function DecodeCaptureStatus(data: Bytes): (r: Result<CaptureStatus>)
    ensures !r.Panic?
    ensures |data| == 0 ==> r == Err(InvalidLength(1, 0))
    ensures |data| > 0 && data[0] == 1 ==> r == Ok(TryAgain)
    ensures |data| > 0 && data[0] == 3 ==> r == Ok(Captured)
    ensures |data| > 0 && data[0] !in {0, 1, 3} ==> r == Err(InvalidFormat)
    ensures 0 < |data| < 9 && data[0] == 0 ==> r == Err(InvalidLength(9, |data|))
    ensures |data| >= 9 && data[0] == 0 ==> r.Ok? && r.value.ThumbnailAvailable?
    ensures r.Ok? && r.value.ThumbnailAvailable? ==>
              && |data| >= 9 && data[0] == 0
              && r.value.storedPicNum == data[3] && r.value.pictureStatus == data[1]
              && (r.value.isExposureReady <==> data[2] == 0)
              && (r.value.pictureString.Some? <==> data[8] != 0)
    ensures r.Ok? && r.value.ThumbnailAvailable? && r.value.pictureString.Some? ==>
              var name := r.value.pictureString.value;
              && 0 < |name| <= PICTURE_STRING_END - PICTURE_STRING_START
              && 8 + |name| <= |data| && name == data[8..8 + |name|]
              && (forall i :: 0 <= i < |name| ==> name[i] != 0)
              && (8 + |name| == Min(|data|, PICTURE_STRING_END) || data[8 + |name|] == 0)
  {
    if |data| == 0 then Err(InvalidLength(1, 0))
    else if data[0] == 1 then Ok(TryAgain)
    else if data[0] == 3 then Ok(Captured)
    else if data[0] != 0 then Err(InvalidFormat)
    else if |data| < 9 then Err(InvalidLength(9, |data|))
    else
      var name := if data[8] != 0
        then Some(TakeUntilNul(data[PICTURE_STRING_START..Min(|data|, PICTURE_STRING_END)]))
        else None;
      Ok(ThumbnailAvailable(data[3], data[2] == 0, data[1], name))
  }

  // ---------------------------------------------------------------------
  // Camera status
  // ---------------------------------------------------------------------

  datatype CameraStatus = CameraStatus(executionStatus: Byte, thermal: ThermalStatus)

  /** `get_camera_status`: at least 5 bytes; byte 1 is passed through, byte 4
      must be a thermal status. */
  function DecodeCameraStatus(data: Bytes): (r: Result<CameraStatus>)
    ensures !r.Panic?
    ensures |data| < 5 ==> r == Err(InvalidLength(5, |data|))
    ensures |data| >= 5 ==> (r.Ok? <==> data[4] < 4)
    ensures |data| >= 5 && data[4] >= 4 ==> r == Err(InvalidFormat)
    ensures r.Ok? ==> r.value.executionStatus == data[1] && ThermalCode(r.value.thermal) == data[4]
  {
    if |data| < 5 then Err(InvalidLength(5, |data|))
    else
      var t := ThermalFromByte(data[4]);
      if !t.Ok? then t.Cast()
      else Ok(CameraStatus(data[1], t.value))
  }

  // ---------------------------------------------------------------------
  // Version strings
  // ---------------------------------------------------------------------

  /** Byte value of ASCII 'v', the first character of a version string. */
  const VERSION_MARK: Byte := 118

  const CAMERA_INFO_VERSION_AT: nat := 97
  const CAMERA_INFO_VERSION_END: nat := 129
  const SCSI_VERSION_AT: nat := 1
  const SCSI_VERSION_END: nat := 33

  /** A NUL-terminated version string at `at`, read when its first byte is
      'v'; the caller guarantees `at < |data|`. */
  function VersionAt(data: Bytes, at: nat, end: nat): (r: Option<Bytes>)
    requires at < |data| && at < end
    ensures r.Some? <==> data[at] == VERSION_MARK
    ensures r.Some? ==> && 0 < |r.value| <= end - at && r.value[0] == VERSION_MARK
                        && at + |r.value| <= |data| && r.value == data[at..at + |r.value|]
                        && (forall i :: 0 <= i < |r.value| ==> r.value[i] != 0)
                        && (at + |r.value| == Min(|data|, end) || data[at + |r.value|] == 0)
  {
    if data[at] == VERSION_MARK then Some(TakeUntilNul(data[at..Min(|data|, end)])) else None
  }

  /** `get_camera_info` as written: the length guard lets a 97-byte reply
      through to `data[97]`, which panics. */
  function CameraInfoAsWritten(data: Bytes): (r: Result<Option<Bytes>>)
    ensures |data| < 97 ==> r == Err(InvalidLength(97, |data|))
    ensures r.Panic? <==> |data| == 97
    ensures |data| > 97 ==> r == Ok(VersionAt(data, CAMERA_INFO_VERSION_AT, CAMERA_INFO_VERSION_END))
  {
    if |data| < 97 then Err(InvalidLength(97, |data|))
    else if |data| <= CAMERA_INFO_VERSION_AT then Panic(CameraInfoIndex97)
    else Ok(VersionAt(data, CAMERA_INFO_VERSION_AT, CAMERA_INFO_VERSION_END))
  }

  /** A 97-byte reply passes the guard and then indexes past its end. */
  lemma CameraInfoGuardTooWeak()
    ensures CameraInfoAsWritten(Zeros(97)) == Panic(CameraInfoIndex97)
  {
  }

  /** `get_camera_info` with a guard that also protects the read of byte 97:
      replies under 97 bytes fail as in the original, and a reply of exactly
      97 bytes is a length error asking for 98. */
  function CameraInfo(data: Bytes): (r: Result<Option<Bytes>>)
    ensures !r.Panic?
    ensures r.Err? <==> |data| <= CAMERA_INFO_VERSION_AT
    ensures |data| < 97 ==> r == Err(InvalidLength(97, |data|))
    ensures |data| == 97 ==> r == Err(InvalidLength(CAMERA_INFO_VERSION_AT + 1, 97))
    ensures r.Ok? ==> r.value == VersionAt(data, CAMERA_INFO_VERSION_AT, CAMERA_INFO_VERSION_END)
  {
    if |data| < 97 then Err(InvalidLength(97, |data|))
    else if |data| <= CAMERA_INFO_VERSION_AT then Err(InvalidLength(CAMERA_INFO_VERSION_AT + 1, |data|))
    else Ok(VersionAt(data, CAMERA_INFO_VERSION_AT, CAMERA_INFO_VERSION_END))
  }

  /** The corrected decoder agrees with the original on every reply except
      the one length where the original panics. */
  lemma CameraInfoAgrees(data: Bytes)
    ensures |data| != 97 <==> CameraInfo(data) == CameraInfoAsWritten(data)
  {
  }

  /** `get_scsi_version` as written: the emptiness check lets a 1-byte reply
      through to `data[1]`, which panics. */
  function ScsiVersionAsWritten(data: Bytes): (r: Result<Option<Bytes>>)
    ensures |data| == 0 ==> r == Err(InvalidLength(1, 0))
    ensures r.Panic? <==> |data| == 1
    ensures |data| > 1 ==> r == Ok(VersionAt(data, SCSI_VERSION_AT, SCSI_VERSION_END))
  {
    if |data| == 0 then Err(InvalidLength(1, 0))
    else if |data| <= SCSI_VERSION_AT then Panic(ScsiVersionIndex1)
    else Ok(VersionAt(data, SCSI_VERSION_AT, SCSI_VERSION_END))
  }

  /** A 1-byte reply (a bare status byte) passes the check and then indexes
      past its end. */
  lemma ScsiVersionGuardTooWeak()
    ensures ScsiVersionAsWritten([0]) == Panic(ScsiVersionIndex1)
  {
  }

  /** `get_scsi_version` with a guard that also protects the read of byte 1:
      the empty reply fails as in the original, and a 1-byte reply is a
      length error asking for 2. */
  function ScsiVersion(data: Bytes): (r: Result<Option<Bytes>>)
    ensures !r.Panic?
    ensures r.Err? <==> |data| <= SCSI_VERSION_AT
    ensures |data| == 0 ==> r == Err(InvalidLength(1, 0))
    ensures |data| == 1 ==> r == Err(InvalidLength(SCSI_VERSION_AT + 1, 1))
    ensures r.Ok? ==> r.value == VersionAt(data, SCSI_VERSION_AT, SCSI_VERSION_END)
  {
    if |data| == 0 then Err(InvalidLength(1, 0))
    else if |data| <= SCSI_VERSION_AT then Err(InvalidLength(SCSI_VERSION_AT + 1, |data|))
    else Ok(VersionAt(data, SCSI_VERSION_AT, SCSI_VERSION_END))
  }

  /** The corrected decoder agrees with the original on every reply except
      the one length where the original panics. */
  lemma ScsiVersionAgrees(data: Bytes)
    ensures |data| != 1 <==> ScsiVersion(data) == ScsiVersionAsWritten(data)
  {
  }

  // ---------------------------------------------------------------------
  // Opcode buffers with a parameter
  // ---------------------------------------------------------------------

  /** `start_live_view`: the resolution code goes to byte 9. */
  function StartLiveViewCmd(res: LiveViewResolution): (cmd: seq<I8>)
    ensures |cmd| == |START_LIVE_VIEW|
    ensures LiveViewFromCode(cmd[9]) == Some(res)
    ensures forall i :: 0 <= i < |cmd| && i != 9 ==> cmd[i] == START_LIVE_VIEW[i]
  {
    START_LIVE_VIEW[9 := LiveViewCode(res)]
  }

  /** `take_picture`: the orientation code goes to byte 8. */
  function TakePictureCmd(o: PictureOrientation): (cmd: seq<I8>)
    ensures |cmd| == |TAKE_PICTURE|
    ensures OrientationFromCode(cmd[8]) == Some(o)
    ensures forall i :: 0 <= i < |cmd| && i != 8 ==> cmd[i] == TAKE_PICTURE[i]
  {
    TAKE_PICTURE[8 := OrientationCode(o)]
  }

  /** `write_setting` / `read_setting`: the setting selector goes to byte 2
      of the general-setting opcode. */
  function SettingCmd(base: seq<I8>, setting: SettingType): (cmd: seq<I8>)
    requires |base| > 2
    ensures |cmd| == |base|
    ensures SettingFromCode(cmd[2]) == Some(setting)
    ensures forall i :: 0 <= i < |cmd| && i != 2 ==> cmd[i] == base[i]
  {
    base[2 := SettingCode(setting)]
  }

  /** `get_partial_picture_buffer`: the number of bytes already received goes
      to bytes 8..12, little-endian, each byte as `i8`. */
  function ReadPicBufCmd(received: U32): (cmd: seq<I8>)
    ensures |cmd| == |READ_PIC_BUF|
    ensures cmd[..8] == READ_PIC_BUF[..8] && cmd[12..] == READ_PIC_BUF[12..]
    ensures Unsigned(cmd[8..12]) == LeU32(received)
  {
    var cmd := READ_PIC_BUF[..8] + Signed(LeU32(received)) + READ_PIC_BUF[12..];
    assert cmd[8..12] == Signed(LeU32(received));
    cmd
  }

  /** The offset a picture-buffer request asks for, as the device reads it:
      `None` for any buffer that is not a picture-buffer request. */
  function PicBufOffset(cmd: seq<I8>): (r: Option<U32>)
  {
    if |cmd| == |READ_PIC_BUF| && cmd[..8] == READ_PIC_BUF[..8] && cmd[12..] == READ_PIC_BUF[12..]
    then Some(FromLeU32(Unsigned(cmd[8..12])))
    else None
  }

  /** A picture-buffer request carries exactly the offset it was built with,
      and is the only request that reads back as that offset. */
  lemma ReadPicBufOffset(received: U32, cmd: seq<I8>)
    ensures PicBufOffset(ReadPicBufCmd(received)) == Some(received)
    ensures PicBufOffset(cmd) == Some(received) ==> cmd == ReadPicBufCmd(received)
  {
    var built := ReadPicBufCmd(received);
    FromLeU32OfLeU32(received);
    if PicBufOffset(cmd) == Some(received) {
      LeU32OfFromLeU32(Unsigned(cmd[8..12]));
      forall i | 8 <= i < 12
        ensures cmd[i] == built[i]
      {
        assert Unsigned(cmd[8..12])[i - 8] == Unsigned(built[8..12])[i - 8];
        AsI8AsU8(cmd[i]);
        AsI8AsU8(built[i]);
      }
      assert cmd == cmd[..8] + cmd[8..12] + cmd[12..];
      assert built == built[..8] + built[8..12] + built[12..];
    }
  }

  /** The write-all-settings opcode announces the size of the block it sends. */
  lemma WriteAllSettingsAnnouncesBlock(s: CamSettings)
    ensures WRITE_ALL_SETTINGS[4] as int == |ToBytes(s)|
  {
  }
}
