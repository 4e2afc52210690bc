/** The camera's operations: each sends one request through the retry layer
    (or one write exchange) and decodes what comes back. Contracts speak of
    the request log, whose last entry is the command sent and the payload the
    retry layer returned for it. */
module Camera {
  import opened Bytes
  import opened Errors
  import opened Consts
  import opened Codec
  import opened Transfer
  import opened Retry
  import opened Settings
  import opened Responses

  /** `l` is `link` with exactly one more request logged, for `cmd`. */
  ghost predicate Issued(link: Link, l: Link, cmd: seq<I8>)
  {
    && |l.requests| == |link.requests| + 1
    && l.requests[..|link.requests|] == link.requests
    && l.requests[|link.requests|].cmd == cmd
  }

  /** What the retry layer returned for the most recent request. */
  function LastReply(l: Link): Result<Bytes>
    requires |l.requests| > 0
  {
    l.requests[|l.requests| - 1].reply
  }

  /** The requests logged between `link` and a later state `l`. */
  ghost function NewRequests(link: Link, l: Link): seq<Request>
    requires Follows(link, l)
  {
    l.requests[|link.requests|..]
  }

  /** A payload whose status byte is 0 or 1. */
  ghost predicate AckReply(r: Result<Bytes>)
  {
    r.Ok? && |r.value| > 0 && r.value[0] in {0, 1}
  }

  /** The most recent request was answered with a payload whose status byte
      is 0 or 1. */
  ghost predicate Acknowledged(l: Link)
  {
    |l.requests| > 0 && AckReply(LastReply(l))
  }

  /** The most recent request was answered with a payload that has a status
      byte, and `verdict` says whether that byte is neither 1 nor 3. */
  ghost predicate Verdict(l: Link, verdict: bool)
  {
    && |l.requests| > 0 && LastReply(l).Ok? && |LastReply(l).value| > 0
    && (verdict <==> LastReply(l).value[0] !in {1, 3})
  }

  /** A payload with at least a status byte. */
  ghost predicate AnsweredReply(r: Result<Bytes>)
  {
    r.Ok? && |r.value| > 0
  }

  /** The most recent request was answered with a payload that has a status
      byte. */
  ghost predicate Answered(l: Link)
  {
    |l.requests| > 0 && AnsweredReply(LastReply(l))
  }

  /** The most recent request was answered with a payload whose byte 0 is
      `b`. */
  ghost predicate FirstByte(l: Link, b: Byte)
  {
    |l.requests| > 0 && LastReply(l).Ok? && |LastReply(l).value| > 0 && LastReply(l).value[0] == b
  }

  /** Every request of the log was for `cmd`. */
  ghost predicate AllFor(reqs: seq<Request>, cmd: seq<I8>)
  {
    forall i :: 0 <= i < |reqs| ==> reqs[i].cmd == cmd
  }

  /** The requests logged over two successive stretches are those of the
      first followed by those of the second. */
  lemma NewRequestsSplit(link: Link, mid: Link, fin: Link)
    requires Follows(link, mid) && Follows(mid, fin)
    ensures Follows(link, fin)
    ensures NewRequests(link, fin) == NewRequests(link, mid) + NewRequests(mid, fin)
  {
    FollowsTrans(link, mid, fin);
  }

  /** A request issued at `link`, then whatever follows up to `fin`: the new
      requests are that request followed by the later ones. */
  lemma IssuedSplit(link: Link, mid: Link, fin: Link, cmd: seq<I8>)
    requires Follows(link, mid) && Follows(mid, fin) && Issued(link, mid, cmd)
    ensures Follows(link, fin)
    ensures NewRequests(link, mid) == [Request(cmd, LastReply(mid))]
    ensures NewRequests(link, fin) == [Request(cmd, LastReply(mid))] + NewRequests(mid, fin)
  {
    NewRequestsSplit(link, mid, fin);
    assert NewRequests(link, mid) == [mid.requests[|link.requests|]];
  }

  // ---------------------------------------------------------------------
  // Commands whose answer is only a status
  // ---------------------------------------------------------------------

  /** A command sent with `Evaluate` whose payload is dropped: it succeeds
      exactly when the device answered with status 0 or 1 before the tries
      ran out. */
  function Command(env: Env, link: Link, cmd: seq<I8>): (o: Out<()>)
    ensures Follows(link, o.link) && Issued(link, o.link, cmd)
    ensures o.result.Ok? <==> Acknowledged(o.link)
    ensures o.result.Err? ==> LastReply(o.link) == Err(o.result.error) && SendError(env, o.result.error)
    ensures o.result.Panic? ==> o.result.site == OpenConnReplyEmpty
  {
    var r := SendCustomReadCommand(env, link, cmd, Evaluate);
    if r.result.Ok? then Out(Ok(()), r.link) else Out(r.result.Cast(), r.link)
  }

  function ClearCameraPicBuf(env: Env, link: Link): (o: Out<()>)
    ensures Follows(link, o.link) && Issued(link, o.link, CLEAR_PIC_BUF)
    ensures o.result.Ok? <==> Acknowledged(o.link)
    ensures o.result.Err? ==> SendError(env, o.result.error)
    ensures o.result.Panic? ==> o.result.site == OpenConnReplyEmpty
  {
    Command(env, link, CLEAR_PIC_BUF)
  }

  function PowerOff(env: Env, link: Link): (o: Out<()>)
    ensures Follows(link, o.link) && Issued(link, o.link, POWER_OFF_CAMERA)
    ensures o.result.Ok? <==> Acknowledged(o.link)
  {
    Command(env, link, POWER_OFF_CAMERA)
  }

  function StartLiveView(env: Env, link: Link, res: LiveViewResolution): (o: Out<()>)
    ensures Follows(link, o.link) && Issued(link, o.link, StartLiveViewCmd(res))
    ensures LiveViewFromCode(o.link.requests[|link.requests|].cmd[9]) == Some(res)
    ensures o.result.Ok? <==> Acknowledged(o.link)
    ensures o.result.Err? ==> SendError(env, o.result.error)
    ensures o.result.Panic? ==> o.result.site == OpenConnReplyEmpty
  {
    Command(env, link, StartLiveViewCmd(res))
  }

  function StopLiveView(env: Env, link: Link): (o: Out<()>)
    ensures Follows(link, o.link) && Issued(link, o.link, STOP_LIVE_VIEW)
    ensures o.result.Ok? <==> Acknowledged(o.link)
    ensures o.result.Err? ==> SendError(env, o.result.error)
    ensures o.result.Panic? ==> o.result.site == OpenConnReplyEmpty
  {
    Command(env, link, STOP_LIVE_VIEW)
  }

  function StartRecording(env: Env, link: Link): (o: Out<()>)
    ensures Follows(link, o.link) && Issued(link, o.link, START_RECORDING)
    ensures o.result.Ok? <==> Acknowledged(o.link)
  {
    Command(env, link, START_RECORDING)
  }

  function StopRecording(env: Env, link: Link): (o: Out<()>)
    ensures Follows(link, o.link) && Issued(link, o.link, STOP_RECORDING)
    ensures o.result.Ok? <==> Acknowledged(o.link)
  {
    Command(env, link, STOP_RECORDING)
  }

  function TakePicture(env: Env, link: Link, orientation: PictureOrientation): (o: Out<()>)
    ensures Follows(link, o.link) && Issued(link, o.link, TakePictureCmd(orientation))
    ensures OrientationFromCode(o.link.requests[|link.requests|].cmd[8]) == Some(orientation)
    ensures o.result.Ok? <==> Acknowledged(o.link)
    ensures o.result.Err? ==> SendError(env, o.result.error)
    ensures o.result.Panic? ==> o.result.site == OpenConnReplyEmpty
  {
    Command(env, link, TakePictureCmd(orientation))
  }

  // ---------------------------------------------------------------------
  // Status checks and single-byte queries
  // ---------------------------------------------------------------------

  /** The `check_*` requests, sent with `Ignore`: the verdict is whether
      byte 0 of the payload is neither 1 nor 3. */
  function StatusCheck(env: Env, link: Link, cmd: seq<I8>): (o: Out<bool>)
    ensures Follows(link, o.link) && Issued(link, o.link, cmd)
    ensures LastReply(o.link) == ReadData(env, link, cmd).result
    ensures o.result.Ok? <==> Answered(o.link)
    ensures o.result.Ok? ==> Verdict(o.link, o.result.value)
    ensures LastReply(o.link) == Ok([]) ==> o.result == Err(InvalidLength(1, 0))
    ensures o.result.Err? ==> SendError(env, o.result.error)
    ensures !o.result.Panic?
  {
    var r := SendCustomReadCommand(env, link, cmd, Ignore);
    if !r.result.Ok? then Out(r.result.Cast(), r.link)
    else Out(CheckFlag(r.result.value), r.link)
  }

  function CheckLiveViewStatus(env: Env, link: Link): (o: Out<bool>)
    ensures Follows(link, o.link) && Issued(link, o.link, CHECK_LIVE_VIEW_STATUS)
    ensures o.result.Ok? <==> Answered(o.link)
    ensures o.result.Ok? ==> Verdict(o.link, o.result.value)
    ensures o.result.Err? ==> SendError(env, o.result.error)
    ensures !o.result.Panic?
  {
    StatusCheck(env, link, CHECK_LIVE_VIEW_STATUS)
  }

  function CheckLiveViewStopRequestStatus(env: Env, link: Link): (o: Out<bool>)
    ensures Follows(link, o.link) && Issued(link, o.link, CHECK_LIVE_VIEW_STOP_STATUS)
    ensures o.result.Ok? <==> Answered(o.link)
    ensures o.result.Ok? ==> Verdict(o.link, o.result.value)
    ensures o.result.Err? ==> SendError(env, o.result.error)
    ensures !o.result.Panic?
  {
    StatusCheck(env, link, CHECK_LIVE_VIEW_STOP_STATUS)
  }

  function CheckStartRecordingRequest(env: Env, link: Link): (o: Out<bool>)
    ensures Follows(link, o.link) && Issued(link, o.link, CHECK_START_RECORDING)
    ensures o.result.Ok? <==> Answered(o.link)
    ensures o.result.Ok? ==> Verdict(o.link, o.result.value)
    ensures o.result.Err? ==> SendError(env, o.result.error)
    ensures !o.result.Panic?
  {
    StatusCheck(env, link, CHECK_START_RECORDING)
  }

  function CheckStopRecordingRequest(env: Env, link: Link): (o: Out<bool>)
    ensures Follows(link, o.link) && Issued(link, o.link, CHECK_STOP_RECORDING)
    ensures o.result.Ok? <==> Answered(o.link)
    ensures o.result.Ok? ==> Verdict(o.link, o.result.value)
    ensures o.result.Err? ==> SendError(env, o.result.error)
    ensures !o.result.Panic?
  {
    StatusCheck(env, link, CHECK_STOP_RECORDING)
  }

  /** A request sent with `IgnoreButRetryIfPowerSaving` whose answer is
      byte 0 of the payload. The retry layer never returns an empty payload
      for this action, so the unchecked `data[0]` cannot fail. */
  function ByteQuery(env: Env, link: Link, cmd: seq<I8>): (o: Out<Byte>)
    ensures Follows(link, o.link) && Issued(link, o.link, cmd)
    ensures o.result.Ok? <==> LastReply(o.link).Ok?
    ensures o.result.Ok? ==> FirstByte(o.link, o.result.value) && o.result.value != POWER_SAVE_STATUS
    ensures o.result.Err? ==> SendError(env, o.result.error)
    ensures o.result.Panic? ==> o.result.site == OpenConnReplyEmpty
  {
    var r := SendCustomReadCommand(env, link, cmd, IgnoreButRetryIfPowerSaving);
    if !r.result.Ok? then Out(r.result.Cast(), r.link)
    else Out(Ok(r.result.value[0]), r.link)
  }

  function QueryRemainingPicNum(env: Env, link: Link): (o: Out<Byte>)
    ensures Follows(link, o.link) && Issued(link, o.link, GET_REMAINING_PIC_NUM)
    ensures o.result.Ok? ==> FirstByte(o.link, o.result.value)
  {
    ByteQuery(env, link, GET_REMAINING_PIC_NUM)
  }

  function ReadSetting(env: Env, link: Link, setting: SettingType): (o: Out<Byte>)
    ensures Follows(link, o.link) && Issued(link, o.link, SettingCmd(READ_GENERAL_SETTING, setting))
    ensures SettingFromCode(o.link.requests[|link.requests|].cmd[2]) == Some(setting)
    ensures o.result.Ok? ==> FirstByte(o.link, o.result.value)
  {
    ByteQuery(env, link, SettingCmd(READ_GENERAL_SETTING, setting))
  }

  // ---------------------------------------------------------------------
  // Decoded replies
  // ---------------------------------------------------------------------

  /** A request followed by a decoder of its payload; a failure of the
      request is passed on as it is. */
  function Decoded<T>(r: Out<Bytes>, decode: Bytes -> Result<T>): (o: Out<T>)
    ensures o.link == r.link
    ensures r.result.Ok? ==> o.result == decode(r.result.value)
    ensures !r.result.Ok? ==> o.result == r.result.Cast()
  {
    if !r.result.Ok? then Out(r.result.Cast(), r.link) else Out(decode(r.result.value), r.link)
  }

  function GetThumbnail(env: Env, link: Link): (o: Out<Bytes>)
    ensures Follows(link, o.link) && Issued(link, o.link, GET_PIC_THUMBNAIL)
    ensures o.result.Ok? ==> |o.link.ins| < |link.ins|
    ensures o.result.Ok? ==> LastReply(o.link).Ok? && DecodeThumbnail(LastReply(o.link).value) == o.result
    ensures LastReply(o.link).Ok? ==> o.result == DecodeThumbnail(LastReply(o.link).value)
    ensures o.result.Err? ==> SendError(env, o.result.error) || o.result.error.InvalidLength?
  {
    Decoded(SendCustomReadCommand(env, link, GET_PIC_THUMBNAIL, Evaluate), DecodeThumbnail)
  }

  /** `get_partial_picture_buffer(received)`. */
  function GetPartialPictureBuffer(env: Env, link: Link, received: U32): (o: Out<PicturePart>)
    ensures Follows(link, o.link) && Issued(link, o.link, ReadPicBufCmd(received))
    ensures o.result.Ok? ==> |o.link.ins| < |link.ins|
    ensures o.result.Ok? ==> LastReply(o.link).Ok? && DecodePicturePart(LastReply(o.link).value) == o.result
    ensures LastReply(o.link).Ok? ==> o.result == DecodePicturePart(LastReply(o.link).value)
    ensures o.result.Err? ==> SendError(env, o.result.error) || o.result.error.InvalidLength?
    ensures o.result.Panic? ==> o.result.site == OpenConnReplyEmpty
  {
    Decoded(SendCustomReadCommand(env, link, ReadPicBufCmd(received), IgnoreButRetryIfPowerSaving),
            DecodePicturePart)
  }

  function CheckCaptureStatus(env: Env, link: Link): (o: Out<CaptureStatus>)
    ensures Follows(link, o.link) && Issued(link, o.link, CHECK_CAPTURE_STATUS)
    ensures o.result.Ok? ==> |o.link.ins| < |link.ins|
    ensures LastReply(o.link) == ReadData(env, link, CHECK_CAPTURE_STATUS).result
    ensures o.result.Ok? ==> LastReply(o.link).Ok? && DecodeCaptureStatus(LastReply(o.link).value) == o.result
    ensures LastReply(o.link).Ok? ==> o.result == DecodeCaptureStatus(LastReply(o.link).value)
    ensures !o.result.Panic?
  {
    Decoded(SendCustomReadCommand(env, link, CHECK_CAPTURE_STATUS, Ignore), DecodeCaptureStatus)
  }

  function GetCameraStatus(env: Env, link: Link): (o: Out<CameraStatus>)
    ensures Follows(link, o.link) && Issued(link, o.link, GET_CAMERA_STATUS)
    ensures o.result.Ok? ==> LastReply(o.link).Ok? && DecodeCameraStatus(LastReply(o.link).value) == o.result
    ensures o.result.Ok? ==> o.result.value.executionStatus == LastReply(o.link).value[1]
    ensures LastReply(o.link).Ok? ==> o.result == DecodeCameraStatus(LastReply(o.link).value)
  {
    Decoded(SendCustomReadCommand(env, link, GET_CAMERA_STATUS, Evaluate), DecodeCameraStatus)
  }

  /** `get_camera_info`, with the length guard that keeps the read of byte 97
      in bounds. */
  function GetCameraInfo(env: Env, link: Link): (o: Out<Option<Bytes>>)
    ensures Follows(link, o.link) && Issued(link, o.link, GET_CAMERA_INFO)
    ensures o.result.Ok? ==> LastReply(o.link).Ok? && |LastReply(o.link).value| > 97
    ensures o.result.Ok? ==> o.result.value == VersionAt(LastReply(o.link).value, 97, 129)
    ensures LastReply(o.link).Ok? ==> o.result == CameraInfo(LastReply(o.link).value)
    ensures o.result.Panic? ==> o.result.site == OpenConnReplyEmpty
  {
    Decoded(SendCustomReadCommand(env, link, GET_CAMERA_INFO, Evaluate), CameraInfo)
  }

  /** `get_scsi_version`, with the length guard that keeps the read of byte 1
      in bounds. */
  function GetScsiVersion(env: Env, link: Link): (o: Out<Option<Bytes>>)
    ensures Follows(link, o.link) && Issued(link, o.link, GET_SCSI_VERSION)
    ensures o.result.Ok? ==> LastReply(o.link).Ok? && |LastReply(o.link).value| > 1
    ensures o.result.Ok? ==> o.result.value == VersionAt(LastReply(o.link).value, 1, 33)
    ensures LastReply(o.link).Ok? ==> o.result == ScsiVersion(LastReply(o.link).value)
    ensures o.result.Panic? ==> o.result.site == OpenConnReplyEmpty
  {
    Decoded(SendCustomReadCommand(env, link, GET_SCSI_VERSION, Evaluate), ScsiVersion)
  }

  // ---------------------------------------------------------------------
  // Live view
  // ---------------------------------------------------------------------

  /** A frame as assembled from its parts, with the raw thermal byte of the
      last part. */
  datatype RawFrame = RawFrame(data: Bytes, thermal: Byte)

  /** Reference reading of a request log as one live-view frame: every entry
      is a frame request whose payload decodes, only the last is marked
      last, and the frame is the parts' payloads in order. */
  ghost function FrameOfLog(reqs: seq<Request>): (f: Option<RawFrame>)
    decreases |reqs|
  {
    if |reqs| == 0 || reqs[0].cmd != GET_LIVE_VIEW_FRAME || !reqs[0].reply.Ok? then None
    else
      var p := DecodeFramePart(reqs[0].reply.value);
      if !p.Ok? then None
      else if p.value.last then
        if |reqs| == 1 then Some(RawFrame(p.value.payload, p.value.thermal)) else None
      else
        match FrameOfLog(reqs[1..])
        case None => None
        case Some(rest) => Some(RawFrame(p.value.payload + rest.data, rest.thermal))
  }

  /** A frame request whose part is not the last puts its payload in front
      of whatever frame the requests after it make. */
  lemma FrameOfLogCons(first: Request, p: FramePart, rest: seq<Request>)
    requires first.cmd == GET_LIVE_VIEW_FRAME && first.reply.Ok?
    requires DecodeFramePart(first.reply.value) == Ok(p) && !p.last
    ensures FrameOfLog([first] + rest)
              == if FrameOfLog(rest).None? then None
                 else Some(FrameOfLog(rest).value.(data := p.payload + FrameOfLog(rest).value.data))
  {
    assert ([first] + rest)[1..] == rest;
  }

  lemma FrameOfLogLast(first: Request, p: FramePart)
    requires first.cmd == GET_LIVE_VIEW_FRAME && first.reply.Ok?
    requires DecodeFramePart(first.reply.value) == Ok(p) && p.last
    ensures FrameOfLog([first]) == Some(RawFrame(p.payload, p.thermal))
  {
  }

  /** The requests of a loop iteration whose part is not the last, followed
      by those of the rest of the loop, read as the part's payload in front
      of the rest's frame. */
  lemma FrameLoopStep(link: Link, mid: Link, fin: Link, first: Request, p: FramePart, acc: Bytes, v: RawFrame)
    requires Follows(link, mid) && Follows(mid, fin) && NewRequests(link, mid) == [first]
    requires first.cmd == GET_LIVE_VIEW_FRAME && first.reply.Ok?
    requires DecodeFramePart(first.reply.value) == Ok(p) && !p.last
    requires acc + p.payload <= v.data
    requires FrameOfLog(NewRequests(mid, fin)) == Some(v.(data := v.data[|acc + p.payload|..]))
    requires AllFor(NewRequests(mid, fin), GET_LIVE_VIEW_FRAME)
    ensures acc <= v.data
    ensures FrameOfLog(NewRequests(link, fin)) == Some(v.(data := v.data[|acc|..]))
    ensures AllFor(NewRequests(link, fin), GET_LIVE_VIEW_FRAME)
  {
    NewRequestsSplit(link, mid, fin);
    FrameOfLogCons(first, p, NewRequests(mid, fin));
    assert v.data[|acc|..] == p.payload + v.data[|acc + p.payload|..];
  }

  /** As `FrameLoopStep`, for a rest that does not read as a frame. */
  lemma FrameLoopStepFails(link: Link, mid: Link, fin: Link, first: Request, p: FramePart)
    requires Follows(link, mid) && Follows(mid, fin) && NewRequests(link, mid) == [first]
    requires first.cmd == GET_LIVE_VIEW_FRAME && first.reply.Ok?
    requires DecodeFramePart(first.reply.value) == Ok(p) && !p.last
    requires FrameOfLog(NewRequests(mid, fin)).None? && AllFor(NewRequests(mid, fin), GET_LIVE_VIEW_FRAME)
    ensures Follows(link, fin) && FrameOfLog(NewRequests(link, fin)).None?
    ensures AllFor(NewRequests(link, fin), GET_LIVE_VIEW_FRAME)
  {
    NewRequestsSplit(link, mid, fin);
    FrameOfLogCons(first, p, NewRequests(mid, fin));
  }

  /** One request of `get_live_view_frame`'s loop, decoded. */
  function FramePartRequest(env: Env, link: Link): (o: Out<FramePart>)
    ensures Follows(link, o.link)
    ensures |o.link.requests| == |link.requests| + 1
    ensures NewRequests(link, o.link) == [Request(GET_LIVE_VIEW_FRAME, LastReply(o.link))]
    ensures o.result.Ok? ==> |o.link.ins| < |link.ins|
    ensures o.result.Ok? <==> LastReply(o.link).Ok? && DecodeFramePart(LastReply(o.link).value).Ok?
    ensures o.result.Ok? ==> o.result == DecodeFramePart(LastReply(o.link).value)
    ensures o.result.Err? ==> SendError(env, o.result.error) || o.result.error.InvalidLength?
    ensures o.result.Panic? ==> o.result.site == OpenConnReplyEmpty
  {
    var r := SendCustomReadCommand(env, link, GET_LIVE_VIEW_FRAME, Evaluate);
    assert NewRequests(link, r.link) == [Request(GET_LIVE_VIEW_FRAME, r.result)];
    Decoded(r, DecodeFramePart)
  }

  /** The loop of `get_live_view_frame`: request parts until one is marked
      last, appending each payload to `acc`. */
  function FrameLoop(env: Env, link: Link, acc: Bytes): (o: Out<RawFrame>)
    ensures Follows(link, o.link)
    ensures o.result.Ok? ==> |o.link.ins| < |link.ins|
    ensures o.result.Ok? <==> FrameOfLog(NewRequests(link, o.link)).Some?
    ensures AllFor(NewRequests(link, o.link), GET_LIVE_VIEW_FRAME)
    ensures o.result.Ok? ==> && acc <= o.result.value.data
                             && FrameOfLog(NewRequests(link, o.link))
                                  == Some(o.result.value.(data := o.result.value.data[|acc|..]))
    ensures o.result.Err? ==> SendError(env, o.result.error) || o.result.error.InvalidLength?
    ensures o.result.Panic? ==> o.result.site == OpenConnReplyEmpty
    decreases |link.ins|
  {
    var r := FramePartRequest(env, link);
    var first := Request(GET_LIVE_VIEW_FRAME, LastReply(r.link));
    if !r.result.Ok? then Out(r.result.Cast(), r.link)
    else
      var p := r.result.value;
      if p.last then
        FrameOfLogLast(first, p);
        assert (acc + p.payload)[|acc|..] == p.payload;
        Out(Ok(RawFrame(acc + p.payload, p.thermal)), r.link)
      else
        var o := FrameLoop(env, r.link, acc + p.payload);
        FollowsTrans(link, r.link, o.link);
        if o.result.Ok? then
          FrameLoopStep(link, r.link, o.link, first, p, acc, o.result.value);
          o
        else
          FrameLoopStepFails(link, r.link, o.link, first, p);
          o
  }

  /** A live-view frame and the thermal status reported with it. */
  datatype LiveViewFrame = LiveViewFrame(thermal: ThermalStatus, data: Bytes)

  /** `get_live_view_frame` (the frame's duration, read from a clock, is
      not modelled): it succeeds exactly when the requests it made read as
      a frame whose thermal byte is a thermal status. */
  function GetLiveViewFrame(env: Env, link: Link): (o: Out<LiveViewFrame>)
    ensures Follows(link, o.link)
    ensures var f := FrameOfLog(NewRequests(link, o.link));
            o.result.Ok? <==> f.Some? && f.value.thermal < 4
    ensures AllFor(NewRequests(link, o.link), GET_LIVE_VIEW_FRAME)
    ensures var f := FrameOfLog(NewRequests(link, o.link));
            o.result.Ok? ==> o.result.value.data == f.value.data
                             && ThermalCode(o.result.value.thermal) == f.value.thermal
    ensures o.result.Err? ==> SendError(env, o.result.error) || o.result.error in {InvalidFormat}
                              || o.result.error.InvalidLength?
    ensures o.result.Panic? ==> o.result.site == OpenConnReplyEmpty
  {
    var f := FrameLoop(env, link, []);
    if !f.result.Ok? then Out(f.result.Cast(), f.link)
    else
      assert f.result.value.data[0..] == f.result.value.data;
      var t := ThermalFromByte(f.result.value.thermal);
      if !t.Ok? then Out(t.Cast(), f.link)
      else Out(Ok(LiveViewFrame(t.value, f.result.value.data)), f.link)
  }

  // ---------------------------------------------------------------------
  // Settings
  // ---------------------------------------------------------------------

  /** A write whose payload fits in one slice: the header announces the
      payload's length and the payload goes out whole. */
  function WriteBlock(env: Env, link: Link, cmd: seq<I8>, block: Bytes): (o: Out<()>)
    requires 0 < |block| <= DEFAULT_CHUNK_SIZE
    ensures Follows(link, o.link) && o.link.requests == link.requests
    ensures o.link.exchanges == link.exchanges + [ChunkedWrite(cmd)]
    ensures o.result.Ok? ==>
              o.link.sent == link.sent + [MakeCmdHeader(cmd, |block|, false, NextCheck(env, link)), block]
    ensures !o.result.Panic?
  {
    assert Slices(block, DEFAULT_CHUNK_SIZE) == [block];
    assert WrapI32(|block|) == |block|;
    WriteData(env, link, cmd, block)
  }

  /** `write_setting`: the setting selector in the opcode, the value as a
      one-byte payload. */
  function WriteSetting(env: Env, link: Link, setting: SettingType, value: Byte): (o: Out<()>)
    ensures o.link.requests == link.requests
    ensures o.link.exchanges == link.exchanges + [ChunkedWrite(SettingCmd(WRITE_GENERAL_SETTING, setting))]
    ensures o.result.Ok? ==> o.link.sent == link.sent + [
              MakeCmdHeader(SettingCmd(WRITE_GENERAL_SETTING, setting), 1, false, NextCheck(env, link)),
              [value]]
  {
    WriteBlock(env, link, SettingCmd(WRITE_GENERAL_SETTING, setting), [value])
  }

  /** `write_all_settings`: the 48-byte block in one slice. */
  function WriteAllSettings(env: Env, link: Link, s: CamSettings): (o: Out<()>)
    ensures o.link.requests == link.requests
    ensures o.link.exchanges == link.exchanges + [ChunkedWrite(WRITE_ALL_SETTINGS)]
    ensures o.result.Ok? ==> o.link.sent == link.sent + [
              MakeCmdHeader(WRITE_ALL_SETTINGS, SETTINGS_BLOCK_SIZE, false, NextCheck(env, link)),
              ToBytes(s)]
  {
    WriteBlock(env, link, WRITE_ALL_SETTINGS, ToBytes(s))
  }

  /** `read_all_settings`: an empty payload is a length error, one that does
      not decode is `InvalidFormat`. */
  function ReadAllSettings(env: Env, link: Link): (o: Out<CamSettings>)
    ensures Follows(link, o.link) && Issued(link, o.link, READ_ALL_SETTINGS)
    ensures o.result.Ok? <==> LastReply(o.link).Ok? && FromBytes(LastReply(o.link).value).Some?
    ensures o.result.Ok? ==> FromBytes(LastReply(o.link).value) == Some(o.result.value)
    ensures LastReply(o.link).Ok? && FromBytes(LastReply(o.link).value).None? ==>
              o.result == Err(InvalidFormat)
    ensures o.result.Panic? ==> o.result.site == OpenConnReplyEmpty
  {
    var r := SendCustomReadCommand(env, link, READ_ALL_SETTINGS, Evaluate);
    if !r.result.Ok? then Out(r.result.Cast(), r.link)
    else if |r.result.value| == 0 then Out(Err(EMPTY_PAYLOAD), r.link)
    else match FromBytes(r.result.value)
      case None => Out(Err(InvalidFormat), r.link)
      case Some(s) => Out(Ok(s), r.link)
  }

  /** A camera that answers `read_all_settings` with the block last written
      hands back the settings written, whenever they fit the block. */
  lemma WriteThenReadSettings(env: Env, link: Link, s: CamSettings, later: Link)
    requires Representable(s)
    requires WriteAllSettings(env, link, s).result.Ok?
    requires var r := ReadAllSettings(env, later);
             (LastReply(r.link).Ok? && LastReply(r.link).value == WriteAllSettings(env, link, s).link.sent[|link.sent| + 1])
    ensures ReadAllSettings(env, later).result == Ok(s)
  {
    FromBytesToBytes(s);
  }
}
