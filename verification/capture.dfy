/** `take_picture_and_get`: an optional live-view warm-up, clearing the
    picture buffer and taking the picture, polling the capture status
    (fetching thumbnails for the callback), then fetching the picture in
    parts. The contracts read the request log back as the protocol the
    workflow follows. */
module Capture {
  import opened Bytes
  import opened Errors
  import opened Consts
  import opened Transfer
  import opened Retry
  import opened Settings
  import opened Responses
  import opened Camera

  /** The picture, and the thumbnails handed to the callback, in order. */
  datatype Photo = Photo(picture: Bytes, thumbnails: seq<Bytes>)

  /** Every request of the log asks for a picture part. */
  ghost predicate PartsOnly(reqs: seq<Request>)
  {
    forall i :: 0 <= i < |reqs| ==> PicBufOffset(reqs[i].cmd).Some?
  }

  lemma PartsOnlyCons(first: Request, rest: seq<Request>)
    requires PicBufOffset(first.cmd).Some? && PartsOnly(rest)
    ensures PartsOnly([first] + rest)
  {
    assert forall i :: 1 <= i < |rest| + 1 ==> ([first] + rest)[i] == rest[i - 1];
  }

  // ---------------------------------------------------------------------
  // Fetching the picture
  // ---------------------------------------------------------------------

  /** Reference reading of a request log as the picture transfer: every
      entry asks for the part at the number of bytes received so far
      (truncated to `u32`), every part decodes, only the last is marked as
      the end, and the picture is the parts in order. */
  ghost function PictureOfLog(reqs: seq<Request>, offset: nat): (r: Option<Bytes>)
    decreases |reqs|
  {
    if |reqs| == 0 || PicBufOffset(reqs[0].cmd) != Some(WrapU32(offset)) || !reqs[0].reply.Ok? then None
    else
      var p := DecodePicturePart(reqs[0].reply.value);
      if !p.Ok? then None
      else if p.value.isEnd then (if |reqs| == 1 then Some(p.value.payload) else None)
      else
        match PictureOfLog(reqs[1..], offset + |p.value.payload|)
        case None => None
        case Some(rest) => Some(p.value.payload + rest)
  }

  lemma PictureOfLogCons(first: Request, p: PicturePart, rest: seq<Request>, offset: nat)
    requires PicBufOffset(first.cmd) == Some(WrapU32(offset)) && first.reply.Ok?
    requires DecodePicturePart(first.reply.value) == Ok(p) && !p.isEnd
    ensures PictureOfLog([first] + rest, offset)
              == if PictureOfLog(rest, offset + |p.payload|).None? then None
                 else Some(p.payload + PictureOfLog(rest, offset + |p.payload|).value)
  {
    assert ([first] + rest)[1..] == rest;
  }

  /** One iteration of the picture loop whose part is not the last. */
  lemma FetchStep(link: Link, mid: Link, fin: Link, cmd: seq<I8>, p: PicturePart, buf: Bytes, pic: Bytes)
    requires Follows(link, mid) && Follows(mid, fin) && Issued(link, mid, cmd)
    requires PicBufOffset(cmd) == Some(WrapU32(|buf|))
    requires LastReply(mid).Ok? && DecodePicturePart(LastReply(mid).value) == Ok(p) && !p.isEnd
    requires buf + p.payload <= pic
    requires PictureOfLog(NewRequests(mid, fin), |buf + p.payload|) == Some(pic[|buf + p.payload|..])
    requires PartsOnly(NewRequests(mid, fin))
    ensures buf <= pic
    ensures PictureOfLog(NewRequests(link, fin), |buf|) == Some(pic[|buf|..])
    ensures PartsOnly(NewRequests(link, fin))
  {
    IssuedSplit(link, mid, fin, cmd);
    PartsOnlyCons(Request(cmd, LastReply(mid)), NewRequests(mid, fin));
    PictureOfLogCons(Request(cmd, LastReply(mid)), p, NewRequests(mid, fin), |buf|);
    assert pic[|buf|..] == p.payload + pic[|buf + p.payload|..];
  }

  /** As `FetchStep`, for a rest that does not read as a picture. */
  lemma FetchStepFails(link: Link, mid: Link, fin: Link, cmd: seq<I8>, p: PicturePart, buf: Bytes)
    requires Follows(link, mid) && Follows(mid, fin) && Issued(link, mid, cmd)
    requires PicBufOffset(cmd) == Some(WrapU32(|buf|))
    requires LastReply(mid).Ok? && DecodePicturePart(LastReply(mid).value) == Ok(p) && !p.isEnd
    requires PictureOfLog(NewRequests(mid, fin), |buf + p.payload|).None?
    requires PartsOnly(NewRequests(mid, fin))
    ensures Follows(link, fin) && PictureOfLog(NewRequests(link, fin), |buf|).None?
    ensures PartsOnly(NewRequests(link, fin))
  {
    IssuedSplit(link, mid, fin, cmd);
    PartsOnlyCons(Request(cmd, LastReply(mid)), NewRequests(mid, fin));
    PictureOfLogCons(Request(cmd, LastReply(mid)), p, NewRequests(mid, fin), |buf|);
  }

  /** The last iteration of the picture loop, or a failed one. */
  lemma FetchStops(link: Link, mid: Link, cmd: seq<I8>, buf: Bytes)
    requires Follows(link, mid) && Issued(link, mid, cmd)
    requires PicBufOffset(cmd) == Some(WrapU32(|buf|))
    ensures var r := LastReply(mid);
            var p := if r.Ok? then DecodePicturePart(r.value) else r.Cast();
            PictureOfLog(NewRequests(link, mid), |buf|)
              == if p.Ok? && p.value.isEnd then Some(p.value.payload) else None
    ensures PartsOnly(NewRequests(link, mid))
  {
    IssuedSplit(link, mid, mid, cmd);
  }

  /** The inner loop of `take_picture_and_get`: ask for the part at the
      number of bytes received so far (as `u32`), append it, and stop after
      the part marked as the end. */
  function FetchLoop(env: Env, link: Link, buf: Bytes): (o: Out<Bytes>)
    ensures Follows(link, o.link)
    ensures PartsOnly(NewRequests(link, o.link))
    ensures o.result.Ok? ==> |o.link.ins| < |link.ins|
    ensures o.result.Ok? <==> PictureOfLog(NewRequests(link, o.link), |buf|).Some?
    ensures o.result.Ok? ==> && buf <= o.result.value
                             && PictureOfLog(NewRequests(link, o.link), |buf|) == Some(o.result.value[|buf|..])
    ensures o.result.Err? ==> SendError(env, o.result.error) || o.result.error.InvalidLength?
    ensures o.result.Panic? ==> o.result.site == OpenConnReplyEmpty
    decreases |link.ins|
  {
    var cmd := ReadPicBufCmd(WrapU32(|buf|));
    var p := GetPartialPictureBuffer(env, link, WrapU32(|buf|));
    ReadPicBufOffset(WrapU32(|buf|), cmd);
    FetchStops(link, p.link, cmd, buf);
    if !p.result.Ok? then Out(p.result.Cast(), p.link)
    else if p.result.value.isEnd then
      assert (buf + p.result.value.payload)[|buf|..] == p.result.value.payload;
      Out(Ok(buf + p.result.value.payload), p.link)
    else
      var o := FetchLoop(env, p.link, buf + p.result.value.payload);
      FollowsTrans(link, p.link, o.link);
      if o.result.Ok? then
        FetchStep(link, p.link, o.link, cmd, p.result.value, buf, o.result.value);
        o
      else
        FetchStepFails(link, p.link, o.link, cmd, p.result.value, buf);
        o
  }

  // ---------------------------------------------------------------------
  // Polling the capture status
  // ---------------------------------------------------------------------

  /** Reference reading of a request log as the polling phase: capture-status
      polls; after each poll that reports a thumbnail, one thumbnail request
      exactly when there is a callback; after the poll that reports the
      picture captured, the picture transfer from offset 0. */
  ghost function CaptureOfLog(reqs: seq<Request>, hasCallback: bool): (r: Option<Photo>)
    decreases |reqs|
  {
    if |reqs| == 0 || reqs[0].cmd != CHECK_CAPTURE_STATUS || !reqs[0].reply.Ok? then None
    else
      var c := DecodeCaptureStatus(reqs[0].reply.value);
      if !c.Ok? then None
      else if c.value.Captured? then
        match PictureOfLog(reqs[1..], 0)
        case None => None
        case Some(pic) => Some(Photo(pic, []))
      else if c.value.TryAgain? || !hasCallback then CaptureOfLog(reqs[1..], hasCallback)
      else if |reqs| < 2 || reqs[1].cmd != GET_PIC_THUMBNAIL || !reqs[1].reply.Ok? then None
      else
        var t := DecodeThumbnail(reqs[1].reply.value);
        if !t.Ok? then None
        else
          match CaptureOfLog(reqs[2..], hasCallback)
          case None => None
          case Some(ph) => Some(ph.(thumbnails := [t.value] + ph.thumbnails))
  }

  /** A poll that only leads to another poll. */
  lemma CaptureOfLogAgain(first: Request, rest: seq<Request>, hasCallback: bool)
    requires first.cmd == CHECK_CAPTURE_STATUS && first.reply.Ok?
    requires var c := DecodeCaptureStatus(first.reply.value);
             c.Ok? && (c.value.TryAgain? || (c.value.ThumbnailAvailable? && !hasCallback))
    ensures CaptureOfLog([first] + rest, hasCallback) == CaptureOfLog(rest, hasCallback)
  {
    assert ([first] + rest)[1..] == rest;
  }

  /** A poll that reports a thumbnail, then the thumbnail request. */
  lemma CaptureOfLogThumbnail(first: Request, second: Request, rest: seq<Request>, thumb: Bytes)
    requires first.cmd == CHECK_CAPTURE_STATUS && first.reply.Ok?
    requires var c := DecodeCaptureStatus(first.reply.value); c.Ok? && c.value.ThumbnailAvailable?
    requires second.cmd == GET_PIC_THUMBNAIL
    ensures second.reply.Ok? && DecodeThumbnail(second.reply.value) == Ok(thumb) ==>
              CaptureOfLog([first] + ([second] + rest), true)
                == if CaptureOfLog(rest, true).None? then None
                   else Some(CaptureOfLog(rest, true).value.(thumbnails := [thumb] + CaptureOfLog(rest, true).value.thumbnails))
    ensures !(second.reply.Ok? && DecodeThumbnail(second.reply.value).Ok?) ==>
              CaptureOfLog([first] + ([second] + rest), true).None?
  {
    var reqs := [first] + ([second] + rest);
    assert reqs[1] == second && reqs[2..] == rest;
  }

  /** The poll that reports the picture captured, then the transfer. */
  lemma CaptureOfLogCaptured(first: Request, rest: seq<Request>, hasCallback: bool)
    requires first.cmd == CHECK_CAPTURE_STATUS && first.reply.Ok?
    requires var c := DecodeCaptureStatus(first.reply.value); c.Ok? && c.value.Captured?
    ensures CaptureOfLog([first] + rest, hasCallback)
              == if PictureOfLog(rest, 0).None? then None else Some(Photo(PictureOfLog(rest, 0).value, []))
  {
    assert ([first] + rest)[1..] == rest;
  }

  /** A poll whose reply does not decode ends the reading. */
  lemma CaptureOfLogFails(first: Request, rest: seq<Request>, hasCallback: bool)
    requires first.cmd == CHECK_CAPTURE_STATUS
    requires !(first.reply.Ok? && DecodeCaptureStatus(first.reply.value).Ok?)
    ensures CaptureOfLog([first] + rest, hasCallback).None?
  {
  }

  /** Every request of the log is one the polling phase may send. */
  ghost predicate CaptureCmds(reqs: seq<Request>, hasCallback: bool)
  {
    forall i :: 0 <= i < |reqs| ==> CaptureCmd(reqs[i].cmd, hasCallback)
  }

  lemma CaptureCmdsCons(first: Request, rest: seq<Request>, hasCallback: bool)
    requires CaptureCmd(first.cmd, hasCallback) && CaptureCmds(rest, hasCallback)
    ensures CaptureCmds([first] + rest, hasCallback)
  {
    assert forall i :: 1 <= i < |rest| + 1 ==> ([first] + rest)[i] == rest[i - 1];
  }

  /** Picture-part requests are requests of the polling phase. */
  lemma PartsAreCaptureCmds(reqs: seq<Request>, hasCallback: bool)
    requires PartsOnly(reqs)
    ensures CaptureCmds(reqs, hasCallback)
  {
  }

  /** A poll at `link` answered at `mid` that reads as `st`. */
  ghost predicate Polled(link: Link, mid: Link, st: CaptureStatus)
  {
    && Follows(link, mid) && Issued(link, mid, CHECK_CAPTURE_STATUS)
    && LastReply(mid).Ok? && DecodeCaptureStatus(LastReply(mid).value) == Ok(st)
  }

  /** A poll that fails, or whose reply does not decode, ends the phase. */
  lemma PollFails(link: Link, mid: Link, hasCallback: bool)
    requires Follows(link, mid) && Issued(link, mid, CHECK_CAPTURE_STATUS)
    requires !(LastReply(mid).Ok? && DecodeCaptureStatus(LastReply(mid).value).Ok?)
    ensures CaptureOfLog(NewRequests(link, mid), hasCallback).None?
    ensures CaptureCmds(NewRequests(link, mid), hasCallback)
  {
    IssuedSplit(link, mid, mid, CHECK_CAPTURE_STATUS);
    CaptureOfLogFails(Request(CHECK_CAPTURE_STATUS, LastReply(mid)), [], hasCallback);
  }

  /** A poll that leads only to another poll. */
  lemma PollAgain(link: Link, mid: Link, fin: Link, st: CaptureStatus, hasCallback: bool)
    requires Polled(link, mid, st) && Follows(mid, fin)
    requires st.TryAgain? || (st.ThumbnailAvailable? && !hasCallback)
    requires CaptureCmds(NewRequests(mid, fin), hasCallback)
    ensures Follows(link, fin)
    ensures CaptureOfLog(NewRequests(link, fin), hasCallback) == CaptureOfLog(NewRequests(mid, fin), hasCallback)
    ensures CaptureCmds(NewRequests(link, fin), hasCallback)
  {
    IssuedSplit(link, mid, fin, CHECK_CAPTURE_STATUS);
    CaptureCmdsCons(Request(CHECK_CAPTURE_STATUS, LastReply(mid)), NewRequests(mid, fin), hasCallback);
    CaptureOfLogAgain(Request(CHECK_CAPTURE_STATUS, LastReply(mid)), NewRequests(mid, fin), hasCallback);
  }

  /** The poll that reports the picture captured, then the transfer. */
  lemma PollCaptured(link: Link, mid: Link, fin: Link, hasCallback: bool)
    requires Polled(link, mid, Captured) && Follows(mid, fin)
    requires PartsOnly(NewRequests(mid, fin))
    ensures Follows(link, fin)
    ensures var pic := PictureOfLog(NewRequests(mid, fin), 0);
            CaptureOfLog(NewRequests(link, fin), hasCallback)
              == if pic.None? then None else Some(Photo(pic.value, []))
    ensures CaptureCmds(NewRequests(link, fin), hasCallback)
  {
    IssuedSplit(link, mid, fin, CHECK_CAPTURE_STATUS);
    PartsAreCaptureCmds(NewRequests(mid, fin), hasCallback);
    CaptureCmdsCons(Request(CHECK_CAPTURE_STATUS, LastReply(mid)), NewRequests(mid, fin), hasCallback);
    CaptureOfLogCaptured(Request(CHECK_CAPTURE_STATUS, LastReply(mid)), NewRequests(mid, fin), hasCallback);
  }

  /** A poll that reports a thumbnail, then a thumbnail request that fails
      or does not decode. */
  lemma PollThumbnailFails(link: Link, mid: Link, mid2: Link, st: CaptureStatus)
    requires Polled(link, mid, st) && st.ThumbnailAvailable?
    requires Follows(mid, mid2) && Issued(mid, mid2, GET_PIC_THUMBNAIL)
    requires !(LastReply(mid2).Ok? && DecodeThumbnail(LastReply(mid2).value).Ok?)
    ensures Follows(link, mid2) && CaptureOfLog(NewRequests(link, mid2), true).None?
    ensures CaptureCmds(NewRequests(link, mid2), true)
  {
    IssuedSplit(mid, mid2, mid2, GET_PIC_THUMBNAIL);
    IssuedSplit(link, mid, mid2, CHECK_CAPTURE_STATUS);
    CaptureOfLogThumbnail(Request(CHECK_CAPTURE_STATUS, LastReply(mid)), Request(GET_PIC_THUMBNAIL, LastReply(mid2)), [], []);
  }

  /** A poll that reports a thumbnail, the thumbnail, then the rest of the
      phase: the thumbnail goes in front of the rest's thumbnails. */
  lemma PollThumbnail(link: Link, mid: Link, mid2: Link, fin: Link, st: CaptureStatus, thumb: Bytes)
    requires Polled(link, mid, st) && st.ThumbnailAvailable?
    requires Follows(mid, mid2) && Issued(mid, mid2, GET_PIC_THUMBNAIL) && Follows(mid2, fin)
    requires LastReply(mid2).Ok? && DecodeThumbnail(LastReply(mid2).value) == Ok(thumb)
    requires CaptureCmds(NewRequests(mid2, fin), true)
    ensures Follows(link, fin)
    ensures var rest := CaptureOfLog(NewRequests(mid2, fin), true);
            CaptureOfLog(NewRequests(link, fin), true)
              == if rest.None? then None else Some(rest.value.(thumbnails := [thumb] + rest.value.thumbnails))
    ensures CaptureCmds(NewRequests(link, fin), true)
  {
    IssuedSplit(mid, mid2, fin, GET_PIC_THUMBNAIL);
    IssuedSplit(link, mid, fin, CHECK_CAPTURE_STATUS);
    CaptureCmdsCons(Request(GET_PIC_THUMBNAIL, LastReply(mid2)), NewRequests(mid2, fin), true);
    CaptureCmdsCons(Request(CHECK_CAPTURE_STATUS, LastReply(mid)), NewRequests(mid, fin), true);
    CaptureOfLogThumbnail(Request(CHECK_CAPTURE_STATUS, LastReply(mid)), Request(GET_PIC_THUMBNAIL, LastReply(mid2)),
                          NewRequests(mid2, fin), thumb);
  }

  /** The contract the polling phase keeps, from `link` on: it sends only
      polling-phase requests, and it succeeds exactly when the requests it
      made read as a polling phase, and then returns that reading with
      `thumbs` in front of its thumbnails. */
  ghost predicate PollOutcome(env: Env, link: Link, hasCallback: bool, thumbs: seq<Bytes>, o: Out<Photo>)
  {
    && Follows(link, o.link)
    && CaptureCmds(NewRequests(link, o.link), hasCallback)
    && (o.result.Ok? <==> CaptureOfLog(NewRequests(link, o.link), hasCallback).Some?)
    && (o.result.Ok? ==>
          var ph := CaptureOfLog(NewRequests(link, o.link), hasCallback).value;
          o.result.value == ph.(thumbnails := thumbs + ph.thumbnails))
    && (o.result.Err? ==> SendError(env, o.result.error) || o.result.error.InvalidLength?
                          || o.result.error == InvalidFormat)
    && (o.result.Panic? ==> o.result.site == OpenConnReplyEmpty)
  }

  /** The phase after a thumbnail fetch keeps the contract with the
      thumbnail appended; the phase from the poll before it keeps it
      without. */
  lemma PollThumbnailOutcome(env: Env, link: Link, mid: Link, mid2: Link, st: CaptureStatus, thumb: Bytes,
                             thumbs: seq<Bytes>, o: Out<Photo>)
    requires Polled(link, mid, st) && st.ThumbnailAvailable?
    requires Follows(mid, mid2) && Issued(mid, mid2, GET_PIC_THUMBNAIL)
    requires LastReply(mid2).Ok? && DecodeThumbnail(LastReply(mid2).value) == Ok(thumb)
    requires PollOutcome(env, mid2, true, thumbs + [thumb], o)
    ensures PollOutcome(env, link, true, thumbs, o)
  {
    PollThumbnail(link, mid, mid2, o.link, st, thumb);
    if o.result.Ok? {
      var ph := CaptureOfLog(NewRequests(mid2, o.link), true).value;
      assert thumbs + [thumb] + ph.thumbnails == thumbs + ([thumb] + ph.thumbnails);
    }
  }

  /** The polling loop, with the thumbnails handed to the callback so far. */
  function PollLoop(env: Env, link: Link, hasCallback: bool, thumbs: seq<Bytes>): (o: Out<Photo>)
    ensures PollOutcome(env, link, hasCallback, thumbs, o)
    decreases |link.ins|, 1
  {
    var c := CheckCaptureStatus(env, link);
    if !c.result.Ok? then
      PollFails(link, c.link, hasCallback);
      Out(c.result.Cast(), c.link)
    else if c.result.value.Captured? then
      FetchPicture(env, link, c.link, hasCallback, thumbs)
    else if c.result.value.TryAgain? || !hasCallback then
      var o := PollLoop(env, c.link, hasCallback, thumbs);
      PollAgain(link, c.link, o.link, c.result.value, hasCallback);
      o
    else
      FetchThumbnail(env, link, c.link, c.result.value, thumbs)
  }

  /** After the poll that reports the picture captured: the transfer. */
  function FetchPicture(env: Env, link: Link, mid: Link, hasCallback: bool, thumbs: seq<Bytes>): (o: Out<Photo>)
    requires Polled(link, mid, Captured)
    ensures PollOutcome(env, link, hasCallback, thumbs, o)
  {
    var f := FetchLoop(env, mid, []);
    PollCaptured(link, mid, f.link, hasCallback);
    if !f.result.Ok? then Out(f.result.Cast(), f.link)
    else
      assert f.result.value[0..] == f.result.value;
      Out(Ok(Photo(f.result.value, thumbs)), f.link)
  }

  /** After a poll that reports a thumbnail, with a callback: fetch it, hand
      it over, poll again. */
  function FetchThumbnail(env: Env, link: Link, mid: Link, st: CaptureStatus, thumbs: seq<Bytes>): (o: Out<Photo>)
    requires Polled(link, mid, st) && st.ThumbnailAvailable? && |mid.ins| < |link.ins|
    ensures PollOutcome(env, link, true, thumbs, o)
    decreases |mid.ins|, 0
  {
    var t := GetThumbnail(env, mid);
    if !t.result.Ok? then
      PollThumbnailFails(link, mid, t.link, st);
      Out(t.result.Cast(), t.link)
    else
      var o := PollLoop(env, t.link, true, thumbs + [t.result.value]);
      PollThumbnailOutcome(env, link, mid, t.link, st, t.result.value, thumbs, o);
      o
  }

  // ---------------------------------------------------------------------
  // What the polling phase sends
  // ---------------------------------------------------------------------

  /** Every request of the log asks for a picture part. */
  lemma {:induction false} PictureOfLogCmds(reqs: seq<Request>, offset: nat)
    requires PictureOfLog(reqs, offset).Some?
    ensures forall i :: 0 <= i < |reqs| ==> PicBufOffset(reqs[i].cmd).Some?
    decreases |reqs|
  {
    var p := DecodePicturePart(reqs[0].reply.value).value;
    if !p.isEnd {
      PictureOfLogCmds(reqs[1..], offset + |p.payload|);
      forall i | 1 <= i < |reqs|
        ensures PicBufOffset(reqs[i].cmd).Some?
      {
        assert reqs[i] == reqs[1..][i - 1];
      }
    }
  }

  /** The commands the polling phase may send: capture-status polls,
      thumbnail requests when there is a callback, picture-part requests. */
  ghost predicate CaptureCmd(cmd: seq<I8>, hasCallback: bool)
  {
    cmd == CHECK_CAPTURE_STATUS || (hasCallback && cmd == GET_PIC_THUMBNAIL) || PicBufOffset(cmd).Some?
  }

  lemma {:induction false} CaptureOfLogCmds(reqs: seq<Request>, hasCallback: bool)
    requires CaptureOfLog(reqs, hasCallback).Some?
    ensures CaptureCmds(reqs, hasCallback)
    decreases |reqs|
  {
    var c := DecodeCaptureStatus(reqs[0].reply.value).value;
    var k := if c.Captured? || c.TryAgain? || !hasCallback then 1 else 2;
    if c.Captured? {
      PictureOfLogCmds(reqs[1..], 0);
    } else {
      CaptureOfLogCmds(reqs[k..], hasCallback);
    }
    forall i | k <= i < |reqs|
      ensures CaptureCmd(reqs[i].cmd, hasCallback)
    {
      assert reqs[i] == reqs[k..][i - k];
    }
  }

  /** Without a callback, no thumbnail is ever requested. */
  lemma NoThumbnailWithoutCallback(reqs: seq<Request>)
    requires CaptureCmds(reqs, false)
    ensures forall i :: 0 <= i < |reqs| ==> reqs[i].cmd != GET_PIC_THUMBNAIL
  {
    ThumbnailNeedsCallback();
  }

  /** The thumbnail request is a polling-phase request only with a
      callback. */
  lemma ThumbnailNeedsCallback()
    ensures !CaptureCmd(GET_PIC_THUMBNAIL, false)
  {
    assert GET_PIC_THUMBNAIL[2] != CHECK_CAPTURE_STATUS[2];
    assert PicBufOffset(GET_PIC_THUMBNAIL).None? by {
      assert GET_PIC_THUMBNAIL[..8][2] != READ_PIC_BUF[..8][2];
    }
  }

  /** The number of polls in a log that report a thumbnail. */
  ghost function ThumbnailPolls(reqs: seq<Request>): (n: nat)
    ensures n <= |reqs|
    decreases |reqs|
  {
    if |reqs| == 0 then 0
    else
      var here := reqs[0].cmd == CHECK_CAPTURE_STATUS && reqs[0].reply.Ok?
                  && DecodeCaptureStatus(reqs[0].reply.value).Ok?
                  && DecodeCaptureStatus(reqs[0].reply.value).value.ThumbnailAvailable?;
      (if here then 1 else 0) + ThumbnailPolls(reqs[1..])
  }

  lemma {:induction false} NoPollsInPicture(reqs: seq<Request>, offset: nat)
    requires PictureOfLog(reqs, offset).Some?
    ensures ThumbnailPolls(reqs) == 0
    decreases |reqs|
  {
    assert PicBufOffset(CHECK_CAPTURE_STATUS).None? by {
      assert CHECK_CAPTURE_STATUS[..8][1] != READ_PIC_BUF[..8][1];
    }
    var p := DecodePicturePart(reqs[0].reply.value).value;
    if !p.isEnd {
      NoPollsInPicture(reqs[1..], offset + |p.payload|);
    }
  }

  /** With a callback, every poll that reports a thumbnail hands exactly one
      thumbnail to it. */
  lemma {:induction false} OneThumbnailPerPoll(reqs: seq<Request>)
    requires CaptureOfLog(reqs, true).Some?
    ensures |CaptureOfLog(reqs, true).value.thumbnails| == ThumbnailPolls(reqs)
    decreases |reqs|
  {
    var c := DecodeCaptureStatus(reqs[0].reply.value).value;
    if c.Captured? {
      NoPollsInPicture(reqs[1..], 0);
    } else if c.TryAgain? {
      OneThumbnailPerPoll(reqs[1..]);
    } else {
      OneThumbnailPerPoll(reqs[2..]);
      assert reqs[1..][1..] == reqs[2..];
      assert reqs[1].cmd == GET_PIC_THUMBNAIL;
      assert GET_PIC_THUMBNAIL[2] != CHECK_CAPTURE_STATUS[2];
    }
  }

  // ---------------------------------------------------------------------
  // The live-view prelude
  // ---------------------------------------------------------------------

  /** Reference reading of a successful prelude: live view started at low
      resolution and acknowledged, its status answered, one whole frame
      read with a valid thermal status, live view stopped and acknowledged,
      and the stop status answered. */
  ghost predicate PreludeLog(reqs: seq<Request>)
  {
    && |reqs| >= 5
    && reqs[0].cmd == StartLiveViewCmd(LiveViewLow) && AckReply(reqs[0].reply)
    && reqs[1].cmd == CHECK_LIVE_VIEW_STATUS && AnsweredReply(reqs[1].reply)
    && (var f := FrameOfLog(reqs[2..|reqs| - 2]); f.Some? && f.value.thermal < 4)
    && reqs[|reqs| - 2].cmd == STOP_LIVE_VIEW && AckReply(reqs[|reqs| - 2].reply)
    && reqs[|reqs| - 1].cmd == CHECK_LIVE_VIEW_STOP_STATUS && AnsweredReply(reqs[|reqs| - 1].reply)
  }

  /** What the prelude promises: it starts with the live-view request, it
      succeeds exactly when its requests read as a successful prelude, and
      a failure is that of the step that failed. */
  ghost predicate PreludeOutcome(env: Env, link: Link, o: Out<()>)
  {
    && Follows(link, o.link)
    && |NewRequests(link, o.link)| > 0
    && NewRequests(link, o.link)[0].cmd == StartLiveViewCmd(LiveViewLow)
    && (o.result.Ok? <==> PreludeLog(NewRequests(link, o.link)))
    && (o.result.Err? ==> SendError(env, o.result.error) || o.result.error.InvalidLength?
                          || o.result.error == InvalidFormat)
    && (o.result.Panic? ==> o.result.site == OpenConnReplyEmpty)
  }

  /** The prelude's first two requests, whatever follows them. */
  lemma PreludeHead(link: Link, l1: Link, l2: Link, fin: Link)
    requires Follows(link, l1) && Follows(l1, l2) && Follows(l2, fin)
    requires Issued(link, l1, StartLiveViewCmd(LiveViewLow)) && Issued(l1, l2, CHECK_LIVE_VIEW_STATUS)
    ensures Follows(link, fin)
    ensures NewRequests(link, fin)
              == [Request(StartLiveViewCmd(LiveViewLow), LastReply(l1)),
                  Request(CHECK_LIVE_VIEW_STATUS, LastReply(l2))] + NewRequests(l2, fin)
  {
    FollowsTrans(l1, l2, fin);
    IssuedSplit(link, l1, fin, StartLiveViewCmd(LiveViewLow));
    IssuedSplit(l1, l2, fin, CHECK_LIVE_VIEW_STATUS);
  }

  /** A prelude cut short by its frame: the requests end in frame requests,
      so they cannot end with the stop request and its check. */
  lemma PreludeFrameFails(link: Link, l1: Link, l2: Link, l3: Link)
    requires Follows(link, l1) && Follows(l1, l2) && Follows(l2, l3)
    requires Issued(link, l1, StartLiveViewCmd(LiveViewLow)) && Issued(l1, l2, CHECK_LIVE_VIEW_STATUS)
    requires AllFor(NewRequests(l2, l3), GET_LIVE_VIEW_FRAME)
    requires var f := FrameOfLog(NewRequests(l2, l3)); !(f.Some? && f.value.thermal < 4)
    ensures Follows(link, l3) && !PreludeLog(NewRequests(link, l3))
  {
    PreludeHead(link, l1, l2, l3);
    var reqs := NewRequests(link, l3);
    var frame := NewRequests(l2, l3);
    if |reqs| >= 5 {
      assert reqs[|reqs| - 2] == frame[|frame| - 2];
      assert STOP_LIVE_VIEW[1] != GET_LIVE_VIEW_FRAME[1];
    }
  }

  /** A prelude cut short by the stop request: the request before it is a
      frame request, not the stop. */
  lemma PreludeStopFails(link: Link, l1: Link, l2: Link, l3: Link, l4: Link)
    requires Follows(link, l1) && Follows(l1, l2) && Follows(l2, l3) && Follows(l3, l4)
    requires Issued(link, l1, StartLiveViewCmd(LiveViewLow)) && Issued(l1, l2, CHECK_LIVE_VIEW_STATUS)
    requires AllFor(NewRequests(l2, l3), GET_LIVE_VIEW_FRAME) && FrameOfLog(NewRequests(l2, l3)).Some?
    requires Issued(l3, l4, STOP_LIVE_VIEW)
    ensures Follows(link, l4) && !PreludeLog(NewRequests(link, l4))
  {
    PreludeHead(link, l1, l2, l4);
    IssuedSplit(l3, l4, l4, STOP_LIVE_VIEW);
    NewRequestsSplit(l2, l3, l4);
    var reqs := NewRequests(link, l4);
    var frame := NewRequests(l2, l3);
    assert reqs[|reqs| - 2] == frame[|frame| - 1];
    assert STOP_LIVE_VIEW[1] != GET_LIVE_VIEW_FRAME[1];
  }

  /** A prelude that got as far as the stop-status check reads as a
      successful one exactly when that check was answered. */
  lemma PreludeEnds(link: Link, l1: Link, l2: Link, l3: Link, l4: Link, l5: Link)
    requires Follows(link, l1) && Follows(l1, l2) && Follows(l2, l3) && Follows(l3, l4) && Follows(l4, l5)
    requires Issued(link, l1, StartLiveViewCmd(LiveViewLow)) && Acknowledged(l1)
    requires Issued(l1, l2, CHECK_LIVE_VIEW_STATUS) && Answered(l2)
    requires var f := FrameOfLog(NewRequests(l2, l3)); f.Some? && f.value.thermal < 4
    requires Issued(l3, l4, STOP_LIVE_VIEW) && Acknowledged(l4)
    requires Issued(l4, l5, CHECK_LIVE_VIEW_STOP_STATUS)
    ensures Follows(link, l5)
    ensures PreludeLog(NewRequests(link, l5)) <==> Answered(l5)
  {
    PreludeHead(link, l1, l2, l5);
    NewRequestsSplit(l2, l3, l5);
    IssuedSplit(l3, l4, l5, STOP_LIVE_VIEW);
    IssuedSplit(l4, l5, l5, CHECK_LIVE_VIEW_STOP_STATUS);
    var reqs := NewRequests(link, l5);
    var frame := NewRequests(l2, l3);
    assert reqs[2..|reqs| - 2] == frame;
  }

  /** The part of `take_picture_and_get` run when live view has not been
      initialised: start it at low resolution, check its status, read one
      frame, stop it and check the stop. The statuses only decide whether
      to wait, and waiting is not modelled. */
  function LiveViewPrelude(env: Env, link: Link): (o: Out<()>)
    ensures PreludeOutcome(env, link, o)
  {
    var a := StartLiveView(env, link, LiveViewLow);
    IssuedSplit(link, a.link, a.link, StartLiveViewCmd(LiveViewLow));
    if !a.result.Ok? then a
    else PreludeFromCheck(env, link, a.link)
  }

  /** The prelude from its status check on. */
  function PreludeFromCheck(env: Env, link: Link, l1: Link): (o: Out<()>)
    requires Follows(link, l1) && Issued(link, l1, StartLiveViewCmd(LiveViewLow)) && Acknowledged(l1)
    ensures PreludeOutcome(env, link, o)
  {
    var b := CheckLiveViewStatus(env, l1);
    PreludeHead(link, l1, b.link, b.link);
    if !b.result.Ok? then Out(b.result.Cast(), b.link)
    else PreludeFromFrame(env, link, l1, b.link)
  }

  /** The prelude from its frame on. */
  function PreludeFromFrame(env: Env, link: Link, l1: Link, l2: Link): (o: Out<()>)
    requires Follows(link, l1) && Issued(link, l1, StartLiveViewCmd(LiveViewLow)) && Acknowledged(l1)
    requires Follows(l1, l2) && Issued(l1, l2, CHECK_LIVE_VIEW_STATUS) && Answered(l2)
    ensures PreludeOutcome(env, link, o)
  {
    var c := GetLiveViewFrame(env, l2);
    PreludeHead(link, l1, l2, c.link);
    if !c.result.Ok? then
      PreludeFrameFails(link, l1, l2, c.link);
      Out(c.result.Cast(), c.link)
    else PreludeFromStop(env, link, l1, l2, c.link)
  }

  /** The prelude from the stop request on. */
  function PreludeFromStop(env: Env, link: Link, l1: Link, l2: Link, l3: Link): (o: Out<()>)
    requires Follows(link, l1) && Issued(link, l1, StartLiveViewCmd(LiveViewLow)) && Acknowledged(l1)
    requires Follows(l1, l2) && Issued(l1, l2, CHECK_LIVE_VIEW_STATUS) && Answered(l2)
    requires Follows(l2, l3) && AllFor(NewRequests(l2, l3), GET_LIVE_VIEW_FRAME)
    requires var f := FrameOfLog(NewRequests(l2, l3)); f.Some? && f.value.thermal < 4
    ensures PreludeOutcome(env, link, o)
  {
    var d := StopLiveView(env, l3);
    PreludeHead(link, l1, l2, d.link);
    if !d.result.Ok? then
      PreludeStopFails(link, l1, l2, l3, d.link);
      d
    else
      var e := CheckLiveViewStopRequestStatus(env, d.link);
      PreludeHead(link, l1, l2, e.link);
      PreludeEnds(link, l1, l2, l3, d.link, e.link);
      Out(if e.result.Ok? then Ok(()) else e.result.Cast(), e.link)
  }

  // ---------------------------------------------------------------------
  // The shot and the whole workflow
  // ---------------------------------------------------------------------

  /** Reference reading of the shot: the picture buffer cleared and the
      picture taken with `orientation`, both acknowledged, then a polling
      phase that reads as a capture. */
  ghost function ShotOfLog(reqs: seq<Request>, orientation: PictureOrientation, hasCallback: bool): (r: Option<Photo>)
  {
    if || |reqs| < 2
       || reqs[0].cmd != CLEAR_PIC_BUF || !AckReply(reqs[0].reply)
       || reqs[1].cmd != TakePictureCmd(orientation) || !AckReply(reqs[1].reply)
    then None
    else CaptureOfLog(reqs[2..], hasCallback)
  }

  /** The commands a shot may send. */
  ghost predicate ShotCmd(cmd: seq<I8>, orientation: PictureOrientation, hasCallback: bool)
  {
    cmd == CLEAR_PIC_BUF || cmd == TakePictureCmd(orientation) || CaptureCmd(cmd, hasCallback)
  }

  ghost predicate ShotCmds(reqs: seq<Request>, orientation: PictureOrientation, hasCallback: bool)
  {
    forall i :: 0 <= i < |reqs| ==> ShotCmd(reqs[i].cmd, orientation, hasCallback)
  }

  /** The clear and take requests followed by polling-phase requests. */
  lemma ShotCmdsOfHead(reqs: seq<Request>, orientation: PictureOrientation, hasCallback: bool)
    requires |reqs| >= 2 && reqs[0].cmd == CLEAR_PIC_BUF && reqs[1].cmd == TakePictureCmd(orientation)
    requires CaptureCmds(reqs[2..], hasCallback)
    ensures ShotCmds(reqs, orientation, hasCallback)
  {
    forall i | 2 <= i < |reqs|
      ensures CaptureCmd(reqs[i].cmd, hasCallback)
    {
      assert reqs[i] == reqs[2..][i - 2];
    }
  }

  /** The shot's first one or two requests are shot commands. */
  lemma ShotHeadCmds(link: Link, l1: Link, l2: Link, orientation: PictureOrientation, hasCallback: bool)
    requires Follows(link, l1) && Follows(l1, l2)
    requires Issued(link, l1, CLEAR_PIC_BUF) && Issued(l1, l2, TakePictureCmd(orientation))
    ensures ShotCmds(NewRequests(link, l1), orientation, hasCallback)
    ensures ShotCmds(NewRequests(link, l2), orientation, hasCallback)
  {
    IssuedSplit(link, l1, l1, CLEAR_PIC_BUF);
    ShotHead(link, l1, l2, l2, orientation);
  }

  /** What the shot promises: it starts with the clear request and sends
      only shot commands, it succeeds exactly when its requests read as a
      shot, with that shot's photo, and a failure is that of the step that
      failed. */
  ghost predicate ShotOutcome(env: Env, link: Link, orientation: PictureOrientation, hasCallback: bool, o: Out<Photo>)
  {
    && Follows(link, o.link)
    && |NewRequests(link, o.link)| > 0
    && NewRequests(link, o.link)[0].cmd == CLEAR_PIC_BUF
    && ShotCmds(NewRequests(link, o.link), orientation, hasCallback)
    && (o.result.Ok? <==> ShotOfLog(NewRequests(link, o.link), orientation, hasCallback).Some?)
    && (o.result.Ok? ==> o.result.value == ShotOfLog(NewRequests(link, o.link), orientation, hasCallback).value)
    && (o.result.Err? ==> SendError(env, o.result.error) || o.result.error.InvalidLength?
                          || o.result.error == InvalidFormat)
    && (o.result.Panic? ==> o.result.site == OpenConnReplyEmpty)
  }

  /** The shot's first two requests, whatever follows them. */
  lemma ShotHead(link: Link, l1: Link, l2: Link, fin: Link, orientation: PictureOrientation)
    requires Follows(link, l1) && Follows(l1, l2) && Follows(l2, fin)
    requires Issued(link, l1, CLEAR_PIC_BUF) && Issued(l1, l2, TakePictureCmd(orientation))
    ensures Follows(link, fin)
    ensures NewRequests(link, fin)
              == [Request(CLEAR_PIC_BUF, LastReply(l1)),
                  Request(TakePictureCmd(orientation), LastReply(l2))] + NewRequests(l2, fin)
  {
    FollowsTrans(l1, l2, fin);
    IssuedSplit(link, l1, fin, CLEAR_PIC_BUF);
    IssuedSplit(l1, l2, fin, TakePictureCmd(orientation));
  }

  /** The shot from its first poll on keeps the polling phase's contract,
      read through the two requests before it. */
  lemma ShotPolled(env: Env, link: Link, l1: Link, l2: Link, orientation: PictureOrientation, hasCallback: bool,
                   o: Out<Photo>)
    requires Follows(link, l1) && Follows(l1, l2)
    requires Issued(link, l1, CLEAR_PIC_BUF) && Acknowledged(l1)
    requires Issued(l1, l2, TakePictureCmd(orientation)) && Acknowledged(l2)
    requires PollOutcome(env, l2, hasCallback, [], o)
    ensures ShotOutcome(env, link, orientation, hasCallback, o)
  {
    ShotHead(link, l1, l2, o.link, orientation);
    var reqs := NewRequests(link, o.link);
    assert reqs[2..] == NewRequests(l2, o.link);
    ShotCmdsOfHead(reqs, orientation, hasCallback);
    if o.result.Ok? {
      var ph := CaptureOfLog(NewRequests(l2, o.link), hasCallback).value;
      assert ph.(thumbnails := [] + ph.thumbnails) == ph;
    }
  }

  /** The shot of `take_picture_and_get`: clear the picture buffer, take
      the picture with `orientation`, then poll until the picture is
      captured and fetch it. */
  function Shot(env: Env, link: Link, orientation: PictureOrientation, hasCallback: bool): (o: Out<Photo>)
    ensures ShotOutcome(env, link, orientation, hasCallback, o)
  {
    var c := ClearCameraPicBuf(env, link);
    IssuedSplit(link, c.link, c.link, CLEAR_PIC_BUF);
    if !c.result.Ok? then
      assert ShotCmds(NewRequests(link, c.link), orientation, hasCallback);
      Out(c.result.Cast(), c.link)
    else
      var t := TakePicture(env, c.link, orientation);
      ShotHead(link, c.link, t.link, t.link, orientation);
      ShotHeadCmds(link, c.link, t.link, orientation, hasCallback);
      if !t.result.Ok? then Out(t.result.Cast(), t.link)
      else
        var p := PollLoop(env, t.link, hasCallback, []);
        ShotPolled(env, link, c.link, t.link, orientation, hasCallback, p);
        p
  }

  /** `take_picture_and_get`. When live view was not initialised, the
      prelude runs first, and a failure there is the workflow's result,
      with nothing sent after it; otherwise the shot runs straight away.
      The thumbnails handed to the callback, in order, are the photo's
      `thumbnails`; `hasCallback` says whether a callback was supplied. */
  function TakePictureAndGet(env: Env, link: Link, orientation: PictureOrientation, hasCallback: bool,
                             wasLiveViewInitialized: bool): (o: Out<Photo>)
    ensures Follows(link, o.link)
    ensures wasLiveViewInitialized ==> ShotOutcome(env, link, orientation, hasCallback, o)
    ensures !wasLiveViewInitialized ==>
              var pre := LiveViewPrelude(env, link);
              && Follows(pre.link, o.link)
              && (!pre.result.Ok? ==> o.result == pre.result.Cast() && o.link == pre.link)
              && (pre.result.Ok? ==> && PreludeLog(NewRequests(link, pre.link))
                                     && ShotOutcome(env, pre.link, orientation, hasCallback, o))
  {
    if wasLiveViewInitialized then Shot(env, link, orientation, hasCallback)
    else
      var pre := LiveViewPrelude(env, link);
      if !pre.result.Ok? then Out(pre.result.Cast(), pre.link)
      else
        var o := Shot(env, pre.link, orientation, hasCallback);
        FollowsTrans(link, pre.link, o.link);
        o
  }

  // ---------------------------------------------------------------------
  // Stopping at the first failed step
  // ---------------------------------------------------------------------

  /** Whether one request of the shot did its job: a poll whose reply
      decodes, a thumbnail or picture part that decodes, or an acknowledged
      command (clearing the buffer, taking the picture). */
  ghost predicate StepOk(r: Request)
  {
    if r.cmd == CHECK_CAPTURE_STATUS then r.reply.Ok? && DecodeCaptureStatus(r.reply.value).Ok?
    else if r.cmd == GET_PIC_THUMBNAIL then r.reply.Ok? && DecodeThumbnail(r.reply.value).Ok?
    else if PicBufOffset(r.cmd).Some? then r.reply.Ok? && DecodePicturePart(r.reply.value).Ok?
    else AckReply(r.reply)
  }

  /** A run of requests that stops at the first failed step: every request
      but the last did its job, and the last did exactly when the run
      succeeded. */
  ghost predicate StepsUntil(reqs: seq<Request>, ok: bool)
    decreases |reqs|
  {
    && |reqs| > 0
    && if |reqs| == 1 then (StepOk(reqs[0]) <==> ok)
       else StepOk(reqs[0]) && StepsUntil(reqs[1..], ok)
  }

  lemma StepsUntilCons(first: Request, rest: seq<Request>, ok: bool)
    requires StepOk(first) && StepsUntil(rest, ok)
    ensures StepsUntil([first] + rest, ok)
  {
    assert ([first] + rest)[1..] == rest;
  }

  /** `StepsUntil` read position by position. */
  lemma {:induction false} StepsUntilMeaning(reqs: seq<Request>, ok: bool)
    requires StepsUntil(reqs, ok)
    ensures |reqs| > 0 && (StepOk(reqs[|reqs| - 1]) <==> ok)
    ensures forall i :: 0 <= i < |reqs| - 1 ==> StepOk(reqs[i])
    decreases |reqs|
  {
    if |reqs| > 1 {
      StepsUntilMeaning(reqs[1..], ok);
      forall i | 1 <= i < |reqs| - 1
        ensures StepOk(reqs[i])
      {
        assert reqs[i] == reqs[1..][i - 1];
      }
    }
  }

  /** Clearing the buffer and taking the picture are judged by their
      acknowledgement. */
  lemma StepOkOfCommands(r: Result<Bytes>, orientation: PictureOrientation)
    ensures StepOk(Request(CLEAR_PIC_BUF, r)) == AckReply(r)
    ensures StepOk(Request(TakePictureCmd(orientation), r)) == AckReply(r)
  {
    assert CLEAR_PIC_BUF[1] != CHECK_CAPTURE_STATUS[1] && CLEAR_PIC_BUF[1] != GET_PIC_THUMBNAIL[1];
    PicBufBytes(CLEAR_PIC_BUF);
    var take := TakePictureCmd(orientation);
    assert take[1] == TAKE_PICTURE[1];
    PicBufBytes(take);
  }

  /** A picture-part request is judged by the decoding of its part. */
  lemma StepOkOfPart(r: Result<Bytes>, received: U32)
    ensures StepOk(Request(ReadPicBufCmd(received), r)) == (r.Ok? && DecodePicturePart(r.value).Ok?)
  {
    var part := ReadPicBufCmd(received);
    ReadPicBufOffset(received, part);
    PicBufBytes(part);
  }

  /** One request issued between `link` and `mid` whose step succeeded
      or not, as `ok` says. */
  lemma StepsUntilSingle(link: Link, mid: Link, cmd: seq<I8>, ok: bool)
    requires Follows(link, mid) && Issued(link, mid, cmd)
    requires StepOk(Request(cmd, LastReply(mid))) <==> ok
    ensures StepsUntil(NewRequests(link, mid), ok)
  {
    IssuedSplit(link, mid, mid, cmd);
  }

  /** One request that did its job, then a run that stops at its first
      failed step. */
  lemma StepsUntilStep(link: Link, mid: Link, fin: Link, cmd: seq<I8>, ok: bool)
    requires Follows(link, mid) && Follows(mid, fin) && Issued(link, mid, cmd)
    requires StepOk(Request(cmd, LastReply(mid))) && StepsUntil(NewRequests(mid, fin), ok)
    ensures Follows(link, fin) && StepsUntil(NewRequests(link, fin), ok)
  {
    IssuedSplit(link, mid, fin, cmd);
    StepsUntilCons(Request(cmd, LastReply(mid)), NewRequests(mid, fin), ok);
  }

  /** The picture transfer asks for no part after one that failed. */
  lemma {:induction false} FetchStopsAtFailure(env: Env, link: Link, buf: Bytes)
    ensures var o := FetchLoop(env, link, buf);
            StepsUntil(NewRequests(link, o.link), o.result.Ok?)
    decreases |link.ins|
  {
    var received := WrapU32(|buf|);
    var cmd := ReadPicBufCmd(received);
    var p := GetPartialPictureBuffer(env, link, received);
    StepOkOfPart(LastReply(p.link), received);
    if !p.result.Ok? || p.result.value.isEnd {
      StepsUntilSingle(link, p.link, cmd, p.result.Ok?);
    } else {
      FetchStopsAtFailure(env, p.link, buf + p.result.value.payload);
      var o := FetchLoop(env, p.link, buf + p.result.value.payload);
      StepsUntilStep(link, p.link, o.link, cmd, o.result.Ok?);
    }
  }

  /** The polling phase sends nothing after a step that failed. */
  lemma {:induction false} PollStopsAtFailure(env: Env, link: Link, hasCallback: bool, thumbs: seq<Bytes>)
    ensures var o := PollLoop(env, link, hasCallback, thumbs);
            StepsUntil(NewRequests(link, o.link), o.result.Ok?)
    decreases |link.ins|, 1
  {
    var c := CheckCaptureStatus(env, link);
    if !c.result.Ok? {
      StepsUntilSingle(link, c.link, CHECK_CAPTURE_STATUS, false);
    } else if c.result.value.Captured? {
      FetchPictureStops(env, link, c.link, hasCallback, thumbs);
    } else if c.result.value.TryAgain? || !hasCallback {
      PollStopsAtFailure(env, c.link, hasCallback, thumbs);
      var o := PollLoop(env, c.link, hasCallback, thumbs);
      StepsUntilStep(link, c.link, o.link, CHECK_CAPTURE_STATUS, o.result.Ok?);
    } else {
      FetchThumbnailStops(env, link, c.link, c.result.value, thumbs);
    }
  }

  lemma FetchPictureStops(env: Env, link: Link, mid: Link, hasCallback: bool, thumbs: seq<Bytes>)
    requires Polled(link, mid, Captured)
    ensures var o := FetchPicture(env, link, mid, hasCallback, thumbs);
            StepsUntil(NewRequests(link, o.link), o.result.Ok?)
  {
    FetchStopsAtFailure(env, mid, []);
    var f := FetchLoop(env, mid, []);
    StepsUntilStep(link, mid, f.link, CHECK_CAPTURE_STATUS, f.result.Ok?);
  }

  lemma {:induction false} FetchThumbnailStops(env: Env, link: Link, mid: Link, st: CaptureStatus, thumbs: seq<Bytes>)
    requires Polled(link, mid, st) && st.ThumbnailAvailable? && |mid.ins| < |link.ins|
    ensures var o := FetchThumbnail(env, link, mid, st, thumbs);
            StepsUntil(NewRequests(link, o.link), o.result.Ok?)
    decreases |mid.ins|, 0
  {
    var t := GetThumbnail(env, mid);
    var o := FetchThumbnail(env, link, mid, st, thumbs);
    if !t.result.Ok? {
      StepsUntilSingle(mid, t.link, GET_PIC_THUMBNAIL, false);
    } else {
      PollStopsAtFailure(env, t.link, true, thumbs + [t.result.value]);
      StepsUntilStep(mid, t.link, o.link, GET_PIC_THUMBNAIL, o.result.Ok?);
    }
    StepsUntilStep(link, mid, o.link, CHECK_CAPTURE_STATUS, o.result.Ok?);
  }

  /** The shot sends nothing after a step that failed: a failed clear is
      not followed by the take, a failed take by no poll, and so on. */
  lemma ShotStopsAtFailure(env: Env, link: Link, orientation: PictureOrientation, hasCallback: bool)
    ensures var o := Shot(env, link, orientation, hasCallback);
            StepsUntil(NewRequests(link, o.link), o.result.Ok?)
  {
    var c := ClearCameraPicBuf(env, link);
    var o := Shot(env, link, orientation, hasCallback);
    StepOkOfCommands(LastReply(c.link), orientation);
    if !c.result.Ok? {
      StepsUntilSingle(link, c.link, CLEAR_PIC_BUF, false);
    } else {
      var t := TakePicture(env, c.link, orientation);
      StepOkOfCommands(LastReply(t.link), orientation);
      if !t.result.Ok? {
        StepsUntilSingle(c.link, t.link, TakePictureCmd(orientation), false);
      } else {
        PollStopsAtFailure(env, t.link, hasCallback, []);
        StepsUntilStep(c.link, t.link, o.link, TakePictureCmd(orientation), o.result.Ok?);
      }
      StepsUntilStep(link, c.link, o.link, CLEAR_PIC_BUF, o.result.Ok?);
    }
  }

  /** `take_picture_and_get` sends nothing after a failed step of the shot,
      and nothing at all after a failed prelude. */
  lemma TakePictureStopsAtFailure(env: Env, link: Link, orientation: PictureOrientation, hasCallback: bool,
                                  wasLiveViewInitialized: bool)
    ensures var o := TakePictureAndGet(env, link, orientation, hasCallback, wasLiveViewInitialized);
            var start := if wasLiveViewInitialized then link else LiveViewPrelude(env, link).link;
            && Follows(start, o.link)
            && (wasLiveViewInitialized || LiveViewPrelude(env, link).result.Ok? ==>
                  StepsUntil(NewRequests(start, o.link), o.result.Ok?))
            && (!wasLiveViewInitialized && !LiveViewPrelude(env, link).result.Ok? ==> o.link == start)
  {
    if wasLiveViewInitialized {
      ShotStopsAtFailure(env, link, orientation, hasCallback);
    } else if LiveViewPrelude(env, link).result.Ok? {
      ShotStopsAtFailure(env, LiveViewPrelude(env, link).link, orientation, hasCallback);
    }
  }

  // ---------------------------------------------------------------------
  // Properties of the workflow's request logs
  // ---------------------------------------------------------------------

  /** The payload a picture-part request brought back, if it decoded. */
  ghost function PartPayload(r: Request): Bytes
  {
    if r.reply.Ok? && DecodePicturePart(r.reply.value).Ok? then DecodePicturePart(r.reply.value).value.payload
    else []
  }

  /** The payloads of a run of picture-part requests, in order. */
  ghost function Joined(reqs: seq<Request>): Bytes
    decreases |reqs|
  {
    if |reqs| == 0 then [] else PartPayload(reqs[0]) + Joined(reqs[1..])
  }

  /** The payloads of the first `i` requests of a log are the first
      request's followed by those of the next `i - 1`. */
  lemma JoinedPrefix(reqs: seq<Request>, i: nat)
    requires 1 <= i <= |reqs|
    ensures Joined(reqs[..i]) == PartPayload(reqs[0]) + Joined(reqs[1..][..i - 1])
  {
    assert reqs[..i][1..] == reqs[1..][..i - 1];
  }

  /** The picture is the in-order concatenation of the parts, and the end
      mark is on the last part and no other. */
  lemma {:induction false} PictureIsParts(reqs: seq<Request>, offset: nat)
    requires PictureOfLog(reqs, offset).Some?
    ensures PictureOfLog(reqs, offset).value == Joined(reqs)
    ensures forall i :: 0 <= i < |reqs| ==>
              && reqs[i].reply.Ok? && DecodePicturePart(reqs[i].reply.value).Ok?
              && (DecodePicturePart(reqs[i].reply.value).value.isEnd <==> i == |reqs| - 1)
    decreases |reqs|
  {
    var p := DecodePicturePart(reqs[0].reply.value).value;
    if p.isEnd {
      assert Joined(reqs) == p.payload + Joined(reqs[1..]);
    } else {
      var rest := reqs[1..];
      PictureIsParts(rest, offset + |p.payload|);
      forall i | 1 <= i < |reqs|
        ensures && reqs[i].reply.Ok? && DecodePicturePart(reqs[i].reply.value).Ok?
                && (DecodePicturePart(reqs[i].reply.value).value.isEnd <==> i == |reqs| - 1)
      {
        assert reqs[i] == rest[i - 1];
      }
    }
  }

  /** The request is for the picture part at byte `n` (as a `u32`). */
  ghost predicate Asks(r: Request, n: nat)
  {
    PicBufOffset(r.cmd) == Some(WrapU32(n))
  }

  /** Each request of the log asks for the offset equal to `offset` plus
      the bytes the requests before it brought back. */
  ghost predicate AskedInOrder(reqs: seq<Request>, offset: nat)
  {
    forall i :: 0 <= i < |reqs| ==> Asks(reqs[i], offset + |Joined(reqs[..i])|)
  }

  /** A first request at `offset` in front of requests asked in order from
      just past its payload. */
  lemma AskedInOrderCons(reqs: seq<Request>, offset: nat)
    requires |reqs| > 0 && Asks(reqs[0], offset)
    requires AskedInOrder(reqs[1..], offset + |PartPayload(reqs[0])|)
    ensures AskedInOrder(reqs, offset)
  {
    var n := |PartPayload(reqs[0])|;
    forall i | 0 <= i < |reqs|
      ensures Asks(reqs[i], offset + |Joined(reqs[..i])|)
    {
      if i == 0 {
        assert reqs[..0] == [];
      } else {
        JoinedPrefix(reqs, i);
        assert reqs[i] == reqs[1..][i - 1];
      }
    }
  }

  lemma AskedInOrderSingle(reqs: seq<Request>, offset: nat)
    requires |reqs| == 1 && Asks(reqs[0], offset)
    ensures AskedInOrder(reqs, offset)
  {
    assert reqs[..0] == [];
  }

  /** The first request of a log that reads as a picture, and what the
      rest of the log must read as. */
  lemma PictureOfLogHead(reqs: seq<Request>, offset: nat)
    requires PictureOfLog(reqs, offset).Some?
    ensures Asks(reqs[0], offset) && reqs[0].reply.Ok? && DecodePicturePart(reqs[0].reply.value).Ok?
    ensures var p := DecodePicturePart(reqs[0].reply.value).value;
            && |PartPayload(reqs[0])| == |p.payload|
            && (p.isEnd ==> |reqs| == 1)
            && (!p.isEnd ==> PictureOfLog(reqs[1..], offset + |p.payload|).Some?)
    ensures |reqs| == 1 || PictureOfLog(reqs[1..], offset + |PartPayload(reqs[0])|).Some?
  {
  }

  /** After `Captured`, each picture-part request asks for the offset equal
      to the number of bytes received before it. */
  lemma {:induction false} PictureOffsets(reqs: seq<Request>, offset: nat)
    requires PictureOfLog(reqs, offset).Some?
    ensures AskedInOrder(reqs, offset)
    decreases |reqs|
  {
    PictureChain(reqs, offset);
    ChainInOrder(reqs, offset);
  }

  /** The offsets a log asks for, one request at a time: each asks for
      `offset`, and the rest from just past its payload. */
  ghost predicate AskedChain(reqs: seq<Request>, offset: nat)
    decreases |reqs|
  {
    |reqs| == 0 || (Asks(reqs[0], offset) && AskedChain(reqs[1..], offset + |PartPayload(reqs[0])|))
  }

  lemma {:induction false} PictureChain(reqs: seq<Request>, offset: nat)
    requires PictureOfLog(reqs, offset).Some?
    ensures |reqs| > 0 && AskedChain(reqs, offset)
    decreases |reqs|
  {
    PictureOfLogHead(reqs, offset);
    if |reqs| > 1 {
      PictureChain(reqs[1..], offset + |PartPayload(reqs[0])|);
    }
  }

  lemma {:induction false} ChainInOrder(reqs: seq<Request>, offset: nat)
    requires |reqs| > 0 && AskedChain(reqs, offset)
    ensures AskedInOrder(reqs, offset)
    decreases |reqs|
  {
    if |reqs| == 1 {
      AskedInOrderSingle(reqs, offset);
    } else {
      ChainInOrder(reqs[1..], offset + |PartPayload(reqs[0])|);
      AskedInOrderCons(reqs, offset);
    }
  }

  /** What a poll says must come next in a log that reads as a capture:
      after `Captured` the first picture part, at offset 0; after a
      thumbnail report, the thumbnail when there is a callback; after
      anything else, another poll. */
  ghost predicate FollowedAsPolled(reqs: seq<Request>, hasCallback: bool, i: nat)
    requires i < |reqs|
  {
    && reqs[i].reply.Ok? && DecodeCaptureStatus(reqs[i].reply.value).Ok?
    && var st := DecodeCaptureStatus(reqs[i].reply.value).value;
       && i + 1 < |reqs|
       && (st.Captured? ==> PicBufOffset(reqs[i + 1].cmd) == Some(0))
       && (st.ThumbnailAvailable? && hasCallback ==> reqs[i + 1].cmd == GET_PIC_THUMBNAIL)
       && (st.TryAgain? || (st.ThumbnailAvailable? && !hasCallback) ==>
             reqs[i + 1].cmd == CHECK_CAPTURE_STATUS)
  }

  /** The first poll of a log that reads as a capture. */
  lemma AfterFirstPoll(reqs: seq<Request>, hasCallback: bool)
    requires CaptureOfLog(reqs, hasCallback).Some?
    ensures FollowedAsPolled(reqs, hasCallback, 0)
  {
    var c := DecodeCaptureStatus(reqs[0].reply.value).value;
    if c.Captured? {
      assert WrapU32(0) == 0;
    }
  }

  /** A step of `AfterPoll` past the first `k` requests. */
  lemma AfterPollShift(reqs: seq<Request>, hasCallback: bool, i: nat, k: nat)
    requires 0 < k <= i < |reqs| && FollowedAsPolled(reqs[k..], hasCallback, i - k)
    ensures FollowedAsPolled(reqs, hasCallback, i)
  {
    assert reqs[i] == reqs[k..][i - k] && reqs[i + 1] == reqs[k..][i + 1 - k];
  }

  /** The first poll of a log that reads as a capture, and what the rest
      of the log must read as. */
  lemma CaptureOfLogHead(reqs: seq<Request>, hasCallback: bool)
    requires CaptureOfLog(reqs, hasCallback).Some?
    ensures reqs[0].cmd == CHECK_CAPTURE_STATUS && reqs[0].reply.Ok?
    ensures DecodeCaptureStatus(reqs[0].reply.value).Ok?
    ensures var st := DecodeCaptureStatus(reqs[0].reply.value).value;
            && (st.Captured? ==> PictureOfLog(reqs[1..], 0).Some?)
            && (st.TryAgain? || (st.ThumbnailAvailable? && !hasCallback) ==>
                  CaptureOfLog(reqs[1..], hasCallback).Some?)
            && (st.ThumbnailAvailable? && hasCallback ==>
                  && |reqs| >= 2 && reqs[1].cmd == GET_PIC_THUMBNAIL
                  && CaptureOfLog(reqs[2..], hasCallback).Some?)
  {
  }

  /** Once a poll has reported `Captured`, only picture parts follow. */
  lemma NoPollAfterCaptured(reqs: seq<Request>, i: nat)
    requires 0 < i < |reqs| && PictureOfLog(reqs[1..], 0).Some?
    ensures reqs[i].cmd != CHECK_CAPTURE_STATUS
  {
    PictureOfLogCmds(reqs[1..], 0);
    assert PicBufOffset(reqs[1..][i - 1].cmd).Some?;
    PicBufBytes(reqs[i].cmd);
  }

  /** Every poll of a log that reads as a capture is followed as it says. */
  lemma {:induction false} AfterPoll(reqs: seq<Request>, hasCallback: bool, i: nat)
    requires CaptureOfLog(reqs, hasCallback).Some?
    requires i < |reqs| && reqs[i].cmd == CHECK_CAPTURE_STATUS
    ensures FollowedAsPolled(reqs, hasCallback, i)
    decreases |reqs|
  {
    if i == 0 {
      AfterFirstPoll(reqs, hasCallback);
    } else {
      CaptureOfLogHead(reqs, hasCallback);
      var c := DecodeCaptureStatus(reqs[0].reply.value).value;
      if c.Captured? {
        NoPollAfterCaptured(reqs, i);
        assert false;
      } else {
        var k := if c.TryAgain? || !hasCallback then 1 else 2;
        if k == 2 {
          assert GET_PIC_THUMBNAIL[2] != CHECK_CAPTURE_STATUS[2];
        }
        assert i >= k && reqs[i] == reqs[k..][i - k];
        AfterPoll(reqs[k..], hasCallback, i - k);
        AfterPollShift(reqs, hasCallback, i, k);
      }
    }
  }

  /** The five requests of the live-view prelude. */
  ghost predicate LiveViewRequest(cmd: seq<I8>)
  {
    || cmd == StartLiveViewCmd(LiveViewLow) || cmd == CHECK_LIVE_VIEW_STATUS || cmd == GET_LIVE_VIEW_FRAME
    || cmd == STOP_LIVE_VIEW || cmd == CHECK_LIVE_VIEW_STOP_STATUS
  }

  /** The prelude's requests are told apart by their bytes 1 and 2. */
  lemma LiveViewBytes(cmd: seq<I8>)
    ensures LiveViewRequest(cmd) ==>
              && |cmd| > 2
              && ((cmd[1] in {1, 2} && cmd[2] in {1, 2}) || (cmd[1] == 5 && cmd[2] == 1))
  {
  }

  /** A picture-part request has bytes 1 and 2 of the read-buffer opcode. */
  lemma PicBufBytes(cmd: seq<I8>)
    ensures PicBufOffset(cmd).Some? ==> |cmd| > 2 && cmd[1] == 5 && cmd[2] == 2
  {
    if PicBufOffset(cmd).Some? {
      assert cmd[..8][1] == READ_PIC_BUF[..8][1] && cmd[..8][2] == READ_PIC_BUF[..8][2];
    }
  }

  /** None of the polling phase's requests is a live-view request. */
  lemma CaptureCmdNotLiveView(cmd: seq<I8>, hasCallback: bool)
    requires CaptureCmd(cmd, hasCallback)
    ensures !LiveViewRequest(cmd)
  {
    LiveViewBytes(cmd);
    PicBufBytes(cmd);
  }

  /** Clearing the buffer and taking the picture are not live-view
      requests. */
  lemma ShotHeadNotLiveView(orientation: PictureOrientation)
    ensures !LiveViewRequest(CLEAR_PIC_BUF) && !LiveViewRequest(TakePictureCmd(orientation))
  {
    LiveViewBytes(CLEAR_PIC_BUF);
    var cmd := TakePictureCmd(orientation);
    assert cmd[1] == TAKE_PICTURE[1] && cmd[2] == TAKE_PICTURE[2];
    LiveViewBytes(cmd);
  }

  /** A log that reads as a shot holds only shot commands. */
  lemma ShotOfLogCmds(reqs: seq<Request>, orientation: PictureOrientation, hasCallback: bool)
    requires ShotOfLog(reqs, orientation, hasCallback).Some?
    ensures ShotCmds(reqs, orientation, hasCallback)
  {
    CaptureOfLogCmds(reqs[2..], hasCallback);
    ShotCmdsOfHead(reqs, orientation, hasCallback);
  }

  /** Shot commands are never live-view requests. */
  lemma ShotAvoidsLiveView(reqs: seq<Request>, orientation: PictureOrientation, hasCallback: bool)
    requires ShotCmds(reqs, orientation, hasCallback)
    ensures forall i :: 0 <= i < |reqs| ==> !LiveViewRequest(reqs[i].cmd)
  {
    ShotHeadNotLiveView(orientation);
    forall i | 0 <= i < |reqs|
      ensures !LiveViewRequest(reqs[i].cmd)
    {
      if CaptureCmd(reqs[i].cmd, hasCallback) {
        CaptureCmdNotLiveView(reqs[i].cmd, hasCallback);
      }
    }
  }

  /** With live view already initialised, the workflow sends no live-view
      request, whether it succeeds or fails. */
  lemma InitializedAvoidsLiveView(env: Env, link: Link, orientation: PictureOrientation, hasCallback: bool)
    ensures var o := TakePictureAndGet(env, link, orientation, hasCallback, true);
            forall i :: 0 <= i < |NewRequests(link, o.link)| ==> !LiveViewRequest(NewRequests(link, o.link)[i].cmd)
  {
    var o := TakePictureAndGet(env, link, orientation, hasCallback, true);
    ShotAvoidsLiveView(NewRequests(link, o.link), orientation, hasCallback);
  }

  /** Without a callback, a shot requests no thumbnail, whether it succeeds
      or fails. */
  lemma ShotWithoutCallback(env: Env, link: Link, orientation: PictureOrientation)
    ensures var o := Shot(env, link, orientation, false);
            forall i :: 0 <= i < |NewRequests(link, o.link)| ==> NewRequests(link, o.link)[i].cmd != GET_PIC_THUMBNAIL
  {
    var o := Shot(env, link, orientation, false);
    ShotCmdsNoThumbnail(NewRequests(link, o.link), orientation);
  }

  /** Shot commands without a callback exclude the thumbnail request. */
  lemma ShotCmdsNoThumbnail(reqs: seq<Request>, orientation: PictureOrientation)
    requires ShotCmds(reqs, orientation, false)
    ensures forall i :: 0 <= i < |reqs| ==> reqs[i].cmd != GET_PIC_THUMBNAIL
  {
    var cmd := TakePictureCmd(orientation);
    assert cmd[2] == TAKE_PICTURE[2];
    assert GET_PIC_THUMBNAIL[2] != cmd[2] && GET_PIC_THUMBNAIL[2] != CLEAR_PIC_BUF[2];
    ThumbnailNeedsCallback();
  }
}
