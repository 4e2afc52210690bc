# hacam-lib-rs in Dafny

A model of the host side of hacam-lib-rs, the Rust library that drives a
HaCam 360° camera over USB bulk transfers with SCSI-like command and status
wrappers. The model covers three things:

- the transfer engine: command headers, status-trailer (CSW) recognition,
  chunked reads and writes, the open-connection handshake, the
  retry-and-reinitialise loop of `send_custom_read_command` and the keepalive;
- the command wrappers and response decoders of `HaCam`, together with the
  settings block codec;
- the `take_picture_and_get` workflow, modelled as a state machine over
  the same transfer engine.

The device is a pair of scripts carried in a `Link`:

- `ins` gives the outcome of each coming bulk IN transfer: the bytes
  received, or a transport error;
- `outs` gives the outcome of each coming bulk OUT transfer;
- a script that has run out stands for a device that no longer answers,
  which the host sees as a timeout (see "## Left out" for the one read
  that has no timeout in the library).

The `Link` also records what the host did:

- `sent` holds every OUT payload;
- `exchanges` holds one entry per transfer-level exchange;
- `requests` holds one entry per call of `send_custom_read_command`: its
  command buffer and what it returned.

The library's random check values come from `Env.rand`, indexed by exchange
number. `Env.defaultTries` is the session's `default_tries`.

Results have three outcomes:

- `Ok`;
- `Err` with a `CamError`;
- `Panic(site)` for the places where the Rust code indexes a buffer it has
  not checked.

Workflow properties are stated over the request log. Reference readers
(`FrameOfLog`, `PictureOfLog`, `CaptureOfLog`, `ShotOfLog`, `PreludeLog`)
say what a log must look like for the operation to succeed, and what it
returns when it does. Each operation is proved to succeed exactly when its
own log reads that way.

Modules:

- `Bytes`: byte and integer encodings.
- `Errors`: `CamError` and `Result`.
- `Consts`: opcodes and sizes.
- `Codec`: the header and trailer.
- `Transfer`: read and write.
- `Retry`: the handshake, retries and keepalive.
- `Settings`: the enum tables and the settings block.
- `Responses`: the decoders and opcode patching.
- `Camera`: the `HaCam` operations.
- `Capture`: `take_picture_and_get`.

Where the code and its documentation disagree, the model follows the code.
The clearest case is the oversize guard of `read_data` (`src/cam.rs:339-348`).
It stops reading and returns what it has collected as `Ok`, not as an error.

## Model

| member | source | states |
|---|---|---|
| Codec.MakeCmdHeader | src/cam.rs:238-264 | The header is 31 bytes: the "USBC" magic, the check value big-endian, the maximum receive size little-endian, 0x80 for a read and 0 for a write, a zero, the length byte 16 whatever the opcode's real length, then the opcode bytes zero-padded or cut to fill 31 bytes |
| Codec.ParseMakeCmdHeader | src/cam.rs:238-264 | Parsing a built header gives back the check value, receive size, direction and the 16 opcode bytes |
| Codec.MakeParseCmdHeader | src/cam.rs:238-264 | Every buffer that parses as a header is the header built from its own fields, so the layout loses nothing |
| Codec.CswCharacterised | src/cam.rs:211-227 | With a nonzero check value, a buffer is a status trailer exactly when it is at least 13 bytes long and its last 13 bytes are "USBS", the check value big-endian and five further bytes |
| Codec.CswRecognised | src/cam.rs:211-227 | Any bytes followed by a trailer are recognised, both with the trailer's own check value and with check value 0, which skips the comparison |
| Codec.CswOtherCheckRejected | src/cam.rs:220-224 | A trailer that echoes a different nonzero check value is rejected |
| Transfer.ReadDataUnchecked | src/cam.rs:275-297 | One command header out and one reply in; success consumes an IN reply, and any failure is a transport error |
| Transfer.ReadDataUncheckedSingle | src/cam.rs:275-297 | With the header accepted, the result is the first IN reply as received, trailer included |
| Transfer.ReadData | src/cam.rs:308-355 | One header, then chunks until a trailer; success consumes at least one IN reply, failures are transport errors, and it never panics |
| Transfer.ReadChunksAssembles | src/cam.rs:324-352 | Non-trailer chunks within the size limit, then a trailer, give the chunks concatenated plus the trailer's leading bytes, and consume exactly those replies |
| Transfer.ReadChunksOversize | src/cam.rs:339-348 | A chunk that would exceed the 65536-byte limit ends the read with Ok and the bytes collected before it; that chunk is dropped and no error is raised |
| Transfer.ReadChunksEmptyChunksSpin | src/cam.rs:324-352 | A device that answers only with empty chunks never ends the loop; the read ends only when the device stops answering, as a timeout |
| Transfer.ReadDataAssembles | src/cam.rs:308-355 | A complete scripted read returns the assembled payload, sends exactly the read header for the drawn check value, and consumes one OUT and the chunk replies |
| Transfer.ReadDataSingle | src/cam.rs:308-355 | A single reply that ends in a trailer gives that reply without its last 13 bytes |
| Transfer.Slices | src/cam.rs:377-381 | The data cut into chunks of the chunk size concatenates back to the data; every chunk is nonempty and all but the last are full |
| Transfer.SendSlices | src/cam.rs:377-381 | Success sends the chunks in order and consumes one OUT per chunk; if every OUT transfer is accepted it succeeds |
| Transfer.WriteData | src/cam.rs:363-399 | A write records one exchange; success sends the header and then the data chunks in order, and waits for one status reply |
| Transfer.WriteDataOutcome | src/cam.rs:363-399 | With all OUT transfers accepted, the write succeeds exactly when the status reply is a trailer for the check value, and fails with Write otherwise; the header announces a write whose length field is the data length truncated to 32 bits |
| Retry.InitAttempts | src/cam.rs:95-131 | The handshake loop keeps the request log, performs no chunked reads, fails only with a connection-initialisation or transport error, and panics only on an empty reply |
| Retry.InitializeComm | src/cam.rs:95-131 | `initialize_comm` performs up to default_tries attempts with the same guarantees |
| Retry.InitReady | src/cam.rs:101-105 | A reply starting with 0 ends the handshake successfully |
| Retry.InitStep | src/cam.rs:106-109 | A reply starting with 1 spends one attempt and moves on to the next replies |
| Retry.InitExhausted | src/cam.rs:123-130 | Once no attempts remain, the error is ConnInit with tries = default_tries and status 1 |
| Retry.InitAllBusy | src/cam.rs:96-130 | If every attempt is answered with 1, the handshake fails with ConnInit(default_tries, 1) |
| Retry.InitBusyThenReady | src/cam.rs:96-109 | Fewer busy replies than attempts, then a 0, give success |
| Retry.InitRejected | src/cam.rs:110-117 | Any other status byte fails at once with ConnInit(tries = 1, that status) |
| Retry.Attempt | src/cam.rs:410-454 | One round either finishes with a result or retries; a finished success under Evaluate has a first byte of 0 or 1, and under any non-Ignore action it is not the power-save byte |
| Retry.Attempts | src/cam.rs:410-454 | The retry loop performs at most `remaining` chunked reads and keeps the guarantees of one round |
| Retry.SendCustomReadCommand | src/cam.rs:410-454 | Appends one request to the log with its own result; performs at most 1 + default_tries chunked reads; under Ignore the result is that of a single read_data |
| Retry.AttemptRetries | src/cam.rs:441-445 | A reply whose status byte is neither 0, 1 nor the power-save byte is retried under Evaluate |
| Retry.AttemptsExhausted | src/cam.rs:416-453 | If every read asks for a retry, the command fails with SendCommand(1 + default_tries, 0) |
| Retry.FourRetriesExhaust | src/cam.rs:410-454 | With the default of three tries, four replies with status 3 give SendCommand(4, 0) |
| Retry.AttemptStops | src/cam.rs:418-433 | A failed read ends the attempt with that failure; outside Ignore an empty reply ends it with InvalidLength(1, 0) |
| Retry.SendStops | src/cam.rs:410-433 | The call stops at a failed read or, outside Ignore, an empty reply: the failure is its result, no further read is made, and the request is logged with it |
| Retry.AttemptAccepted | src/cam.rs:418-433 | A reply with status 0 or 1 finishes the command with that reply, trailer removed |
| Retry.PowerSaveReinit | src/cam.rs:434-439 | A power-save reply makes the host reinitialise the connection and go round again |
| Retry.PowerSaveRecovery | src/cam.rs:410-454 | A power-save reply, a successful handshake, then a good reply give that reply, after exactly read, handshake, read |
| Retry.PowerSaveOnlyRetried | src/cam.rs:418-440 | Under IgnoreButRetryIfPowerSaving, any reply that is not the power-save byte is returned as is |
| Retry.KeepaliveHeader | src/cam.rs:136-176 | The keepalive header is a read of 64 bytes carrying opcode 0x7a 0x03 0xff |
| Retry.SendKeepalive | src/cam.rs:136-176 | The keepalive sends its header and succeeds exactly when both transfers work and the reply's first byte is 0; with both transfers working, an empty reply is InvalidLength(1, 0) and a nonzero first byte gives exactly the Keepalive error carrying that byte, and a Keepalive error carries a nonzero first byte; a refused OUT or failed IN is a transport error |
| Responses.ThermalFromByte | src/cam.rs:841-865 | A thermal byte decodes exactly when it is below 4, to the status whose code it is; otherwise InvalidFormat |
| Responses.ThermalRoundTrip | src/cam.rs:841-865 | Every thermal status decodes from its own code |
| Responses.CheckFlag | src/cam.rs:525-540 | A status check fails with InvalidLength(1, 0) exactly on an empty reply, and otherwise is true exactly when the first byte is neither 1 nor 3 |
| Responses.Envelope | src/cam.rs:557-570 | A payload decodes from a reply that holds the header, a little-endian length just before the payload, and at least that many payload bytes; a reply shorter than the header is InvalidLength(header size, len), and one shorter than the announced payload is InvalidLength(header size + announced length, len) |
| Responses.EnvelopeOfEnclose | src/cam.rs:607-624 | Any payload wrapped with a header and a length decodes back to that payload |
| Responses.EncloseOfEnvelope | src/cam.rs:607-624 | Every reply that decodes is a header, the length, that payload and trailing bytes |
| Responses.DecodeFramePart | src/cam.rs:543-592 | A live-view part decodes exactly when its 32-byte envelope does; it is the last part exactly when byte 1 is 1, and it carries byte 20 as the thermal byte |
| Responses.DecodeThumbnail | src/cam.rs:598-625 | A thumbnail is the length-prefixed payload after a 20-byte header; a reply shorter than 20 bytes is InvalidLength(20, len) |
| Responses.DecodePicturePart | src/cam.rs:634-673 | A picture part uses the thumbnail envelope, and it is the end exactly when byte 1 is 1 |
| Responses.DecodeCaptureStatus | src/cam.rs:705-764 | An empty reply is InvalidLength(1, 0); status 1 is TryAgain, 3 is Captured, and a byte other than 0, 1 or 3 is InvalidFormat; status 0 reports a thumbnail with the stored count, the exposure flag, and the NUL-terminated name from bytes 8 up to 72 when byte 8 is nonzero; status 0 with at least 9 bytes is always a thumbnail report, and with fewer bytes it is InvalidLength(9, len) |
| Responses.DecodeCameraStatus | src/cam.rs:841-865 | Fewer than 5 bytes is InvalidLength(5, len); otherwise the status decodes exactly when byte 4 is a thermal code, with byte 1 as the execution status |
| Responses.VersionAt | src/cam.rs:884-894 | A version string exists exactly when the marker byte 118 is at the start position; it is the run of non-NUL bytes from there, up to the end bound or the reply's end |
| Responses.CameraInfoAsWritten | src/cam.rs:877-896 | As written: a reply shorter than 97 bytes is InvalidLength(97, len); a reply of exactly 97 bytes panics; longer replies give the version at 97..129 |
| Responses.CameraInfoGuardTooWeak | src/cam.rs:877-884 | A 97-byte reply passes the length check and then panics on the index |
| Responses.CameraInfo | src/cam.rs:868-897 | Corrected: never panics; fails exactly when the reply has at most 97 bytes, with InvalidLength(97, len) below 97 bytes as in the source and InvalidLength(98, 97) at exactly 97; otherwise gives the version at 97..129 |
| Responses.CameraInfoAgrees | src/cam.rs:877-896 | The corrected and the as-written decoders give the same result exactly on the replies that are not 97 bytes long |
| Responses.ScsiVersionAsWritten | src/cam.rs:909-928 | As written: an empty reply is InvalidLength(1, 0); a 1-byte reply panics; longer replies give the version at 1..33 |
| Responses.ScsiVersionGuardTooWeak | src/cam.rs:909-916 | A 1-byte reply passes the emptiness check and then panics on the index |
| Responses.ScsiVersion | src/cam.rs:900-929 | Corrected: never panics; fails exactly when the reply has at most 1 byte, with InvalidLength(1, 0) for the empty reply as in the source and InvalidLength(2, 1) for a 1-byte reply; otherwise gives the version at 1..33 |
| Responses.ScsiVersionAgrees | src/cam.rs:909-928 | The corrected and the as-written decoders give the same result exactly on the replies that are not 1 byte long |
| Responses.StartLiveViewCmd | src/cam.rs:497-509 | The start command is the base opcode with byte 9 replaced by the resolution's code, and nothing else changed |
| Responses.TakePictureCmd | src/cam.rs:825-836 | The take-picture command is the base opcode with byte 8 replaced by the orientation's code, and nothing else changed |
| Responses.SettingCmd | src/cam.rs:935-967 | Read-setting and write-setting commands are their base opcode with byte 2 replaced by the setting's code |
| Responses.ReadPicBufCmd | src/cam.rs:634-673 | The read-picture-buffer command carries the received byte count little-endian in bytes 8..12, with the other bytes of the base opcode kept |
| Responses.ReadPicBufOffset | src/cam.rs:634-673 | Reading the offset back from a built command gives the count, and a command that carries a count is the one built for it |
| Responses.WriteAllSettingsAnnouncesBlock | src/cam.rs:995-1007 | The write-all command's length byte equals the size of the encoded settings block |
| Settings.LiveViewCode | src/settings.rs:15-21 | Each resolution decodes from its own code |
| Settings.LiveViewFromCode | src/settings.rs:15-21 | A byte decodes exactly when it is 9 or 10 |
| Settings.OrientationCode | src/settings.rs:42-52 | Each orientation decodes from its own code |
| Settings.OrientationFromCode | src/settings.rs:42-52 | A byte decodes exactly when it is 0..3 |
| Settings.PhotoCode | src/settings.rs:57-63 | Each photo resolution decodes from its own code |
| Settings.PhotoFromCode | src/settings.rs:57-63 | A byte decodes exactly when it is 3 or 4 |
| Settings.VideoCode | src/settings.rs:84-92 | Each video resolution decodes from its own code |
| Settings.VideoFromCode | src/settings.rs:84-92 | A byte decodes exactly when it is 9, 10 or 11 |
| Settings.EvCode | src/settings.rs:115-130 | Each exposure value decodes from its own code |
| Settings.EvFromCode | src/settings.rs:115-130 | A byte decodes exactly when it is 0..12 |
| Settings.WbCode | src/settings.rs:135-142 | Each white balance decodes from its own code |
| Settings.WbFromCode | src/settings.rs:135-142 | A byte decodes exactly when it is 0..4 |
| Settings.FilterCode | src/settings.rs:147-158 | Each filter decodes from its own code |
| Settings.FilterFromCode | src/settings.rs:147-158 | A byte decodes exactly when it is 0..8 |
| Settings.LogoCode | src/settings.rs:163-167 | Each logo type decodes from its own code |
| Settings.LogoFromCode | src/settings.rs:163-167 | A byte decodes exactly when it is 0 or 1 |
| Settings.BitrateCode | src/settings.rs:172-178 | Each bitrate decodes from its own code |
| Settings.BitrateFromCode | src/settings.rs:172-178 | A byte decodes exactly when it is 0, 4, 8 or 16 |
| Settings.SettingCode | src/settings.rs:183-192 | Each setting type decodes from its own code |
| Settings.SettingFromCode | src/settings.rs:183-192 | A byte decodes exactly when it is 3, 4, 7, 8, 9, 12, 16 or 17 |
| Settings.CodesInjective | src/settings.rs:15-192 | Distinct enum values have distinct codes in every table |
| Settings.ToBytes | src/settings.rs:207-229 | The block is 48 bytes: the codes at 2, 3, 6, 7, 32, 35 and 39, the year little-endian at 10..12 (truncated to 16 bits), month, day, hour, minute and second at 12..17, milliseconds little-endian at 18..20, and zeros everywhere else |
| Settings.FromBytes | src/settings.rs:231-273 | A block shorter than 40 bytes gives None; a decoded date carries the little-endian year and the milliseconds scaled to nanoseconds |
| Settings.FromBytesAccepts | src/settings.rs:231-273 | A long-enough block decodes exactly when every enum byte is in its table and the date and time are valid, leap second included |
| Settings.FromBytesLocal | src/settings.rs:236-260 | Decoding depends only on the field bytes: blocks that agree there decode alike |
| Settings.FromBytesToBytes | src/settings.rs:207-273 | Every representable setting (year below 65536, whole milliseconds) survives encoding and decoding unchanged |
| Settings.ToBytesFromBytes | src/settings.rs:207-273 | Re-encoding a decoded block reproduces every field byte of the original |
| Settings.YearTruncated | src/settings.rs:211-212 | The encoder keeps only the low 16 bits of the year |
| Settings.LeapMillis | src/settings.rs:247-255 | A decoded time has fewer than 2000 ms, and 1000 ms or more only in second 59 |
| Settings.LeapDay | src/settings.rs:241-246 | 29 February decodes only in a leap year |
| Camera.Command | src/cam.rs:470-491 | A plain command logs exactly its request and succeeds exactly when the device acknowledged it; a failure is the logged error |
| Camera.ClearCameraPicBuf | src/cam.rs:470-479 | Sends the clear command, and succeeds exactly when it is acknowledged |
| Camera.PowerOff | src/cam.rs:482-491 | Sends the power-off command, and succeeds exactly when it is acknowledged |
| Camera.StartLiveView | src/cam.rs:497-509 | Sends the start command with the resolution's code at byte 9, and succeeds exactly when it is acknowledged |
| Camera.StopLiveView | src/cam.rs:513-522 | Sends the stop command, and succeeds exactly when it is acknowledged |
| Camera.StartRecording | src/cam.rs:677-686 | Sends the start-recording command, and succeeds exactly when it is acknowledged |
| Camera.StopRecording | src/cam.rs:690-699 | Sends the stop-recording command, and succeeds exactly when it is acknowledged |
| Camera.TakePicture | src/cam.rs:825-836 | Sends the take command with the orientation's code at byte 8, and succeeds exactly when it is acknowledged |
| Camera.StatusCheck | src/cam.rs:525-540 | A status check is one read_data with its reply logged; it succeeds exactly when the reply is nonempty, with the verdict that the first byte is neither 1 nor 3; an empty reply is InvalidLength(1, 0) |
| Camera.CheckLiveViewStatus | src/cam.rs:525-540 | The live-view status check, with the verdict of its reply |
| Camera.CheckLiveViewStopRequestStatus | src/cam.rs:767-782 | The live-view stop check, with the verdict of its reply |
| Camera.CheckStartRecordingRequest | src/cam.rs:785-800 | The start-recording check, with the verdict of its reply |
| Camera.CheckStopRecordingRequest | src/cam.rs:803-818 | The stop-recording check, with the verdict of its reply |
| Camera.ByteQuery | src/cam.rs:457-467 | A one-byte query succeeds exactly when its command does, and returns the reply's first byte, never the power-save byte |
| Camera.QueryRemainingPicNum | src/cam.rs:457-467 | Returns the first byte of the remaining-pictures reply |
| Camera.ReadSetting | src/cam.rs:954-967 | Sends the read command with the setting's code at byte 2, and returns the first byte of the reply |
| Camera.GetThumbnail | src/cam.rs:598-625 | The result is the thumbnail decoded from the logged reply |
| Camera.GetPartialPictureBuffer | src/cam.rs:634-673 | Sends the read-buffer command for the received count; the result is the part decoded from the logged reply |
| Camera.CheckCaptureStatus | src/cam.rs:705-764 | One read_data of the capture-status command; the result is the status decoded from the logged reply |
| Camera.GetCameraStatus | src/cam.rs:841-865 | Whenever the request returns a reply, the result is the status decoded from it, with byte 1 as the execution status |
| Camera.GetCameraInfo | src/cam.rs:868-897 | Whenever the request returns a reply, the result is the corrected decode of it; success needs a reply longer than 97 bytes and gives the version string at 97..129 |
| Camera.GetScsiVersion | src/cam.rs:900-929 | Whenever the request returns a reply, the result is the corrected decode of it; success needs a reply longer than 1 byte and gives the version string at 1..33 |
| Camera.FrameLoop | src/cam.rs:551-590 | The frame loop sends only frame requests, and succeeds exactly when its log reads as a frame, with the parts' payloads concatenated after what was collected before |
| Camera.GetLiveViewFrame | src/cam.rs:543-592 | A frame is returned exactly when the log reads as a frame whose thermal byte is below 4; its data is the parts' payloads in order |
| Camera.WriteBlock | src/cam.rs:935-1007 | A block write records one write exchange, and on success sends the header announcing the block's length and then the block |
| Camera.WriteSetting | src/cam.rs:935-948 | Sends the write header with the setting's code at byte 2 and length 1, then the value byte |
| Camera.WriteAllSettings | src/cam.rs:995-1007 | Sends the write-all header for the 48-byte block, then the encoded settings |
| Camera.ReadAllSettings | src/cam.rs:970-990 | Succeeds exactly when the reply decodes as a settings block, with that block; a reply that does not decode is InvalidFormat |
| Camera.WriteThenReadSettings | src/cam.rs:970-1007 | A device that returns the block it was sent gives back the written settings, when they are representable |
| Capture.FetchLoop | src/util.rs:72-84 | The picture loop sends only picture-part requests; it succeeds exactly when its log reads as a picture transfer from the current offset, and then returns what it had plus that picture |
| Capture.PollLoop | src/util.rs:56-87 | The polling phase sends only polls, thumbnail requests when there is a callback, and picture-part requests; it succeeds exactly when its log reads as a polling phase, with that phase's photo |
| Capture.FetchPicture | src/util.rs:72-84 | After a Captured poll, the phase keeps the polling contract with the transferred picture |
| Capture.FetchThumbnail | src/util.rs:62-69 | After a thumbnail poll with a callback, the thumbnail is handed over in order and polling continues |
| Capture.LiveViewPrelude | src/util.rs:30-50 | The prelude succeeds exactly when its log reads as start, status check, a frame, stop and stop check, all answered |
| Capture.Shot | src/util.rs:52-87 | Clearing the buffer, taking the picture and polling: it starts with the clear request, sends only shot commands, and succeeds exactly when its log reads as a shot, with that shot's photo |
| Capture.TakePictureAndGet | src/util.rs:24-88 | Without live view initialised, a failed prelude is the result and nothing follows it; after a successful prelude, or straight away, the shot's contract holds |
| Capture.StepsUntilMeaning | src/util.rs:52-84 | A run that stops at its first failed step has every request but the last succeeding, and the last succeeding exactly when the run did |
| Capture.FetchStopsAtFailure | src/util.rs:74-83 | The picture transfer asks for no part after one that failed; it succeeds exactly when its last part request succeeded |
| Capture.PollStopsAtFailure | src/util.rs:56-87 | The polling phase sends nothing after a poll, thumbnail or part request that failed |
| Capture.FetchPictureStops | src/util.rs:72-84 | After the Captured poll, the transfer stops at its first failed part |
| Capture.FetchThumbnailStops | src/util.rs:62-69 | After a thumbnail report with a callback, a failed thumbnail request ends the phase |
| Capture.ShotStopsAtFailure | src/util.rs:52-87 | The shot sends nothing after a failed step: a failed clear is not followed by the take, a failed take by no poll, and so on through the polls and parts |
| Capture.TakePictureStopsAtFailure | src/util.rs:24-88 | take_picture_and_get sends nothing after a failed prelude, and nothing after a failed step of the shot |
| Capture.InitializedAvoidsLiveView | src/util.rs:30-50 | With live view already initialised, the workflow sends no live-view request, whether it succeeds or fails |
| Capture.ShotWithoutCallback | src/util.rs:62-69 | Without a callback, the shot requests no thumbnail, whether it succeeds or fails |
| Capture.NoThumbnailWithoutCallback | src/util.rs:62-69 | Polling-phase requests without a callback contain no thumbnail request |
| Capture.ShotAvoidsLiveView | src/util.rs:52-87 | No shot command is a live-view request |
| Capture.CaptureOfLogCmds | src/util.rs:56-87 | A log that reads as a polling phase holds only polling-phase requests |
| Capture.ShotOfLogCmds | src/util.rs:52-87 | A log that reads as a shot holds only shot commands |
| Capture.PictureIsParts | src/util.rs:72-84 | The picture is the payloads of the parts in order; every part decodes, and only the last is marked as the end |
| Capture.PictureOffsets | src/util.rs:75-78 | Each part request asks for the bytes received so far, truncated to 32 bits |
| Capture.OneThumbnailPerPoll | src/util.rs:62-69 | With a callback, the photo carries one thumbnail for each poll that reported one |
| Capture.NoPollsInPicture | src/util.rs:72-84 | The picture transfer contains no thumbnail-reporting polls |
| Capture.AfterPoll | src/util.rs:56-87 | After every poll comes what its status calls for: another poll, a thumbnail request only with a callback, or the transfer, with no poll after Captured |
| Capture.NoPollAfterCaptured | src/util.rs:72-84 | Once the picture is captured, no further poll is sent |

## Left out

- USB device discovery, claiming the interface and `reset_usb`: the model starts from an open session, and the device is the scripted `Link`.
- Timeouts, sleeps and durations (`tokio::time`): an elapsed timeout is a scripted transport failure or the end of a script; sleeps do not change any result.
- Transfer.ReadDataUnchecked: `read_data_unchecked` awaits its OUT and IN transfers with no timeout (src/cam.rs:285-294), so a device that stays silent blocks it for ever; the model cannot express a call that never returns and gives `Err(Timeout)` when the script runs out.
- Retry.InitAttempts: inherits that substitution, so a silent device during the handshake of `initialize_comm` (src/cam.rs:96-98) ends the attempt with `Err(Timeout)` where the library would wait indefinitely.
- The width and height tables of the resolutions (`LiveViewSize`, `PhotoSize`, `VideoSize`) are transcribed for completeness; nothing in the core depends on them and no property is stated about them.
- `rand_int`: the check values come from `Env.rand`, a parameter.
- Logging and `String::from_utf8_lossy`: version strings and picture names are returned as the raw bytes they would be decoded from.
- chrono beyond date and time validity: `NaiveDateTime` is a plain record with an explicit validity predicate.
- The thumbnail callback: it is a flag, and the thumbnails it would receive, in order, are `Photo.thumbnails`.
- The example programs and the constants file: the opcodes and sizes are transcribed in `Consts`.
- Camera.GetCameraInfo: uses the corrected length guard, so a 97-byte reply is the error InvalidLength(98, 97) rather than the panic of the code as written; `Responses.CameraInfoAsWritten` keeps the as-written behaviour.
- Camera.GetScsiVersion: uses the corrected guard, so a 1-byte reply is the error InvalidLength(2, 1) rather than a panic; `Responses.ScsiVersionAsWritten` keeps the as-written behaviour.
- Capture.Shot: its own contract says that a failure is one of the errors the steps can raise, not which step raised it; that nothing is sent after a failed step is stated by `Capture.ShotStopsAtFailure`.
- Capture.TakePictureAndGet: a failed prelude is characterised by its log only in the live-view requests it sent, not by which step failed.
- Retry.SendCustomReadCommand: bounds the number of chunked reads; the retry script is spelled out in the lemmas about it (`Retry.SendStops`, `Retry.AttemptAccepted`, `Retry.AttemptRetries`, `Retry.PowerSaveRecovery`, `Retry.AttemptsExhausted`), not in its own ensures.

## Findings

| source | as written | input that shows it | evidently intended | confidence | as-written member | corrected member |
|---|---|---|---|---|---|---|
| src/cam.rs:877-884 | rejects replies shorter than 97 bytes, then reads byte 97 | a 97-byte reply panics with an index out of bounds | reject replies of at most 97 bytes, so byte 97 exists | not executed | Responses.CameraInfoAsWritten | Responses.CameraInfo |
| src/cam.rs:909-916 | rejects only the empty reply, then reads byte 1 | a 1-byte reply panics with an index out of bounds | reject replies of at most 1 byte, so byte 1 exists | not executed | Responses.ScsiVersionAsWritten | Responses.ScsiVersion |
