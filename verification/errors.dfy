/** The crate's error enum and the result type every camera operation returns. */
module Errors {

  /** `CamError`. The payloads of the transport, I/O and timeout variants are
      abstracted away: only the kind of failure matters to the protocol layer. */
  datatype CamError =
    | UsbTransfer
    | Io
    | Timeout
    | InvalidFormat
    | InvalidLength(expected: nat, received: nat)
    | ConnInit(tries: nat, statusCode: nat)
    | SendCommand(tries: nat, statusCode: nat)
    | Keepalive(statusCode: nat)
    | Write
    | NoDeviceFound(vid: nat, pid: nat)
  {
    /** A failure raised by a bulk transfer itself: a USB transfer error or
        an elapsed timeout. */
    predicate IsTransport()
    {
      UsbTransfer? || Timeout?
    }
  }

  /** The error every operation reports for a payload with no status byte. */
  const EMPTY_PAYLOAD: CamError := InvalidLength(1, 0)

  /** Where the source indexes a buffer without a sufficient length check and
      would panic instead of returning a `CamError`. */
  datatype PanicSite =
    | OpenConnReplyEmpty     // `out[0]` in initialize_comm
    | CameraInfoIndex97      // `data[97]` in get_camera_info
    | ScsiVersionIndex1      // `data[1]` in get_scsi_version

  /** `CamResult<T>`, plus a distinguished outcome for an index panic. */
  datatype Result<+T> = Ok(value: T) | Err(error: CamError) | Panic(site: PanicSite)
  {
    /** Re-types a failure, as `?` does when it propagates one. */
    function Cast<U>(): (r: Result<U>)
      requires !Ok?
      ensures r.Err? <==> Err?
      ensures Err? ==> r.error == error
      ensures Panic? ==> r == Panic(site)
    {
      if Err? then Err(error) else Panic(site)
    }
  }

  datatype Option<+T> = None | Some(value: T)
}
