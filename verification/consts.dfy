/** Wire constants: magics, transfer sizes and the opcode buffers of the
    command set. Opcodes are kept as the signed bytes the source declares. */
module Consts {
  import opened Bytes

  /** `RX_HEADER_MAGIC`, "USBS": first four bytes of a status trailer. */
  const RX_HEADER_MAGIC: Bytes := [0x55, 0x53, 0x42, 0x53]

  /** `TX_HEADER_MAGIC`, "USBC": first four bytes of a command header. */
  const TX_HEADER_MAGIC: Bytes := [0x55, 0x53, 0x42, 0x43]

  const HEADER_SIZE: nat := 31
  const CSW_SIZE: nat := 13
  const OPCODE_LENGTH_FIELD: Byte := 16
  const READ_DIRECTION: Byte := 0x80   // `-128i8 as u8`

  const DEFAULT_MAX_RECV_SIZE: nat := 65536
  const DEFAULT_CHUNK_SIZE: nat := 16384
  const KEEPALIVE_RX_BUF_SIZE: nat := 64

  // "SCSI" commands
  const OPEN_CONN_COMMAND: seq<I8> := [122, 0, 1, 0, 0, 0, 0, 0, 0, 0, 0, 0, 0, 0, 0, 0]
  const KEEP_ALIVE_COMMAND: seq<I8> := [122, 3, -1]

  // USB commands
  const GET_CAMERA_STATUS: seq<I8> := [122, 3, 48, 0, 0, 0, 0, 0, 0, 0, 0, 0, 0, 0, 0, 0]
  const GET_SCSI_VERSION: seq<I8> := [122, 3, 2, 0, 0, 0, 0, 0, 118, 50, 46, 48, 48, 48, 48, 0]
  const START_LIVE_VIEW: seq<I8> := [122, 1, 1, 0, 0, 0, 0, 0, 0, 10, 0, 0, 0, 0, 0, 0]
  const GET_LIVE_VIEW_FRAME: seq<I8> := [122, 5, 1, 0, 0, 0, 0, 0, 0, 0, 0, 0, 0, 0, 0, 0]
  const CHECK_LIVE_VIEW_STATUS: seq<I8> := [122, 2, 1, 0, 0, 0, 0, 0, 0, 0, 0, 0, 0, 0, 0, 0]
  const STOP_LIVE_VIEW: seq<I8> := [122, 1, 2, 0, 0, 0, 0, 0, 0, 0, 0, 0, 0, 0, 0, 0]
  const CHECK_LIVE_VIEW_STOP_STATUS: seq<I8> := [122, 2, 2, 0, 0, 0, 0, 0, 0, 0, 0, 0, 0, 0, 0, 0]
  const READ_PIC_BUF: seq<I8> := [122, 5, 2, 0, 0, 0, 0, 0, 0, 0, 0, 0, 0, 0, 0, 0]
  const TAKE_PICTURE: seq<I8> := [122, 1, 5, 0, 0, 0, 0, 0, 2, 0, 0, 0, 0, 0, 0, 0]
  const GET_PIC_THUMBNAIL: seq<I8> := [122, 5, 3, 0, 0, 0, 0, 0, 0, 0, 0, 0, 0, 0, 0, 0]
  const CLEAR_PIC_BUF: seq<I8> := [122, 1, -123, 0, 0, 0, 0, 0, 0, 0, 0, 0, 0, 0, 0, 0]
  const CHECK_CAPTURE_STATUS: seq<I8> := [122, 2, 5, 0, 0, 0, 0, 0, 0, 0, 0, 0, 0, 0, 0, 0]
  const GET_REMAINING_PIC_NUM: seq<I8> := [122, 3, 53, 0, 0, 0, 0, 0, 0, 0, 0, 0, 0, 0, 0, 0]
  const READ_ALL_SETTINGS: seq<I8> := [122, 4, 96, 0, 0, 0, 0, 0, 0, 0, 0, 0, 0, 0, 0, 0]
  const WRITE_ALL_SETTINGS: seq<I8> := [123, 4, 96, 0, 48, 0, 0, 0, 0, 0, 0, 0, 0, 0, 0, 0]
  const GET_CAMERA_INFO: seq<I8> := [122, 3, 1, 0, 0, 0, 0, 0, 55, 46, 55, 50, 46, 48, 48, 0]
  const POWER_OFF_CAMERA: seq<I8> := [122, 1, -16, 0, 0, 0, 0, 0, 0, 0, 0, 0, 0, 0, 0, 0]
  const WRITE_GENERAL_SETTING: seq<I8> := [123, 4, 0, 0, 1, 0, 0, 0, 0, 0, 0, 0, 0, 0, 0, 0]
  const READ_GENERAL_SETTING: seq<I8> := [122, 4, 0, 0, 0, 0, 0, 0, 0, 0, 0, 0, 0, 0, 0, 0]
  const START_RECORDING: seq<I8> := [122, 1, 3, 0, 0, 0, 0, 0, 0, 0, 0, 0, 0, 0, 0, 0]
  const CHECK_START_RECORDING: seq<I8> := [122, 2, 3, 0, 0, 0, 0, 0, 0, 0, 0, 0, 0, 0, 0, 0]
  const STOP_RECORDING: seq<I8> := [122, 1, 4, 0, 0, 0, 0, 0, 0, 0, 0, 0, 0, 0, 0, 0]
  const CHECK_STOP_RECORDING: seq<I8> := [122, 2, 4, 0, 0, 0, 0, 0, 0, 0, 0, 0, 0, 0, 0, 0]
}
