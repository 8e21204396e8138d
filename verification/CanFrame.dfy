/** The CAN frame of the firmware (`CAN_FRAME` in firmware/can_common.h). */
module CanFrame {
  import opened Bytes

  type Data = d: seq<u8> | |d| == 8 witness [0, 0, 0, 0, 0, 0, 0, 0]

  datatype Frame = Frame(id: u32, extended: bool, rtr: u8, priority: u8, length: u8, data: Data)
}
