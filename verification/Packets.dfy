/** The wire record: one change of one control, as the server serialises it. */
module Packets {
  import opened Wrappers
  import opened DotNet

  /** `StatePacket`: the offset name (a C# string, so possibly null) and the raw value. */
  datatype StatePacket = StatePacket(offset: Option<string>, value: int32)

  /** What the JSON deserializer gives for one received piece of text: a packet, the
      `null` object (for instance for an empty piece), or an exception. */
  datatype DecodeOutcome = Decoded(packet: StatePacket) | NullObject | Malformed
}
