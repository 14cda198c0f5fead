/** What several parts of the system say about sessions and devices. */
module FiraDevice {
  import opened Bytes

  datatype SessionState = Initialized | Deinitialized | Active | Idle

  /** Two octets for a short address, eight for an extended one. */
  type MacAddress = seq<byte>
}
