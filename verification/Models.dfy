/** A packet as the suite reports it while a test runs. */
module Models {
  import opened Basics

  datatype Direction = Sent | Received

  datatype PacketEvent =
    PacketEvent(timestamp: real, direction: Direction, summary: string, size: nat, nodeid: Option<string>)
}
