/** The point-to-point messages of the row protocol. */
module Messages {
  import opened Pixels

  /**
   * A worker's message to the master: the sender's rank, the message tag
   * (0 on first contact, otherwise the index of the row carried) and the
   * row buffer.
   */
  datatype Message = Message(source: nat, tag: nat, row: seq<u8>)
}
