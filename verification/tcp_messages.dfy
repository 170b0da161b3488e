/** What TCP endpoints say to each other (util/tcp_sender_message.hh, util/tcp_receiver_message.hh). */
module TcpMessages {
  import opened MachineTypes

  datatype SenderMessage = SenderMessage(seqno: uint32, syn: bool, payload: seq<byte>, fin: bool, rst: bool) {

    /** How many sequence numbers the segment occupies. */
    function SequenceLength(): nat {
      (if syn then 1 else 0) + |payload| + (if fin then 1 else 0)
    }
  }

  datatype ReceiverMessage = ReceiverMessage(ackno: Option<uint32>, window: uint16, rst: bool)

  datatype TcpMessage = TcpMessage(sender: SenderMessage, receiver: ReceiverMessage)
}
