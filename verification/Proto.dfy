/** The two messages of the gRPC contract. */
module Proto {
  type u32 = x: int | 0 <= x < 0x1_0000_0000
  type byte = x: int | 0 <= x < 256

  datatype PacketReport = PacketReport(agentId: string, srcIp: string, dstIp: string, srcPort: u32, dstPort: u32,
                                       protocol: string, length: u32, payloadPeek: seq<byte>)

  datatype ActionType = BLOCK | RATE_LIMIT | ALLOW

  datatype ActionCommand = ActionCommand(action: ActionType, targetIp: string, reason: string,
                                         durationSeconds: u32, rateLimitPps: u32)
}
