/** The feature vector of a flow, over the reals, and the model label's risk. */
module Features {
  datatype FlowFeatures = FlowFeatures(destinationPort: real, flowDuration: real, totalFwdPackets: real,
                                       totalLengthFwdPackets: real, flowBytesPerSecond: real,
                                       flowPacketsPerSecond: real, averagePacketSize: real)

  // IsolationForest answers 1 for a normal flow; every other label counts as an anomaly.
  function MapLabelToRisk(aiLabel: int): int {
    if aiLabel == 1 then 0 else 50
  }
}
