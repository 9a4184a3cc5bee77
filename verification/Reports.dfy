/** Replay reports and the gate that decides whether two of them may be compared. */
module Reports {
  import opened Words
  import opened Histograms

  datatype ParseMetrics = ParseMetrics(frames: u64, parseErrors: u64, sequenceGaps: u64, outOfOrder: u64)

  datatype ReplayReport = ReplayReport(engine: string, input: ParseMetrics, stageLatency: LatencySummary, events: u64,
                                       dropped: u64, backpressure: u64, checksum: u64, elapsedNs: u64)

  predicate ReportsComparable(bengal: ReplayReport, standard: ReplayReport) {
    && bengal.input.frames == standard.input.frames
    && bengal.input.parseErrors == 0
    && standard.input.parseErrors == 0
    && bengal.events == standard.events
    && bengal.checksum == standard.checksum
    && bengal.dropped == 0 && standard.dropped == 0
    && bengal.stageLatency.samples == bengal.events
    && standard.stageLatency.samples == standard.events
  }

  /**
   * Comparability is symmetric and transitive, and holds of a report and itself exactly when nothing went wrong in its
   * replay; two such reports are comparable iff frames, events and checksum agree, whatever else differs.
   */
  lemma ComparableIsEquivalence(a: ReplayReport, b: ReplayReport, c: ReplayReport)
    ensures ReportsComparable(a, a) <==>
            a.input.parseErrors == 0 && a.dropped == 0 && a.stageLatency.samples == a.events
    ensures ReportsComparable(a, b) ==> ReportsComparable(b, a)
    ensures ReportsComparable(a, b) && ReportsComparable(b, c) ==> ReportsComparable(a, c)
    ensures ReportsComparable(a, b) <==>
            && ReportsComparable(a, a) && ReportsComparable(b, b)
            && a.input.frames == b.input.frames && a.events == b.events && a.checksum == b.checksum
  {
  }
}
