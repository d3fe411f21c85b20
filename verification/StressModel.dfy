/** What the parts of the flow stress runner share. */
module StressModel {

  /** What one executed request step reports. `status` is 0 when no HTTP response arrived. */
  datatype Observation = Observation(step: string, latencyMs: int, status: int, failed: bool, error: string)

  /** `math.Round`: half away from zero. */
  function Round(x: real): int {
    if x >= 0.0 then (x + 0.5).Floor else -((-x + 0.5).Floor)
  }
}
