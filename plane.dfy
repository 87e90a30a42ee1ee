/** One aircraft of an instance: ids, time window and cost coefficients. */
module Planes {

  /** The source declares the times as floats but is only ever given the integers
      produced by the reader; costs are the reader's integers scaled by 100. */
  datatype Plane = Plane(
    id: int,
    airlandId: int,
    A: int,            // appearance time
    E: int,            // earliest landing time
    T: int,            // target landing time
    L: int,            // latest landing time
    PCb: int,          // penalty coefficient per unit before T, times 100
    PCa: int,          // penalty coefficient per unit after T, times 100
    landingTime: int   // 0 unless the profile line carries a seventh token
  )
}
