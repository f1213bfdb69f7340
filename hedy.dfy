/** The one constant of hedy.py that the website code uses here; the transpiler itself is not modelled. */
module Hedy {
  /** `HEDY_MAX_LEVEL`: the highest level. */
  const HEDY_MAX_LEVEL: int := 18
}
