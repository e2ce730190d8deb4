/** Kernel processes, by number; none is NOBODY. */
module Procs {
  type Proc = int
  const NOBODY := 0
}
