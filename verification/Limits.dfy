/** Sizes the build configuration of DPDK fixes for every program. */
module Limits {
  /** RTE_MAX_LCORE and RTE_MAX_ETHPORTS. */
  const MAX_LCORES := 128
  const MAX_PORTS := 32
}
