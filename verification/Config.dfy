/** The compile-time limits of the library, left symbolic so that every proof holds for all of them. */
module Config {

  type Positive = n: nat | 1 <= n witness 1

  /** The largest extension a refresh may ask for; a larger one is clamped to it. */
  const MAX_EXTENSION: nat

  /** The number of thread-local clocks of a thread, clock 0 being the base clock. */
  const MAX_CLOCKS: Positive

  const MAX_REGIONS: Positive

  /** The value at which a descriptor counter is saturated. */
  const INT_MAX: nat := 0x7fff_ffff

  /** Descriptors that fit into one descriptor page, and the bound on pooled descriptor pages. */
  const DESCRIPTORS_PER_PAGE: Positive
  const DESCRIPTOR_PAGE_POOL: nat

  /** Bytes that fit into one region page, and the bound on pooled region pages. */
  const REGION_PAGE_PAYLOAD: Positive
  const REGION_PAGE_POOL: nat

  /** Slots of a locally and of a globally clocked descriptor buffer. */
  const LOCAL_SLOTS: nat := MAX_EXTENSION + 1
  const GLOBAL_SLOTS: nat := MAX_EXTENSION + 2
}
