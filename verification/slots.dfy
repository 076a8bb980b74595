/** The three values a slot of an occupancy stack can hold. Every status array has
    one extra trailing slot that is UNAVAILABLE and acts as a sentinel. */
module Slots {
  const FREE: int := 0
  const OCCUPIED: int := 1
  const UNAVAILABLE: int := -1
}
