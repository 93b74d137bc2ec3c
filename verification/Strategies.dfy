/** The numbers by which an index is told which operator a search is for. */
module Strategies {
  // B-tree operators
  const BT_LESS := 1
  const BT_LESS_EQUAL := 2
  const BT_EQUAL := 3
  const BT_GREATER_EQUAL := 4
  const BT_GREATER := 5

  /** The inner keys are compared without strictness. */
  function Weak(strategy: int): int {
    if strategy == BT_LESS then BT_LESS_EQUAL else if strategy == BT_GREATER then BT_GREATER_EQUAL else strategy
  }

  // R-tree operators
  const RT_OVERLAP := 3
  const RT_SAME := 6
  const RT_CONTAINS := 7
  const RT_CONTAINED_BY := 8
  const RT_OLD_CONTAINS := 13
  const RT_OLD_CONTAINED_BY := 14
}
