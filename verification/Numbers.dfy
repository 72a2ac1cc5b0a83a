/**
 Sizes, durations and limits that are never zero.
 */
module Numbers {

  type Pos = n: nat | n >= 1 witness 1
}
