/** What the packet filter's parts share. */
module Xdp {
  /** The filter's arithmetic is unsigned and 64 bits wide. */
  const U64 := 0x1_0000_0000_0000_0000

  datatype Verdict = Pass | Drop
}
