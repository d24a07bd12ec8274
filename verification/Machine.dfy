// What the agent gets from the machine: fixed-width unsigned integers where their width matters,
// bytes, and the outcomes of file writes.

module Machine {

  type Bytes = seq<bv8>

  const U64_MAX: nat := 0xFFFF_FFFF_FFFF_FFFF
  const U128_MAX: nat := 0xFFFF_FFFF_FFFF_FFFF_FFFF_FFFF_FFFF_FFFF

  /** An atomic write lands whole or not at all, and may land and still report an error
      when only the directory flush after the rename fails. */
  datatype WriteOutcome = Durable | LandedNotSynced | NotWritten

  predicate Landed(w: WriteOutcome) {
    !w.NotWritten?
  }

  function SaturatingAdd64(a: nat, b: nat): nat {
    if a + b <= U64_MAX then a + b else U64_MAX
  }

  function SaturatingSub(a: nat, b: nat): nat {
    if a >= b then a - b else 0
  }
}
