/** The configuration-bits record that walkers exchange between processes: one
    block of whole bytes wide enough for Bl bits. */
module RecordLayout {

  /** ceil(Bl / 8): the fewest whole bytes that hold Bl bits. It depends on
      the shared width Bl only, never on xSite, so every process that agrees
      on Bl agrees on the record size. */
  function ConfigRecordBytes(bl: nat): (bytes: nat)
    ensures 8 * bytes >= bl
    ensures bytes > 0 ==> 8 * (bytes - 1) < bl
  {
    (bl + 7) / 8
  }

  /** The byte count is the unique value with that property. */
  lemma ConfigRecordBytesUnique(bl: nat, bytes: nat)
    requires 8 * bytes >= bl && (bytes > 0 ==> 8 * (bytes - 1) < bl)
    ensures bytes == ConfigRecordBytes(bl)
  {
  }
}
