/** Router identifiers: 32-byte public keys. */
module RouterIds {
  import opened WireBytes

  type RouterId = s: Bytes | |s| == 32 witness seq(32, _ => 0 as byte)

  const BUCKETS := 128

  /** The bucket of a relay: one byte of its key with the top bit masked off. */
  function BucketOf(rid: RouterId): (b: nat)
    ensures b < BUCKETS
  {
    rid[16] % 0x80
  }
}
