/** What the arena stores and what it is fetched by (`arena/src/lib.rs`), shared by the
    protocol of its pins and by its index. */
module ArenaTypes {

  import opened Wrappers

  const U32_MAX: nat := 0xFFFF_FFFF
  const U64_MAX: nat := 0xFFFF_FFFF_FFFF_FFFF

  datatype Key = Key(lo: nat, hi: nat)
  datatype Encoded = Encoded(bytes: seq<nat>, tag: nat)
  datatype Record = Record(body: seq<nat>, encoded: Option<Encoded>, stamp: nat, extra: nat)
  datatype SlotState = Empty | Live | Retired | Addressed

  function EncodedBytes(r: Record): seq<nat> { if r.encoded.Some? then r.encoded.value.bytes else [] }

  function Content(r: Record): seq<nat> { r.body + EncodedBytes(r) }

  /** An empty encoded body reads back as none at all. */
  function Normal(r: Record): Record { if EncodedBytes(r) == [] then r.(encoded := None) else r }
}
