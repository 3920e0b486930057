/** Values exchanged by colony nodes (colony-server/src/models.rs) and the clock
    arithmetic that both the handlers and the storage layer use. */
module Gossip {
  import opened Wrappers

  type Bytes = seq<bv8>

  /** A UTC instant in nanoseconds, the resolution of chrono's DateTime. */
  type Instant = int

  const SECOND: int := 1_000_000_000

  /** `ttl_hops` and COLONY_GOSSIP_MAX_HOPS are u8. */
  type Hops = h: int | 0 <= h < 256

  datatype PeerRegistration = PeerRegistration(peerId: string, address: string, role: string)

  datatype Envelope = Envelope(
    gossipId: string,
    ttlHops: Hops,
    sender: PeerRegistration,
    observedThreats: seq<string>,
    observedOrganisms: nat,
    sentAt: Instant,
    hmac: Option<Bytes>)

  /** `Duration::num_seconds`: whole seconds, rounded toward zero. */
  function WholeSeconds(d: int): int {
    if 0 <= d then d / SECOND else -((-d) / SECOND)
  }

  /** `DateTime::timestamp`: seconds since the epoch, rounded down. */
  function Timestamp(t: Instant): int {
    t / SECOND
  }

  /** `DateTime::timestamp_millis`. */
  function TimestampMillis(t: Instant): int {
    t / 1_000_000
  }
}
