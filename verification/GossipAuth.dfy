/** Signing and verification of gossip envelopes (colony-server/src/main.rs, 495-572).
    HMAC-SHA256 followed by hex encoding is a parameter: any function of key and
    payload whose result is not empty. */
module GossipAuth {
  import opened Wrappers
  import opened Gossip

  type Mac = (string, string) -> Bytes

  /** A hex-encoded SHA-256 tag has 64 characters. */
  ghost predicate TagsNonEmpty(mac: Mac) {
    forall key, payload :: mac(key, payload) != []
  }

  // ----- signed payload ------------------------------------------------------

  function Digits(n: nat): (s: string)
    ensures s != []
  {
    var d := ['0' + (n % 10) as char];
    if n < 10 then d else Digits(n / 10) + d
  }

  function Decimal(n: int): string {
    if 0 <= n then Digits(n) else "-" + Digits(-n)
  }

  function Join(parts: seq<string>, sep: string): string {
    if parts == [] then ""
    else if |parts| == 1 then parts[0]
    else parts[0] + sep + Join(parts[1..], sep)
  }

  function SigningPayload(e: Envelope): string {
    e.gossipId + "|" + (Decimal(e.ttlHops) + ("|" + UnsignedTail(e)))
  }

  /** The fields of the payload that a relay leaves alone. */
  function UnsignedTail(e: Envelope): string {
    e.sender.peerId + "|" + e.sender.address + "|" + e.sender.role + "|"
    + Decimal(e.observedOrganisms) + "|" + Decimal(TimestampMillis(e.sentAt)) + "|"
    + Join(e.observedThreats, ",")
  }

  lemma {:induction false} DigitsInjective(m: nat, n: nat)
    requires Digits(m) == Digits(n)
    ensures m == n
  {
    var dm, dn := Digits(m), Digits(n);
    assert dm[|dm| - 1] == '0' + (m % 10) as char;
    assert dn[|dn| - 1] == '0' + (n % 10) as char;
    if 10 <= m && 10 <= n {
      assert Digits(m / 10) == dm[..|dm| - 1] == dn[..|dn| - 1] == Digits(n / 10);
      DigitsInjective(m / 10, n / 10);
    }
  }

  /** Rewriting the TTL always changes the signed payload, so a relay that did not
      sign again would forward a tag computed for another text. */
  lemma PayloadBindsTtl(e: Envelope, ttl: Hops)
    ensures SigningPayload(e) == SigningPayload(e.(ttlHops := ttl)) <==> e.ttlHops == ttl
  {
    var f := e.(ttlHops := ttl);
    var p, q := SigningPayload(e), SigningPayload(f);
    if p == q {
      var tail := "|" + UnsignedTail(e);
      assert UnsignedTail(f) == UnsignedTail(e);
      var head := e.gossipId + "|";
      assert p == head + (Decimal(e.ttlHops) + tail);
      assert q == head + (Decimal(ttl) + tail);
      assert p[|head|..|p| - |tail|] == Decimal(e.ttlHops);
      assert q[|head|..|q| - |tail|] == Decimal(ttl);
      DigitsInjective(e.ttlHops, ttl);
    }
  }

  // ----- sign and verify -----------------------------------------------------

  function Sign(mac: Mac, e: Envelope, key: string): Envelope {
    e.(hmac := Some(mac(key, SigningPayload(e))))
  }

  /** Signing with the node's key, or leaving the tag as it came when the node has none. */
  function SignIfKeyed(mac: Mac, e: Envelope, key: Option<string>): Envelope {
    if key.Some? then Sign(mac, e, key.value) else e
  }

  predicate Verifies(mac: Mac, e: Envelope, key: string) {
    && e.hmac.Some?
    && e.hmac.value != []
    && e.hmac.value == mac(key, SigningPayload(e))
  }

  predicate VerifiesAny(mac: Mac, e: Envelope, keys: seq<string>) {
    exists k :: 0 <= k < |keys| && Verifies(mac, e, keys[k])
  }

  /** An envelope signed with one key passes under another exactly when the two keys
      give its payload the same tag; in particular it passes under the same key. */
  lemma SignedVerifies(mac: Mac, e: Envelope, key: string, other: string)
    requires TagsNonEmpty(mac)
    ensures Verifies(mac, Sign(mac, e, key), other)
            <==> mac(key, SigningPayload(e)) == mac(other, SigningPayload(e))
  {
    assert SigningPayload(Sign(mac, e, key)) == SigningPayload(e);
  }

  /** The or-of-xors accumulator decides byte equality, at every length. */
  method ConstantTimeEq(a: Bytes, b: Bytes) returns (equal: bool)
    ensures equal <==> a == b
  {
    if |a| != |b| {
      return false;
    }
    var res: bv8 := 0;
    for i := 0 to |a|
      invariant res == 0 <==> a[..i] == b[..i]
    {
      assert a[..i + 1] == a[..i] + [a[i]] && b[..i + 1] == b[..i] + [b[i]];
      res := res | (a[i] ^ b[i]);
    }
    assert a[..|a|] == a && b[..|b|] == b;
    return res == 0;
  }

  method VerifySignature(mac: Mac, e: Envelope, key: string) returns (ok: bool)
    ensures ok <==> Verifies(mac, e, key)
  {
    if e.hmac.None? || e.hmac.value == [] {
      return false;
    }
    ok := ConstantTimeEq(mac(key, SigningPayload(e)), e.hmac.value);
  }

  method VerifySignatureWithAnyKey(mac: Mac, e: Envelope, keys: seq<string>) returns (ok: bool)
    ensures ok <==> VerifiesAny(mac, e, keys)
  {
    for k := 0 to |keys|
      invariant forall j :: 0 <= j < k ==> !Verifies(mac, e, keys[j])
    {
      var one := VerifySignature(mac, e, keys[k]);
      if one {
        return true;
      }
    }
    return false;
  }

  // ----- key list ------------------------------------------------------------

  /** `parse_gossip_hmac_keys` after splitting and trimming: the signing key leads the
      verify list, empty entries are skipped and no key is listed twice. */
  method ParseHmacKeys(active: Option<string>, previous: seq<string>)
    returns (signing: Option<string>, verify: seq<string>)
    ensures signing == if active.Some? && active.value != "" then active else None
    ensures signing.Some? ==> verify != [] && verify[0] == signing.value
    ensures forall key :: key in verify <==> key != "" && (signing == Some(key) || key in previous)
    ensures forall i, j :: 0 <= i < j < |verify| ==> verify[i] != verify[j]
  {
    signing := if active.Some? && active.value != "" then active else None;
    verify := [];
    if signing.Some? {
      verify := [signing.value];
    }
    for i := 0 to |previous|
      invariant signing.Some? ==> verify != [] && verify[0] == signing.value
      invariant forall key :: key in verify <==> key != "" && (signing == Some(key) || key in previous[..i])
      invariant forall i, j :: 0 <= i < j < |verify| ==> verify[i] != verify[j]
    {
      assert previous[..i + 1] == previous[..i] + [previous[i]];
      if previous[i] != "" && previous[i] !in verify {
        verify := verify + [previous[i]];
      }
    }
    assert previous[..|previous|] == previous;
  }
}
