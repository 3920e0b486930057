/** Writing into a range of bytes: what `memcpy` does. */
module Memory {
  function Put(bytes: seq<bv8>, at: nat, data: seq<bv8>): (bytes': seq<bv8>)
    requires at + |data| <= |bytes|
    ensures |bytes'| == |bytes|
    ensures forall k :: 0 <= k < |bytes| ==> bytes'[k] == if at <= k < at + |data| then data[k - at] else bytes[k]
  {
    bytes[..at] + data + bytes[at + |data|..]
  }
}
