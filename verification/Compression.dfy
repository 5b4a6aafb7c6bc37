/**
 Compression of packed transactions: zero bytes at the end of the payload part are cut off.
 */
module Compression {

  import opened Common

  const TRANSACTION_BYTE_LEN := 1604
  const NON_PAYLOAD_SIZE := 292
  const MAX_PAYLOAD_SIZE := 1312

  function ZeroBytes(n: nat): (z: seq<byte>)
    ensures |z| == n && forall i :: 0 <= i < n ==> z[i] == 0
  {
    seq(n, _ => 0)
  }

  /** The length of the payload part without the zero bytes at its end. */
  function KeptSize(bytes: seq<byte>, n: nat): (k: nat)
    requires n <= |bytes|
    ensures k <= n && (forall i :: k <= i < n ==> bytes[i] == 0) && (k > 0 ==> bytes[k - 1] != 0)
  {
    if n == 0 || bytes[n - 1] != 0 then n else KeptSize(bytes, n - 1)
  }

  function Compressed(bytes: seq<byte>): seq<byte>
    requires |bytes| == TRANSACTION_BYTE_LEN
  {
    bytes[..KeptSize(bytes, MAX_PAYLOAD_SIZE)] + bytes[MAX_PAYLOAD_SIZE..]
  }

  function Uncompressed(bytes: seq<byte>): (r: seq<byte>)
    requires NON_PAYLOAD_SIZE <= |bytes| <= TRANSACTION_BYTE_LEN
    ensures |r| == TRANSACTION_BYTE_LEN
  {
    var n := |bytes| - NON_PAYLOAD_SIZE;
    bytes[..n] + ZeroBytes(MAX_PAYLOAD_SIZE - n) + bytes[n..]
  }

  method CompressTransactionBytes(bytes: seq<byte>) returns (r: seq<byte>)
    requires |bytes| == TRANSACTION_BYTE_LEN
    ensures r == Compressed(bytes)
  {
    var trimmed := 0;
    var i := MAX_PAYLOAD_SIZE;
    while i > 0 && bytes[i - 1] == 0
      invariant 0 <= i <= MAX_PAYLOAD_SIZE && trimmed == MAX_PAYLOAD_SIZE - i
      invariant KeptSize(bytes, MAX_PAYLOAD_SIZE) == KeptSize(bytes, i)
    {
      trimmed := trimmed + 1;
      i := i - 1;
    }
    var kept := MAX_PAYLOAD_SIZE - trimmed;
    r := bytes[..kept] + bytes[MAX_PAYLOAD_SIZE..];
  }

  method UncompressTransactionBytes(bytes: seq<byte>) returns (r: seq<byte>)
    requires NON_PAYLOAD_SIZE <= |bytes| <= TRANSACTION_BYTE_LEN
    ensures r == Uncompressed(bytes)
  {
    r := ZeroBytes(TRANSACTION_BYTE_LEN);
    var payloadSize := |bytes| - NON_PAYLOAD_SIZE;
    r := bytes[..payloadSize] + r[payloadSize..];
    r := r[..MAX_PAYLOAD_SIZE] + bytes[payloadSize..];
  }

  /** Uncompressing undoes compressing on every transaction, and what is sent has a size the broadcast
      message allows. */
  lemma CompressionRoundTrip(bytes: seq<byte>)
    requires |bytes| == TRANSACTION_BYTE_LEN
    ensures NON_PAYLOAD_SIZE <= |Compressed(bytes)| <= TRANSACTION_BYTE_LEN
    ensures Uncompressed(Compressed(bytes)) == bytes
  {
    var k, c := KeptSize(bytes, MAX_PAYLOAD_SIZE), Compressed(bytes);
    assert c[..k] == bytes[..k] && c[k..] == bytes[MAX_PAYLOAD_SIZE..];
    assert bytes[k..MAX_PAYLOAD_SIZE] == ZeroBytes(MAX_PAYLOAD_SIZE - k);
  }

  /** The other way round holds exactly when the payload part does not end in a zero byte. */
  lemma UncompressionRoundTripIff(bytes: seq<byte>)
    requires NON_PAYLOAD_SIZE <= |bytes| <= TRANSACTION_BYTE_LEN
    ensures var n := |bytes| - NON_PAYLOAD_SIZE;
      Compressed(Uncompressed(bytes)) == bytes <==> n == 0 || bytes[n - 1] != 0
  {
    var n, u := |bytes| - NON_PAYLOAD_SIZE, Uncompressed(bytes);
    KeptSizeOfPadded(bytes[..n], u, MAX_PAYLOAD_SIZE);
    var k := KeptSize(u, MAX_PAYLOAD_SIZE);
    assert u[MAX_PAYLOAD_SIZE..] == bytes[n..];
    if n == 0 || bytes[n - 1] != 0 {
      assert k == n;
      assert u[..n] == bytes[..n];
    } else {
      assert k < n;
      assert |Compressed(u)| < |bytes|;
    }
  }

  lemma KeptSizeOfPadded(head: seq<byte>, u: seq<byte>, m: nat)
    requires |head| <= m <= |u| && u[..|head|] == head && forall i :: |head| <= i < m ==> u[i] == 0
    ensures KeptSize(u, m) <= |head|
    ensures KeptSize(u, m) == |head| <==> head == [] || head[|head| - 1] != 0
  {
    var n := |head|;
    assert n > 0 ==> u[..n][n - 1] == u[n - 1];
  }
}
