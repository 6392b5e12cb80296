/** The padding of mppj-go/encryption.go, the scheme of section 6.3 of RFC 5652. */
module Padding {
  import opened Octets
  import opened Options

  // At least one byte is always added. The padding byte is truncated to eight bits.
  function Pad(data: Bytes, blockSize: nat): (r: Bytes)
    requires blockSize > 0
    ensures |r| == (|data| / blockSize + 1) * blockSize
  {
    var padding := blockSize - |data| % blockSize;
    data + Repeat(padding % 256, padding)
  }

  function Unpadded(data: Bytes): Option<Bytes> {
    if |data| == 0 then None else
      var padding := data[|data| - 1];
      if padding > |data| || padding == 0 then None
      else if exists i :: |data| - padding <= i < |data| && data[i] != padding then None
      else Some(data[..|data| - padding])
  }

  method Unpad(data: Bytes) returns (r: Option<Bytes>)
    ensures r == Unpadded(data)
  {
    if |data| == 0 {
      return None;
    }
    var padding := data[|data| - 1];
    if padding > |data| || padding == 0 {
      return None;
    }
    for i := |data| - padding to |data|
      invariant forall j :: |data| - padding <= j < i ==> data[j] == padding
    {
      if data[i] != padding {
        return None;
      }
    }
    return Some(data[..|data| - padding]);
  }

  // Unpad accepts exactly the strings d followed by n copies of the byte n, and returns d.
  lemma UnpadAccepts(data: Bytes, d: Bytes)
    ensures Unpadded(data) == Some(d) <==> exists n: byte :: n > 0 && data == d + Repeat(n, n)
  {
    if Unpadded(data) == Some(d) {
      var n := data[|data| - 1];
      assert data == d + Repeat(n, n);
    }
    if n: byte :| n > 0 && data == d + Repeat(n, n) {
      assert data[|data| - 1] == n;
      assert d == data[..|data| - n];
    }
  }

  // Unpad undoes Pad exactly when the padding length fits in a byte.
  lemma UnpadUndoesPad(data: Bytes, blockSize: nat)
    requires blockSize > 0
    ensures Unpadded(Pad(data, blockSize)) == Some(data) <==> blockSize - |data| % blockSize < 256
  {
    var padding := blockSize - |data| % blockSize;
    var padded := data + Repeat(padding % 256, padding);
    assert Pad(data, blockSize) == padded;
    UnpadAccepts(padded, data);
    if padding < 256 {
      assert padded == data + Repeat(padding, padding);
    } else {
      assert forall n: byte :: |data + Repeat(n, n)| < |padded|;
    }
  }
}
