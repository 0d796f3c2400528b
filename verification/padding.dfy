/** PKCS#5 padding, as RFC 8018 section 6.1.1 defines it and as RFC 5652
    section 6.3 generalises it; for AES the block is 16 octets. */
module Padding {
  import opened Bytes
  import opened Wrappers

  const BlockSize: nat := 16

  /** Appends `p` octets of value `p`, where `p = 16 - |m| mod 16` is between
      1 and 16; so padding is never empty. */
  function Pad(m: seq<byte>): (r: seq<byte>)
    ensures |r| % BlockSize == 0
    ensures |m| < |r| <= |m| + BlockSize
    ensures r[..|m|] == m
    ensures forall i :: |m| <= i < |r| ==> r[i] == |r| - |m|
  {
    var p := BlockSize - |m| % BlockSize;
    m + Repeat(p, p)
  }

  /** The JDK provider's `PKCS5Padding.unpad`: the last octet `p` must lie in
      1..16, and the last `p` octets must all equal `p`, or the padding is bad
      (`None`). An empty input unpads to the empty output. */
  function Unpad(c: seq<byte>): Option<seq<byte>>
  {
    if |c| == 0 then Some([])
    else
      var p := c[|c| - 1];
      if p < 1 || p > BlockSize || p > |c| then None
      else if forall i :: |c| - p <= i < |c| ==> c[i] == p then Some(c[..|c| - p])
      else None
  }

  /** Padded length: one more block than the whole blocks of the input. */
  lemma PadLength(m: seq<byte>)
    ensures |Pad(m)| == BlockSize * (|m| / BlockSize + 1)
  {
  }

  /** Removing the padding restores the message. */
  lemma UnpadPad(m: seq<byte>)
    ensures Unpad(Pad(m)) == Some(m)
  {
    var r := Pad(m);
    assert r[|r| - 1] == |r| - |m|;
  }

  /** On block-aligned, non-empty input, unpadding is exactly the inverse of
      padding: `Unpad(c)` yields `m` if and only if `c` is the padding of `m`. */
  lemma PadInverse(c: seq<byte>, m: seq<byte>)
    requires |c| > 0 && |c| % BlockSize == 0
    ensures Unpad(c) == Some(m) <==> Pad(m) == c
  {
    if Unpad(c) == Some(m) {
      var p := c[|c| - 1];
      assert m == c[..|c| - p];
      assert |m| + p == |c|;
      assert BlockSize - |m| % BlockSize == p;
      var r := Pad(m);
      assert |r| == |c|;
      assert r == c by {
        forall i | 0 <= i < |c|
          ensures r[i] == c[i]
        {
          if i < |m| {
            assert r[..|m|][i] == r[i];
          }
        }
      }
    }
    if Pad(m) == c {
      UnpadPad(m);
    }
  }
}
