/** The compressor and the decompressor together. */
module LzfRoundTrip {
  import opened Common
  import opened LzfFormat
  import opened LzfCompress
  import LzfDecompress

  /** Whatever the hash table holds at the start: what was compressed into `outLen`
      bytes is decompressed to the input, into a buffer of its size. */
  method RoundTrip(input: bytes, base: address, outLen: nat, htab: array<address>) returns (r: Option<bytes>)
    requires |input| >= 2 && MAX_OFF <= base && base + |input| < ADDRESSES && htab.Length == HSIZE
    modifies htab
    ensures r.Some? ==> r.value == input
    ensures outLen >= |input| + |input| / 32 + 4 ==> r.Some?
  {
    hide Encode, Meaning, AllValid, LzfDecompress.Decode;
    var out := new byte[outLen + 1];
    var n: nat;
    ghost var items;
    n, items := Compress(input, base, out, outLen, htab);
    if n == 0 {
      return None;
    }
    var src := new byte[n](i requires 0 <= i < n && n <= out.Length reads out => out[i]);
    var dst := new byte[|input|];
    assert src[..] == out[..n];
    LzfDecompress.DecodeEncoded(items, [], |input|);
    var m, errno := LzfDecompress.Decompress(src, dst);
    r := Some(dst[..m]);
  }
}
