/** SHA-256 checksums of files, as `generate_checksum` computes them.

    SHA-256 itself belongs to `hashlib`; the whole hash function enters the
    model as a parameter `hash` of type `HashFunction`. What is modelled is how
    the file reaches it (fixed-size reads fed to an incremental hasher) and how
    the digest is printed (`hexdigest()`). */
module Digest {
  import opened Bytes

  /** A SHA-256 digest: 32 bytes. */
  type Sha256Digest = d: seq<byte> | |d| == 32 witness seq(32, i => 0)

  type HashFunction = seq<byte> -> Sha256Digest

  /** The lowercase hexadecimal digit for a value below 16. */
  function HexChar(v: nat): (c: char)
    requires v < 16
    ensures c != ':'
  {
    if v < 10 then ('0' as int + v) as char else ('a' as int + (v - 10)) as char
  }

  /** `hexdigest()`: two lowercase hex digits per byte, high nibble first. */
  function ToHex(d: seq<byte>): (r: string)
    ensures |r| == 2 * |d|
    ensures ':' !in r
    decreases |d|
  {
    if d == [] then []
    else [HexChar(d[0] as int / 16), HexChar(d[0] as int % 16)] + ToHex(d[1..])
  }

  lemma HexCharInjective(u: nat, v: nat)
    requires u < 16 && v < 16 && HexChar(u) == HexChar(v)
    ensures u == v
  {
  }

  /** Distinct digests print differently, so comparing hex strings is
      comparing digests. */
  lemma {:induction false} ToHexInjective(a: seq<byte>, b: seq<byte>)
    requires ToHex(a) == ToHex(b)
    ensures a == b
    decreases |a|
  {
    if a != [] {
      var ha, hb := ToHex(a), ToHex(b);
      assert |b| == |a|;
      assert ha[0] == HexChar(a[0] as int / 16) && hb[0] == HexChar(b[0] as int / 16);
      assert ha[1] == HexChar(a[0] as int % 16) && hb[1] == HexChar(b[0] as int % 16);
      HexCharInjective(a[0] as int / 16, b[0] as int / 16);
      HexCharInjective(a[0] as int % 16, b[0] as int % 16);
      assert a[0] == b[0];
      assert ha[2..] == ToHex(a[1..]) && hb[2..] == ToHex(b[1..]);
      ToHexInjective(a[1..], b[1..]);
      assert a == [a[0]] + a[1..] && b == [b[0]] + b[1..];
    }
  }

  /** The `hashlib.sha256()` object. Its state is summarised by the bytes
      passed to `update` so far; `hexdigest()` prints the hash of them. */
  class Sha256 {
    const hash: HashFunction
    var absorbed: seq<byte>

    constructor (hash: HashFunction)
      ensures this.hash == hash && absorbed == []
    {
      this.hash := hash;
      absorbed := [];
    }

    method Update(chunk: seq<byte>)
      modifies this
      ensures absorbed == old(absorbed) + chunk
    {
      absorbed := absorbed + chunk;
    }

    function HexDigest(): (r: string)
      reads this
      ensures |r| == 64 && ':' !in r
    {
      ToHex(hash(absorbed))
    }
  }

  /** Feeds a file to the hasher in reads of `readSize` bytes. Every byte is
      passed exactly once and in order, so the result is the hash of the whole
      content, whatever the read size. */
  method ChecksumByReads(content: seq<byte>, readSize: nat, hash: HashFunction) returns (checksum: string)
    requires readSize > 0
    ensures checksum == ToHex(hash(content))
  {
    var sha := new Sha256(hash);
    var pos := 0;
    var chunk := ReadAt(content, pos, readSize);
    while chunk != []
      invariant pos <= |content|
      invariant chunk == ReadAt(content, pos, readSize)
      invariant sha.hash == hash && sha.absorbed == content[..pos]
      decreases |content| - pos
    {
      sha.Update(chunk);
      assert content[..pos] + chunk == content[..pos + |chunk|];
      pos := pos + |chunk|;
      chunk := ReadAt(content, pos, readSize);
    }
    assert content[..pos] == content;
    checksum := sha.HexDigest();
  }

  /** `generate_checksum(path)` for a file holding `content`: reads of
      `BlockSize` bytes fed to SHA-256, printed in hex. */
  method GenerateChecksum(content: seq<byte>, hash: HashFunction) returns (checksum: string)
    ensures checksum == ToHex(hash(content))
    ensures |checksum| == 64 && ':' !in checksum
  {
    checksum := ChecksumByReads(content, BlockSize, hash);
  }
}
