/** Byte strings, and the reads a file object hands out. */
module Bytes {

  newtype byte = x: int | 0 <= x < 256

  /** The size of every `f.read(...)` in the transfer code. */
  const BlockSize: nat := 4096

  /** The bytes of a sequence of chunks, joined in order. */
  function Flatten(chunks: seq<seq<byte>>): seq<byte>
    decreases |chunks|
  {
    if chunks == [] then [] else chunks[0] + Flatten(chunks[1..])
  }

  /** Every chunk holds at least one byte (a socket never delivers an empty chunk before end-of-stream). */
  predicate NonEmpty(chunks: seq<seq<byte>>)
  {
    forall i :: 0 <= i < |chunks| ==> |chunks[i]| > 0
  }

  lemma {:induction false} FlattenAppend(a: seq<seq<byte>>, b: seq<seq<byte>>)
    ensures Flatten(a + b) == Flatten(a) + Flatten(b)
    decreases |a|
  {
    if a == [] {
      assert a + b == b;
    } else {
      assert (a + b)[0] == a[0];
      assert (a + b)[1..] == a[1..] + b;
      FlattenAppend(a[1..], b);
    }
  }

  lemma NonEmptyAppend(a: seq<seq<byte>>, b: seq<seq<byte>>)
    requires NonEmpty(a) && NonEmpty(b)
    ensures NonEmpty(a + b)
  {
    forall i | 0 <= i < |a + b|
      ensures |(a + b)[i]| > 0
    {
      if i < |a| {
        assert (a + b)[i] == a[i];
      } else {
        assert (a + b)[i] == b[i - |a|];
      }
    }
  }

  /** What a file object positioned at `content[pos]` returns for `read(n)`:
      up to `n` bytes, and nothing once the position is at or past the end. */
  function ReadAt(content: seq<byte>, pos: nat, n: nat): (r: seq<byte>)
    ensures |r| <= n
    ensures r == [] <==> pos >= |content| || n == 0
    ensures r != [] ==> pos + |r| <= |content| && r == content[pos..pos + |r|]
  {
    if pos >= |content| then []
    else if pos + n <= |content| then content[pos..pos + n]
    else content[pos..]
  }

  /** What is left of `content` from `offset` on: the bytes reads return
      after `f.seek(offset)`, or the messages a connection still holds after
      `offset` receives. Past the end nothing is left. */
  function Suffix<T>(content: seq<T>, offset: nat): (r: seq<T>)
    ensures offset <= |content| ==> content[..offset] + r == content
    ensures offset >= |content| ==> r == []
  {
    if offset <= |content| then content[offset..] else []
  }

  /** The blocks obtained by reading `n` bytes at a time until a read comes
      back empty, from a file whose remaining bytes are `data`: full blocks
      of `n` bytes, then one shorter tail block, together exactly `data`. */
  function Blocks(data: seq<byte>, n: nat): (r: seq<seq<byte>>)
    requires n > 0
    ensures Flatten(r) == data
    ensures forall i :: 0 <= i < |r| ==> 0 < |r[i]| <= n
    ensures forall i :: 0 <= i < |r| - 1 ==> |r[i]| == n
    ensures r == [] <==> data == []
    decreases |data|
  {
    if |data| == 0 then []
    else if |data| <= n then [data]
    else
      var rest := Blocks(data[n..], n);
      assert data[..n] + data[n..] == data;
      [data[..n]] + rest
  }

  /** One turn of a read loop that records its blocks after `sent`: the
      block read at `pos` is the first of the blocks left from `pos`. */
  lemma BlocksStep(sent: seq<seq<byte>>, content: seq<byte>, pos: nat, n: nat)
    requires n > 0 && pos < |content|
    ensures var chunk := ReadAt(content, pos, n);
      (sent + [chunk]) + Blocks(Suffix(content, pos + |chunk|), n) == sent + Blocks(Suffix(content, pos), n)
  {
    var s := content[pos..];
    if |s| > n {
      assert s[..n] == content[pos..pos + n];
      assert s[n..] == content[pos + n..];
    } else {
      assert ReadAt(content, pos, n) == s;
      assert Suffix(content, pos + |s|) == [];
    }
    var chunk := ReadAt(content, pos, n);
    var left := Blocks(Suffix(content, pos + |chunk|), n);
    assert (sent + [chunk]) + left == sent + ([chunk] + left);
  }
}
