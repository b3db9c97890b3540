/** The streaming phase, from both ends: the sender's seek-and-read loop and
    the receiver's append loop, each with the function that specifies it. */
module Transfer {
  import opened Bytes
  import opened Io

  /** The sender: seek to `offset`, then read blocks of `BlockSize` bytes and
      send each one until a read comes back empty. It emits exactly the bytes
      of the file from `offset` on, in blocks of at most `BlockSize` bytes,
      and nothing else. */
  method SendFrom(content: seq<byte>, offset: nat, conn: Connection)
    modifies conn
    ensures conn.dataOut == old(conn.dataOut) + Blocks(Suffix(content, offset), BlockSize)
    ensures conn.controlIn == old(conn.controlIn) && conn.dataIn == old(conn.dataIn)
    ensures conn.controlOut == old(conn.controlOut)
  {
    var pos := offset;
    var chunk := ReadAt(content, pos, BlockSize);
    while chunk != []
      invariant offset <= pos
      invariant chunk == ReadAt(content, pos, BlockSize)
      invariant conn.dataOut + Blocks(Suffix(content, pos), BlockSize)
             == old(conn.dataOut) + Blocks(Suffix(content, offset), BlockSize)
      invariant conn.controlIn == old(conn.controlIn) && conn.dataIn == old(conn.dataIn)
      invariant conn.controlOut == old(conn.controlOut)
      decreases |content| - pos
    {
      BlocksStep(conn.dataOut, content, pos, BlockSize);
      conn.SendData(chunk);
      pos := pos + |chunk|;
      chunk := ReadAt(content, pos, BlockSize);
    }
    assert Suffix(content, pos) == [];
  }

  /** What the receive loop appends, and how many chunks it takes. */
  datatype Drained = Drained(appended: seq<byte>, consumed: nat)

  /** The receive loop over a stream delivered as `chunks`: while the count
      is below `fileSize`, take the next chunk, stop at end-of-stream, append
      the chunk and add its length to the count. It appends whole chunks, in
      order, and stops for
      one of two reasons: the count has reached `fileSize`, or the stream
      has ended. If the count is already there, it reads nothing. */
  function Drain(received: int, fileSize: int, chunks: seq<seq<byte>>): (r: Drained)
    ensures r.consumed <= |chunks|
    ensures r.appended == Flatten(chunks[..r.consumed])
    ensures r.consumed == |chunks| || received + |r.appended| >= fileSize
    ensures received >= fileSize ==> r == Drained([], 0)
    decreases |chunks|
  {
    if received >= fileSize || chunks == [] then Drained([], 0)
    else
      var rest := Drain(received + |chunks[0]|, fileSize, chunks[1..]);
      assert chunks[..rest.consumed + 1] == [chunks[0]] + chunks[1..][..rest.consumed];
      Drained(chunks[0] + rest.appended, rest.consumed + 1)
  }

  /** One turn of the receive loop, for a file that already holds `written`. */
  lemma DrainStep(written: seq<byte>, received: int, fileSize: int, chunks: seq<seq<byte>>)
    requires received < fileSize && chunks != []
    ensures var rest := Drain(received + |chunks[0]|, fileSize, chunks[1..]);
      && written + Drain(received, fileSize, chunks).appended == (written + chunks[0]) + rest.appended
      && Drain(received, fileSize, chunks).consumed == rest.consumed + 1
  {
    var rest := Drain(received + |chunks[0]|, fileSize, chunks[1..]);
    assert written + (chunks[0] + rest.appended) == (written + chunks[0]) + rest.appended;
  }

  /** No chunk is read once the count has reached `fileSize`: before each
      chunk the loop takes, the count is still short of it. */
  lemma {:induction false} DrainReadsOnlyWhileShort(received: int, fileSize: int, chunks: seq<seq<byte>>, j: nat)
    requires j < Drain(received, fileSize, chunks).consumed
    ensures received + |Flatten(chunks[..j])| < fileSize
    decreases |chunks|
  {
    if j > 0 {
      DrainReadsOnlyWhileShort(received + |chunks[0]|, fileSize, chunks[1..], j - 1);
      assert chunks[..j] == [chunks[0]] + chunks[1..][..j - 1];
    }
  }

  /** A stream that does not carry the count past `fileSize` is taken whole. */
  lemma {:induction false} DrainTakesShortStream(received: int, fileSize: int, chunks: seq<seq<byte>>)
    requires NonEmpty(chunks)
    requires received + |Flatten(chunks)| <= fileSize
    ensures Drain(received, fileSize, chunks) == Drained(Flatten(chunks), |chunks|)
    decreases |chunks|
  {
    if chunks != [] {
      assert |chunks[0]| > 0;
      DrainTakesShortStream(received + |chunks[0]|, fileSize, chunks[1..]);
      assert chunks[..|chunks|] == chunks;
    }
  }

  /** A chunk that crosses `fileSize` is still written whole, and the loop
      then stops: the file ends longer than the declared size. */
  lemma WholeChunkCanPassDeclaredSize(received: int, fileSize: int, chunks: seq<seq<byte>>)
    requires chunks != [] && received < fileSize < received + |chunks[0]|
    ensures Drain(received, fileSize, chunks) == Drained(chunks[0], 1)
    ensures received + |Drain(received, fileSize, chunks).appended| > fileSize
  {
    assert chunks[..1] == [chunks[0]];
  }

  /** The loop of `receive_firmware_from_server` on the open file. The count
      `received` equals the file's length at every turn, each chunk is
      written whole, and the file ends as its opening content followed by
      what `Drain` appends; the chunks taken are gone from the connection. */
  method ReceiveInto(file: FirmwareFile, conn: Connection, received: nat, fileSize: int) returns (total: nat)
    requires file.present && |file.content| == received
    requires conn.Valid()
    modifies file, conn
    ensures var d := Drain(received, fileSize, old(conn.dataIn));
      && file.present && file.content == old(file.content) + d.appended
      && conn.dataIn == old(conn.dataIn)[d.consumed..]
    ensures total == |file.content|
    ensures conn.Valid()
    ensures conn.controlIn == old(conn.controlIn) && conn.controlOut == old(conn.controlOut)
    ensures conn.dataOut == old(conn.dataOut)
  {
    total := received;
    ghost var taken: nat := 0;
    ghost var whole := Drain(received, fileSize, conn.dataIn);
    while total < fileSize
      invariant file.present && total == |file.content|
      invariant taken <= |old(conn.dataIn)| && conn.dataIn == old(conn.dataIn)[taken..]
      invariant conn.Valid()
      invariant var rest := Drain(total, fileSize, conn.dataIn);
        && old(file.content) + whole.appended == file.content + rest.appended
        && whole.consumed == taken + rest.consumed
      invariant conn.controlIn == old(conn.controlIn) && conn.controlOut == old(conn.controlOut)
      invariant conn.dataOut == old(conn.dataOut)
      decreases |conn.dataIn|
    {
      ghost var before := conn.dataIn;
      var chunk := conn.RecvData();
      if chunk == [] {
        assert Drain(total, fileSize, before) == Drained([], 0);
        break;
      }
      DrainStep(file.content, total, fileSize, before);
      assert conn.dataIn == old(conn.dataIn)[taken + 1..];
      file.Write(chunk);
      total := total + |chunk|;
      taken := taken + 1;
    }
  }
}
