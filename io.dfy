/** The two resources a session works on: the connection to the other side
    and the local firmware file. */
module Io {
  import opened Bytes

  /** The `i`-th value a `recv(1024).decode()` yields from a queue of whole
      control messages; once the peer has closed, `recv` gives the empty string. */
  function Nth(queue: seq<string>, i: nat): (msg: string)
    ensures i < |queue| ==> msg == queue[i]
    ensures i >= |queue| ==> msg == ""
  {
    if i < |queue| then queue[i] else ""
  }

  /** An established TCP connection, seen from one end. What the other end
      will send is fixed in advance: the control messages, each arriving whole,
      and then the binary stream as the sequence of non-empty chunks successive
      receives return, followed by end-of-stream. What this end sends is
      recorded in the same two forms. */
  class Connection {
    var controlIn: seq<string>
    var dataIn: seq<seq<byte>>
    var controlOut: seq<string>
    var dataOut: seq<seq<byte>>

    ghost predicate Valid()
      reads this
    {
      NonEmpty(dataIn)
    }

    constructor (controlIn: seq<string>, dataIn: seq<seq<byte>>)
      requires NonEmpty(dataIn)
      ensures Valid()
      ensures this.controlIn == controlIn && this.dataIn == dataIn
      ensures controlOut == [] && dataOut == []
    {
      this.controlIn := controlIn;
      this.dataIn := dataIn;
      controlOut := [];
      dataOut := [];
    }

    /** `recv(1024).decode()` of one control message. */
    method RecvControl() returns (msg: string)
      modifies this
      ensures msg == Nth(old(controlIn), 0) && controlIn == Suffix(old(controlIn), 1)
      ensures dataIn == old(dataIn) && controlOut == old(controlOut) && dataOut == old(dataOut)
    {
      if controlIn == [] {
        msg := "";
      } else {
        msg := controlIn[0];
        controlIn := controlIn[1..];
      }
    }

    /** `recv(4096)` in the streaming phase: the next chunk, or the empty
      chunk once the peer has closed. */
    method RecvData() returns (chunk: seq<byte>)
      requires Valid()
      modifies this
      ensures Valid()
      ensures old(dataIn) == [] ==> chunk == [] && dataIn == []
      ensures old(dataIn) != [] ==> chunk == old(dataIn)[0] && dataIn == old(dataIn)[1..]
      ensures controlIn == old(controlIn) && controlOut == old(controlOut) && dataOut == old(dataOut)
    {
      if dataIn == [] {
        chunk := [];
      } else {
        chunk := dataIn[0];
        dataIn := dataIn[1..];
      }
    }

    /** `sendall(msg.encode())`. */
    method SendControl(msg: string)
      modifies this
      ensures controlOut == old(controlOut) + [msg]
      ensures controlIn == old(controlIn) && dataIn == old(dataIn) && dataOut == old(dataOut)
    {
      controlOut := controlOut + [msg];
    }

    /** `sendall(chunk)` of file bytes. */
    method SendData(block: seq<byte>)
      modifies this
      ensures dataOut == old(dataOut) + [block]
      ensures controlIn == old(controlIn) && dataIn == old(dataIn) && controlOut == old(controlOut)
    {
      dataOut := dataOut + [block];
    }
  }

  /** The two ways the receiver opens its file. */
  datatype OpenMode = Append | Truncate

  /** The firmware file at its fixed path: whether it exists and what it holds.
      A missing file holds nothing. */
  class FirmwareFile {
    var present: bool
    var content: seq<byte>

    ghost predicate Valid()
      reads this
    {
      present || content == []
    }

    constructor (present: bool, content: seq<byte>)
      requires present || content == []
      ensures Valid() && this.present == present && this.content == content
    {
      this.present := present;
      this.content := content;
    }

    /** `open(path, 'ab')` keeps what the file holds, `open(path, 'wb')`
        empties it; either creates a missing file. */
    method Open(mode: OpenMode)
      modifies this
      ensures Valid() && present
      ensures content == (if mode == Append then old(content) else [])
    {
      present := true;
      if mode == Truncate {
        content := [];
      }
    }

    /** `f.write(chunk)` on a file opened for writing: the chunk is written
        whole, at the end. */
    method Write(chunk: seq<byte>)
      requires present
      modifies this
      ensures Valid() && present
      ensures content == old(content) + chunk
    {
      content := content + chunk;
    }
  }
}
