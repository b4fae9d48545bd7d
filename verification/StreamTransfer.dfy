/** The Lab 1 download over a byte stream: the server writes the file in blocks, the client reads exactly
    `fileSize` bytes however the stream is fragmented.  Begins after the header line. */
module StreamTransfer {
  import opened GoInts

  /** One direction of a TCP connection. */
  class Stream {
    ghost var written: seq<byte>  // everything ever written to it
    ghost var consumed: nat       // how many bytes have been read
    var pending: seq<byte>        // written and not yet read
    var closed: bool

    ghost predicate Valid()
      reads this
    {
      consumed <= |written| && pending == written[consumed..]
    }

    constructor ()
      ensures Valid() && written == [] && consumed == 0 && !closed
    {
      written, consumed, pending, closed := [], 0, [], false;
    }

    method Write(data: seq<byte>) returns (n: nat)
      requires Valid()
      modifies this
      ensures Valid() && n == |data|
      ensures written == old(written) + data && consumed == old(consumed) && closed == old(closed)
    {
      pending := pending + data;
      written := written + data;
      n := |data|;
    }

    /** A read returns some non-empty part of what is there, of a size nobody controls: every fragmentation of
        the stream is some sequence of these choices.  `ok` is false if nothing is there: at the end of a closed
        stream the source gets an error, on an open one it waits. */
    method Read(max: nat) returns (data: seq<byte>, ok: bool)
      requires Valid() && max > 0
      modifies this
      ensures Valid() && written == old(written) && closed == old(closed)
      ensures ok <==> old(pending) != []
      ensures ok ==> 0 < |data| <= max && data + pending == old(pending) && consumed == old(consumed) + |data|
      ensures !ok ==> pending == [] && consumed == old(consumed)
    {
      if pending == [] {
        return [], false;
      }
      var n: nat :| 0 < n <= max && n <= |pending|;
      data, pending := pending[..n], pending[n..];
      consumed := consumed + n;
      ok := true;
    }
  }

  /** The block loop of `sendFile`. */
  method SendFile(conn: Stream, fileData: seq<byte>, bufferSize: int) returns (totalBytes: int)
    requires conn.Valid() && bufferSize > 0
    modifies conn
    ensures conn.Valid() && conn.written == old(conn.written) + fileData
    ensures conn.consumed == old(conn.consumed) && conn.closed == old(conn.closed)
    ensures totalBytes == |fileData|
  {
    totalBytes := 0;
    var i := 0;
    while i < |fileData|
      invariant 0 <= i && conn.Valid()
      invariant conn.consumed == old(conn.consumed) && conn.closed == old(conn.closed)
      invariant totalBytes == if i < |fileData| then i else |fileData|
      invariant conn.written == old(conn.written) + fileData[..totalBytes]
    {
      var end := i + bufferSize;
      if end > |fileData| {
        end := |fileData|;
      }
      var n := conn.Write(fileData[i..end]);
      assert fileData[..end] == fileData[..i] + fileData[i..end];
      totalBytes := totalBytes + n;
      i := i + bufferSize;
    }
    assert fileData[..totalBytes] == fileData;
  }

  datatype Outcome =
    | Complete
    | Failed   // the stream ended
    | Waiting  // nothing there yet, and the stream is open

  /** The read loop of `receiveFile`: the last buffer is cut to what remains, so nothing beyond is consumed.
      `pending` stands for all the peer sends while the loop is at work. */
  method ReceiveFile(conn: Stream, fileSize: int, bufferSize: int) returns (file: seq<byte>, outcome: Outcome)
    requires conn.Valid() && bufferSize > 0
    modifies conn
    ensures conn.Valid() && conn.written == old(conn.written) && conn.closed == old(conn.closed)
    ensures outcome.Complete? <==> |old(conn.pending)| >= fileSize
    ensures outcome.Failed? <==> |old(conn.pending)| < fileSize && conn.closed
    ensures file + conn.pending == old(conn.pending)
    ensures outcome.Complete? ==> |file| == if fileSize < 0 then 0 else fileSize
    ensures !outcome.Complete? ==> conn.pending == []
    ensures conn.consumed == old(conn.consumed) + |file|
  {
    var size := bufferSize;
    file := [];
    while |file| < fileSize
      invariant conn.Valid() && conn.written == old(conn.written) && conn.closed == old(conn.closed)
      invariant file + conn.pending == old(conn.pending)
      invariant conn.consumed == old(conn.consumed) + |file|
      invariant 0 < size <= bufferSize
      invariant |file| <= if fileSize < 0 then 0 else fileSize
      decreases fileSize - |file|
    {
      var remaining := fileSize - |file|;
      if remaining < size {
        size := remaining;
      }
      ghost var left := conn.pending;
      var data, more := conn.Read(size);
      if !more {
        return file, if conn.closed then Failed else Waiting;
      }
      assert file + left == file + data + conn.pending;
      file := file + data;
    }
    outcome := Complete;
  }

  /** Main result: for every file, every pair of buffer sizes, everything sent before (and already read) and
      every trailing reply, the client's file is the server's file and the reply is left unread, whole. */
  method Download(conn: Stream, fileData: seq<byte>, reply: seq<byte>, serverBuffer: int, clientBuffer: int)
      returns (file: seq<byte>, outcome: Outcome)
    requires conn.Valid() && conn.pending == [] && serverBuffer > 0 && clientBuffer > 0
    modifies conn
    ensures outcome.Complete? && file == fileData
    ensures conn.Valid() && conn.pending == reply
  {
    var total := SendFile(conn, fileData, serverBuffer);
    var n := conn.Write(reply);
    assert conn.pending == fileData + reply;
    file, outcome := ReceiveFile(conn, |fileData|, clientBuffer);
    assert file == (file + conn.pending)[..|fileData|];
    assert conn.pending == (file + conn.pending)[|fileData|..];
  }
}
