/** The chunk writer, which cuts a stream into chunks, and the chunk reader, which puts them together again. */
module SnapshotChunks {
  import opened Basics
  import opened Sequences

  // ----- cutting a stream -----

  /** The chunks of a stream: all of the given size but the last, which is not empty; size 0 does not cut. */
  function Cut(stream: Bytes, size: nat): seq<Bytes> {
    if stream == [] then []
    else if size == 0 || |stream| <= size then [stream]
    else [stream[..size]] + Cut(stream[size..], size)
  }

  function Concat(chunks: seq<Bytes>): Bytes {
    if chunks == [] then [] else chunks[0] + Concat(chunks[1..])
  }

  /** Nothing is lost, added or reordered by cutting. */
  lemma {:induction false} ConcatCut(stream: Bytes, size: nat)
    ensures Concat(Cut(stream, size)) == stream
    decreases |stream|
  {
    if stream != [] && size != 0 && |stream| > size {
      ConcatCut(stream[size..], size);
      assert Cut(stream, size)[1..] == Cut(stream[size..], size);
    } else if stream != [] {
      assert Cut(stream, size)[1..] == [];
    }
  }

  /** All chunks have the given size, except the last, which has at least one byte. */
  lemma {:induction false} CutSizes(stream: Bytes, size: nat, i: nat)
    requires i < |Cut(stream, size)|
    ensures Cut(stream, size)[i] != []
    ensures size == 0 ==> |Cut(stream, size)| == 1
    ensures size > 0 ==> |Cut(stream, size)[i]| <= size
    ensures size > 0 && i + 1 < |Cut(stream, size)| ==> |Cut(stream, size)[i]| == size
    decreases |stream|
  {
    if size != 0 && |stream| > size && i > 0 {
      CutSizes(stream[size..], size, i - 1);
    }
  }

  /** There is no other way to cut it so. */
  lemma {:induction false} CutIsUnique(chunks: seq<Bytes>, size: nat)
    requires size > 0
    requires forall i :: 0 <= i < |chunks| ==> chunks[i] != [] && |chunks[i]| <= size
    requires forall i :: 0 <= i < |chunks| - 1 ==> |chunks[i]| == size
    ensures Cut(Concat(chunks), size) == chunks
  {
    if |chunks| == 1 {
      assert Concat(chunks[1..]) == [] && Concat(chunks) == chunks[0];
    } else if |chunks| > 1 {
      var rest := chunks[1..];
      CutIsUnique(rest, size);
      assert Concat(rest) == rest[0] + Concat(rest[1..]);
      assert Concat(chunks)[..size] == chunks[0] && Concat(chunks)[size..] == Concat(rest);
    }
  }

  // ----- growing a stream -----

  predicate Full(chunks: seq<Bytes>, size: nat) {
    chunks == [] || (size > 0 && |chunks[|chunks| - 1]| >= size)
  }

  function Extended(chunks: seq<Bytes>, piece: Bytes): seq<Bytes>
    requires chunks != []
  {
    chunks[..|chunks| - 1] + [chunks[|chunks| - 1] + piece]
  }

  /** A piece after a full last chunk starts a chunk. */
  lemma {:induction false} CutNew(stream: Bytes, piece: Bytes, size: nat)
    requires piece != [] && (size > 0 ==> |piece| <= size) && Full(Cut(stream, size), size)
    ensures Cut(stream + piece, size) == Cut(stream, size) + [piece]
    decreases |stream|
  {
    if stream == [] {
      assert stream + piece == piece;
    } else if |stream| > size {
      var rest := stream[size..];
      var chunks := Cut(stream, size);
      assert chunks[|chunks| - 1] == Cut(rest, size)[|Cut(rest, size)| - 1];
      CutNew(rest, piece, size);
      assert (stream + piece)[..size] == stream[..size] && (stream + piece)[size..] == rest + piece;
    } else {
      assert (stream + piece)[..size] == stream && (stream + piece)[size..] == piece;
    }
  }

  /** A piece that fits extends the last chunk. */
  lemma {:induction false} CutExtend(stream: Bytes, piece: Bytes, size: nat)
    requires Cut(stream, size) != []
    requires size > 0 ==> |Cut(stream, size)[|Cut(stream, size)| - 1]| + |piece| <= size
    ensures Cut(stream + piece, size) == Extended(Cut(stream, size), piece)
    decreases |stream|
  {
    if size > 0 && |stream| > size {
      var rest := stream[size..];
      var chunks := Cut(stream, size);
      assert chunks[|chunks| - 1] == Cut(rest, size)[|Cut(rest, size)| - 1];
      CutExtend(rest, piece, size);
      assert (stream + piece)[..size] == stream[..size] && (stream + piece)[size..] == rest + piece;
      assert Extended(chunks, piece) == [stream[..size]] + Extended(Cut(rest, size), piece);
    } else {
      assert Extended([stream], piece) == [stream + piece];
    }
  }

  // ----- the writer -----

  /** How a chunk's pipe stands: still written to, closed, or closed with an error. */
  datatype Ending = Open | Closed | Broken(error: string)

  datatype Chunk = Chunk(data: Bytes, ending: Ending)

  function Datas(chunks: seq<Chunk>): (r: seq<Bytes>)
    ensures |r| == |chunks| && forall i :: 0 <= i < |chunks| ==> r[i] == chunks[i].data
  {
    seq(|chunks|, i requires 0 <= i < |chunks| => chunks[i].data)
  }

  /** The chunks are those of the stream, and all but the last are closed. */
  ghost predicate Holds(channel: seq<Chunk>, stream: Bytes, size: nat) {
    && Datas(channel) == Cut(stream, size)
    && forall i :: 0 <= i < |channel| - 1 ==> channel[i].ending.Closed?
  }

  /** One empty chunk that carries an error. */
  predicate ErrorAlone(channel: seq<Chunk>) {
    |channel| == 1 && channel[0].data == [] && channel[0].ending.Broken?
  }

  class ChunkWriter {
    const chunkSize: nat
    var channel: seq<Chunk>
    var channelClosed: bool
    var pipe: bool
    var written: nat
    var closed: bool
    ghost var stream: Bytes

    /** What was sent is the stream cut up, or an error alone; only the last chunk is still open, and only before the
        writer is closed. */
    ghost predicate Valid()
      reads this
    {
      && closed == channelClosed && pipe == (channel != [])
      && (pipe ==> written == |channel[|channel| - 1].data|)
      && (Holds(channel, stream, chunkSize) || (closed && stream == [] && ErrorAlone(channel)))
      && (channel != [] ==> channel[|channel| - 1].ending.Open? == !closed)
    }

    constructor (chunkSize: nat)
      ensures Valid() && !closed && stream == [] && this.chunkSize == chunkSize
    {
      this.chunkSize := chunkSize;
      channel, channelClosed, pipe, written, closed, stream := [], false, false, 0, false, [];
    }

    /** Closes the pipe of the current chunk and sends an empty one. */
    method NewChunk()
      requires !closed && pipe == (channel != [])
      modifies `channel, `pipe, `written
      ensures pipe && written == 0
      ensures channel == Ended(old(channel), Closed) + [Chunk([], Open)]
    {
      if pipe {
        channel := Ended(channel, Closed);
      }
      channel := channel + [Chunk([], Open)];
      pipe, written := true, 0;
    }

    /** A new chunk is started when there is none or the last one is full. */
    method MakeRoom()
      requires Valid() && !closed
      modifies `channel, `pipe, `written
      ensures pipe && channel == Ready(old(channel), chunkSize) && channel != []
      ensures written == |channel[|channel| - 1].data| && (chunkSize > 0 ==> written < chunkSize)
    {
      if !pipe || (written >= chunkSize && chunkSize > 0) {
        NewChunk();
      }
    }

    /** One piece of the data, in the current chunk or in a new one. */
    method WritePiece(data: Bytes) returns (n: nat)
      requires Valid() && !closed && data != []
      modifies this
      ensures Valid() && !closed && 0 < n <= |data| && stream == old(stream) + data[..n]
    {
      ghost var before := channel;
      MakeRoom();
      n := if chunkSize == 0 then |data| else chunkSize - written;
      if n > |data| {
        n := |data|;
      }
      HoldsMore(before, stream, chunkSize, data[..n]);
      channel := Appended(channel, data[..n]);
      written := written + n;
      stream := stream + data[..n];
    }

    /** Write refuses after Close; otherwise all of the data goes into the stream. */
    method Write(data: Bytes) returns (nTotal: nat, ok: bool)
      requires Valid()
      modifies this
      ensures Valid() && closed == old(closed)
      ensures ok == !old(closed) && nTotal == if ok then |data| else 0
      ensures stream == if ok then old(stream) + data else old(stream)
      ensures !ok ==> channel == old(channel)
    {
      nTotal := 0;
      if closed {
        return 0, false;
      }
      while nTotal < |data|
        invariant Valid() && !closed && nTotal <= |data| && stream == old(stream) + data[..nTotal]
      {
        var n := WritePiece(data[nTotal..]);
        assert data[..nTotal] + data[nTotal..][..n] == data[..nTotal + n];
        nTotal := nTotal + n;
      }
      return nTotal, true;
    }

    method Close()
      requires Valid()
      modifies this
      ensures Valid() && closed && stream == old(stream)
      ensures channel == if old(closed) then old(channel) else Ended(old(channel), Closed)
      ensures !old(closed) ==> Holds(channel, stream, chunkSize)
    {
      if !closed {
        closed, channelClosed := true, true;
        if pipe {
          channel := Ended(channel, Closed);
        }
        assert Datas(channel) == Datas(old(channel));
      }
    }

    /** The reader gets the error after the data; a writer that has sent nothing sends an empty chunk to carry it. */
    method CloseWithError(error: string)
      requires Valid()
      modifies this
      ensures Valid() && closed && stream == old(stream)
      ensures channel == if old(closed) then old(channel)
                         else if old(channel) == [] then [Chunk([], Broken(error))]
                         else Ended(old(channel), Broken(error))
    {
      if !closed {
        if !pipe {
          NewChunk();
        }
        closed, channelClosed := true, true;
        channel := Ended(channel, Broken(error));
        assert Datas(channel) == if old(channel) == [] then [[]] else Datas(old(channel));
      }
    }
  }

  /** The last chunk's pipe is closed; a pipe that is closed already stays as it is. */
  function Ended(chunks: seq<Chunk>, ending: Ending): seq<Chunk> {
    if chunks == [] || !chunks[|chunks| - 1].ending.Open? then chunks
    else chunks[..|chunks| - 1] + [chunks[|chunks| - 1].(ending := ending)]
  }

  lemma DatasAppended(chunks: seq<Chunk>, piece: Bytes, startsChunk: bool)
    requires startsChunk || chunks != []
    ensures startsChunk ==>
            Datas(Appended(Ended(chunks, Closed) + [Chunk([], Open)], piece)) == Datas(chunks) + [piece]
    ensures !startsChunk ==> Datas(Appended(chunks, piece)) == Extended(Datas(chunks), piece)
  {
    if startsChunk {
      var longer := Ended(chunks, Closed) + [Chunk([], Open)];
      assert Appended(longer, piece) == Ended(chunks, Closed) + [Chunk([] + piece, Open)];
      assert [] + piece == piece;
    }
  }

  /** The chunks with room in the last one. */
  function Ready(channel: seq<Chunk>, size: nat): seq<Chunk> {
    if Full(Datas(channel), size) then Ended(channel, Closed) + [Chunk([], Open)] else channel
  }

  /** A piece that fits, in the last chunk or in a new one behind a full one, keeps the chunks those of the stream. */
  lemma HoldsMore(channel: seq<Chunk>, stream: Bytes, size: nat, piece: Bytes)
    requires Holds(channel, stream, size) && piece != []
    requires channel != [] ==> channel[|channel| - 1].ending.Open?
    requires var ready := Ready(channel, size);
             ready != [] && (size > 0 ==> |ready[|ready| - 1].data| + |piece| <= size)
    ensures Holds(Appended(Ready(channel, size), piece), stream + piece, size)
  {
    if Full(Datas(channel), size) {
      CutNew(stream, piece, size);
      DatasAppended(channel, piece, true);
    } else {
      CutExtend(stream, piece, size);
      DatasAppended(channel, piece, false);
    }
  }

  function Appended(chunks: seq<Chunk>, piece: Bytes): seq<Chunk>
    requires chunks != []
  {
    chunks[..|chunks| - 1] + [Chunk(chunks[|chunks| - 1].data + piece, chunks[|chunks| - 1].ending)]
  }

  // ----- the reader -----

  /** What is still to be read: the rest of the current chunk and the chunks in the channel. */
  function Remaining(reader: Option<Chunk>, channel: seq<Chunk>): Bytes {
    (if reader.None? then [] else reader.value.data) + Concat(Datas(channel))
  }

  /** Every chunk is closed without an error. */
  predicate AllClosed(reader: Option<Chunk>, channel: seq<Chunk>) {
    (reader.Some? ==> reader.value.ending.Closed?) && forall i :: 0 <= i < |channel| ==> channel[i].ending.Closed?
  }

  datatype ReadResult = Data(bytes: Bytes) | Eof | Failed(error: string)

  lemma Rejoin(a: Bytes, n: nat, b: Bytes)
    requires n <= |a|
    ensures a + b == a[..n] + (a[n..] + b)
  {
  }

  /** The chunks that are left: the one being read and those in the channel. */
  function Left(reader: Option<Chunk>, channel: seq<Chunk>): seq<Chunk> {
    (if reader.None? then [] else [reader.value]) + channel
  }

  /** The first n chunks are used up and have no error. */
  predicate UsedUp(chunks: seq<Chunk>, n: nat)
    requires n <= |chunks|
  {
    forall i :: 0 <= i < n ==> chunks[i].data == [] && chunks[i].ending.Closed?
  }

  /** What a read gives that passes over n chunks that are used up: the end, or the front of the next chunk, or its
      error if it has nothing else. */
  predicate Gives(chunks: seq<Chunk>, n: nat, length: nat, r: ReadResult, left: seq<Chunk>) {
    && n <= |chunks| && UsedUp(chunks, n)
    && if n == |chunks| then r == Eof && left == []
       else
         var next := chunks[n];
         if next.data != [] then
           && r.Data? && |r.bytes| <= length && (length > 0 ==> r.bytes != []) && r.bytes <= next.data
           && left == [Chunk(next.data[|r.bytes|..], next.ending)] + chunks[n + 1..]
         else next.ending.Broken? && r == Failed(next.ending.error) && left == chunks[n..]
  }

  lemma GivesLater(chunks: seq<Chunk>, n: nat, length: nat, r: ReadResult, left: seq<Chunk>)
    requires chunks != [] && chunks[0].data == [] && chunks[0].ending.Closed? && Gives(chunks[1..], n, length, r, left)
    ensures Gives(chunks, n + 1, length, r, left)
  {
    forall i | 0 <= i < n + 1 ensures chunks[i].data == [] && chunks[i].ending.Closed? {
      assert i > 0 ==> chunks[i] == chunks[1..][i - 1];
    }
  }

  /** The reader at the end of a channel that its writer has closed. */
  class ChunkReader {
    var channel: seq<Chunk>
    var reader: Option<Chunk>

    constructor (channel: seq<Chunk>)
      ensures this.channel == channel && reader == None
    {
      this.channel, this.reader := channel, None;
    }

    /** No pipe that is left to read is still being written to. */
    ghost predicate Settled()
      reads this
    {
      (reader.Some? ==> !reader.value.ending.Open?) && forall i :: 0 <= i < |channel| ==> !channel[i].ending.Open?
    }

    /**
     Read into a buffer of the given length.  A pipe gives at least one byte when it has one and there is room,
     but how many it gives is its own choice.
     */
    method Read(length: nat, choice: nat) returns (r: ReadResult)
      requires Settled()
      modifies this
      ensures Settled()
      ensures exists n :: Gives(Left(old(reader), old(channel)), n, length, r, Left(reader, channel))
      ensures r.Data? ==>
              && Remaining(old(reader), old(channel)) == r.bytes + Remaining(reader, channel)
              && |r.bytes| <= length && (length > 0 ==> r.bytes != [])
      ensures r.Eof? ==> Remaining(old(reader), old(channel)) == [] && Remaining(reader, channel) == []
      ensures r.Failed? ==> reader == Some(Chunk([], Broken(r.error)))
      ensures r.Failed? ==> Remaining(old(reader), old(channel)) == Remaining(reader, channel)
      ensures AllClosed(old(reader), old(channel)) ==> AllClosed(reader, channel) && !r.Failed?
    {
      ghost var before := Left(reader, channel);
      LeftIs(reader, channel);
      r := ReadOn(length, choice);
      LeftIs(reader, channel);
      ghost var n :| Gives(before, n, length, r, Left(reader, channel));
      GivesMeans(before, n, length, r, Left(reader, channel));
    }

    /** The recursion: a chunk that is used up is dropped and the next one read. */
    method ReadOn(length: nat, choice: nat) returns (r: ReadResult)
      requires Settled()
      modifies this
      ensures Settled() && (r.Failed? ==> reader.Some?)
      ensures exists n :: Gives(Left(old(reader), old(channel)), n, length, r, Left(reader, channel))
      decreases |channel|, reader.Some?
    {
      ghost var chunks := Left(reader, channel);
      if reader.None? {
        if channel == [] {
          assert Gives(chunks, 0, length, Eof, Left(reader, channel));
          return Eof;
        }
        reader, channel := Some(channel[0]), channel[1..];
        assert Left(reader, channel) == chunks;
      }
      var chunk := reader.value;
      if chunk.data != [] {
        var n := if length == 0 then 0 else if 1 <= choice <= length && choice <= |chunk.data| then choice else 1;
        r := Data(chunk.data[..n]);
        reader := Some(Chunk(chunk.data[n..], chunk.ending));
        assert Gives(chunks, 0, length, r, Left(reader, channel));
      } else if chunk.ending.Broken? {
        r := Failed(chunk.ending.error);
        assert Gives(chunks, 0, length, r, Left(reader, channel));
      } else {
        reader := None;
        assert Left(reader, channel) == chunks[1..];
        r := ReadOn(length, choice);
        ghost var n :| Gives(chunks[1..], n, length, r, Left(reader, channel));
        GivesLater(chunks, n, length, r, Left(reader, channel));
      }
    }
  }

  lemma LeftIs(reader: Option<Chunk>, channel: seq<Chunk>)
    ensures Remaining(reader, channel) == Concat(Datas(Left(reader, channel)))
    ensures AllClosed(reader, channel) <==> AllClosed(None, Left(reader, channel))
    ensures reader.Some? ==> Left(reader, channel)[0] == reader.value
  {
    var left := Left(reader, channel);
    if reader.Some? {
      assert Datas(left)[1..] == Datas(channel) && left[1..] == channel;
      assert forall i :: 1 <= i < |left| ==> left[i] == channel[i - 1];
    } else {
      assert left == channel;
    }
  }

  lemma {:induction false} PassOver(chunks: seq<Chunk>, n: nat)
    requires n <= |chunks| && UsedUp(chunks, n)
    ensures Concat(Datas(chunks)) == Concat(Datas(chunks[n..]))
  {
    if n > 0 {
      PassOver(chunks, n - 1);
      var rest := chunks[n - 1..];
      assert Datas(rest)[1..] == Datas(chunks[n..]) && Datas(rest)[0] == [];
    } else {
      assert chunks[0..] == chunks;
    }
  }

  /** In terms of the bytes that are left. */
  lemma GivesMeans(chunks: seq<Chunk>, n: nat, length: nat, r: ReadResult, left: seq<Chunk>)
    requires Gives(chunks, n, length, r, left)
    ensures r.Data? ==> Concat(Datas(chunks)) == r.bytes + Concat(Datas(left))
    ensures !r.Data? ==> Concat(Datas(chunks)) == Concat(Datas(left))
    ensures r.Eof? ==> Concat(Datas(chunks)) == []
    ensures r.Failed? ==> left != [] && left[0] == Chunk([], Broken(r.error))
    ensures AllClosed(None, chunks) ==> AllClosed(None, left) && !r.Failed?
  {
    PassOver(chunks, n);
    if r.Data? {
      var next, rest := chunks[n], chunks[n..];
      assert Datas(rest)[1..] == Datas(chunks[n + 1..]) && Datas(left)[1..] == Datas(chunks[n + 1..]);
      Rejoin(next.data, |r.bytes|, Concat(Datas(chunks[n + 1..])));
      assert next.data[..|r.bytes|] == r.bytes;
    }
  }

  /** Reading until the end gives back the whole stream, whatever pieces the pipes hand out. */
  method ReadAll(channel: seq<Chunk>, length: nat, choices: nat -> nat) returns (all: Bytes)
    requires length > 0 && AllClosed(None, channel)
    ensures all == Concat(Datas(channel))
  {
    var reader := new ChunkReader(channel);
    all := [];
    var step, done := 0, false;
    while !done
      invariant fresh(reader) && reader.Settled() && AllClosed(reader.reader, reader.channel)
      invariant all + Remaining(reader.reader, reader.channel) == Concat(Datas(channel))
      invariant done ==> Remaining(reader.reader, reader.channel) == []
      decreases |Remaining(reader.reader, reader.channel)|, !done
    {
      var r := reader.Read(length, choices(step));
      match r
      case Data(bytes) => all := all + bytes;
      case Eof => done := true;
      step := step + 1;
    }
  }

  /** The chunks after any writes: they depend on the whole stream only. */
  method WriteAll(writes: seq<Bytes>, chunkSize: nat) returns (channel: seq<Chunk>)
    ensures Datas(channel) == Cut(Concat(writes), chunkSize) && AllClosed(None, channel)
  {
    var writer := new ChunkWriter(chunkSize);
    FeedAll(writer, writes);
    assert [] + Concat(writes) == Concat(writes);
    writer.Close();
    channel := writer.channel;
  }

  method FeedAll(writer: ChunkWriter, writes: seq<Bytes>)
    requires writer.Valid() && !writer.closed
    modifies writer
    ensures writer.Valid() && !writer.closed && writer.stream == old(writer.stream) + Concat(writes)
  {
    for i := 0 to |writes|
      invariant writer.Valid() && !writer.closed
      invariant writer.stream + Concat(writes[i..]) == old(writer.stream) + Concat(writes)
    {
      Unfold(writer.stream, writes, i);
      var n, ok := writer.Write(writes[i]);
    }
    assert writes[|writes|..] == [] && writer.stream + [] == writer.stream;
  }

  lemma Unfold(stream: Bytes, writes: seq<Bytes>, i: nat)
    requires i < |writes|
    ensures stream + Concat(writes[i..]) == stream + writes[i] + Concat(writes[i + 1..])
  {
    assert writes[i..][0] == writes[i] && writes[i..][1..] == writes[i + 1..];
    Associate(stream, writes[i], Concat(writes[i + 1..]));
  }

  /** What was written is what is read. */
  method WriteThenRead(writes: seq<Bytes>, chunkSize: nat, length: nat, choices: nat -> nat) returns (all: Bytes)
    requires length > 0
    ensures all == Concat(writes)
  {
    var channel := WriteAll(writes, chunkSize);
    ConcatCut(Concat(writes), chunkSize);
    all := ReadAll(channel, length, choices);
  }
}
