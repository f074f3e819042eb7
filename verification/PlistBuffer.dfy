/** The 8160-byte buffer between the writer and its stream. */
module PlistBuffer {
  import opened Bytes

  const SIZE: nat := 8192 - 32

  class WriteBuffer {
    /** What the stream has accepted so far. */
    var stream: seq<byte>
    var written: nat
    var used: nat
    var error: bool
    const buffer: array<byte>
    const streamIsData: bool
    /** How much of each write the stream will take: 0 when it is full, negative on failure. */
    var replies: seq<int>
    /** Everything handed to `BufferWrite`, in order. */
    ghost var sent: seq<byte>

    ghost predicate Valid()
      reads this, buffer
    {
      && buffer.Length == SIZE
      && used < SIZE
      && written == |stream|
      && stream <= sent
      && (!error ==> sent == stream + buffer[..used])
    }

    /** The stream takes something of every write. */
    ghost predicate Reliable()
      reads this`replies
    {
      streamIsData || forall r | r in replies :: r > 0
    }

    constructor (isData: bool, takes: seq<int>)
      ensures Valid() && fresh(buffer) && replies == takes
      ensures sent == [] && stream == [] && !error && streamIsData == isData
    {
      stream, written, used, error, sent := [], 0, 0, false, [];
      buffer := new byte[SIZE];
      streamIsData := isData;
      replies := takes;
    }

    method WriteBytes(bytes: seq<byte>)
      requires written == |stream|
      modifies this`stream, this`written, this`error, this`replies
      ensures written == |stream|
      ensures old(stream) <= stream <= old(stream) + bytes
      ensures old(error) ==> error && stream == old(stream)
      ensures !error ==> stream == old(stream) + bytes
      ensures old(Reliable()) ==> Reliable() && error == old(error)
    {
      if |bytes| <= 0 { return; }
      if error { return; }
      if streamIsData {
        stream := stream + bytes;
        written := written + |bytes|;
      } else {
        var rest := bytes;
        while 0 < |rest|
          invariant written == |stream| && !error
          invariant old(stream) <= stream
          invariant stream + rest == old(stream) + bytes
          invariant old(Reliable()) ==> Reliable()
        {
          var ret := if replies == [] then |rest| else if |rest| < replies[0] then |rest| else replies[0];
          assert replies != [] ==> replies[0] in replies && forall r | r in replies[1..] :: r in replies;
          replies := if replies == [] then [] else replies[1..];
          if ret <= 0 {
            error := true;
            return;
          }
          assert rest == rest[..ret] + rest[ret..];
          stream := stream + rest[..ret];
          written := written + ret;
          rest := rest[ret..];
        }
      }
    }

    method BufferFlush()
      requires Valid()
      modifies this, buffer
      ensures Valid() && used == 0 && sent == old(sent)
      ensures old(error) ==> error
      ensures !error ==> stream == sent
      ensures old(Reliable()) ==> Reliable() && error == old(error)
    {
      WriteBytes(buffer[..used]);
      used := 0;
    }

    method Fill(at: nat, data: seq<byte>)
      requires at + |data| <= buffer.Length
      modifies buffer
      ensures buffer[..at] == old(buffer[..at])
      ensures buffer[at..at + |data|] == data
    {
      forall i | 0 <= i < |data| {
        buffer[at + i] := data[i];
      }
    }

    /** A piece that leaves room, or exactly fills the buffer. */
    method Copy(piece: seq<byte>)
      requires buffer.Length == SIZE && used + |piece| <= SIZE
      modifies this`used, buffer
      ensures used == old(used) + |piece| && buffer[..used] == old(buffer[..used]) + piece
    {
      Fill(used, piece);
      assert buffer[..used + |piece|] == buffer[..used] + piece;
      used := used + |piece|;
    }

    lemma CutData(before: seq<byte>, data: seq<byte>, n: nat)
      requires n <= |data|
      ensures before + data == before + data[..n] + data[n..]
    {
      assert data == data[..n] + data[n..];
    }

    /** Any series of calls delivers the concatenation of their arguments, or a prefix of it and an error. */
    method BufferWrite(data: seq<byte>)
      requires Valid()
      modifies this, buffer
      ensures Valid() && sent == old(sent) + data
      ensures old(error) ==> error
      ensures old(Reliable()) ==> Reliable() && error == old(error)
    {
      if 0 == |data| {
        assert sent + data == sent;
        return;
      }
      sent := sent + data;
      if SIZE <= |data| {
        WriteBytes(buffer[..used]);
        used := 0;
        WriteBytes(data);
        return;
      }
      var copyLen := if |data| < SIZE - used then |data| else SIZE - used;
      CutData(stream + buffer[..used], data, copyLen);
      Copy(data[..copyLen]);
      if SIZE == used {
        WriteBytes(buffer[..SIZE]);
        used := 0;
        Copy(data[copyLen..]);
      }
    }
  }
}
