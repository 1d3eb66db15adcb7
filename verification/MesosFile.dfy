/** The file-like cursor of mesos.py over a server that may return less than it was asked for. */
module MesosFile {
  import opened Sequences

  datatype Whence = SEEK_SET | SEEK_CUR | SEEK_END | Other

  datatype Outcome = Done | ValueError

  function Clip(file: string, n: nat): nat {
    if n <= |file| then n else |file|
  }

  /** file[from..to] with both ends cut to the file. */
  function Slice(file: string, from: nat, to: nat): string
    requires from <= to
  {
    file[Clip(file, from)..Clip(file, to)]
  }

  /**
   A server holding a file, under the contract of files/read.json: it answers with data from the
   asked offset on, at most as much as asked for (all of it for length -1), and with none only
   at the end of the file or when none was asked for. How much it gives can differ from one
   request to the next. For offsets below -1 the contract says nothing; any answer will do.
   */
  class Server {
    const file: string
    const generosity: nat -> nat
    const undocumented: nat -> string
    var requests: nat

    constructor (file: string, generosity: nat -> nat, undocumented: nat -> string)
      ensures this.file == file && this.generosity == generosity && this.undocumented == undocumented
    {
      this.file, this.generosity, this.undocumented, requests := file, generosity, undocumented, 0;
    }

    method FilesRead(offset: int, length: int) returns (data: string, offset': int)
      requires length >= -1
      modifies this
      ensures offset >= -1 ==> offset' == if offset == -1 || offset >= |file| then |file| else offset
      ensures offset == -1 || offset >= |file| || (offset >= 0 && length == 0) ==> data == ""
      ensures 0 <= offset < |file| && length != 0 ==>
                && data != "" && (length > 0 ==> |data| <= length)
                && offset + |data| <= |file| && data == file[offset..offset + |data|]
    {
      requests := requests + 1;
      if offset < -1 {
        return undocumented(requests), offset;
      }
      if offset == -1 || offset >= |file| || length == 0 {
        return "", if offset == -1 || offset >= |file| then |file| else offset;
      }
      var available := if length == -1 || length > |file| - offset then |file| - offset else length;
      var served := generosity(requests);
      var n := if served == 0 then 1 else if served > available then available else served;
      return file[offset..offset + n], offset;
    }
  }

  class MesosFile {
    const server: Server
    var cursor: int

    constructor (server: Server)
      ensures this.server == server && cursor == 0
    {
      this.server, cursor := server, 0;
    }

    method Size() returns (n: int)
      modifies server
      ensures n == |server.file|
    {
      var data;
      data, n := server.FilesRead(-1, 0);
    }

    method Seek(offset: int, whence: Whence) returns (outcome: Outcome)
      modifies this, server
      ensures outcome == if whence.Other? then ValueError else Done
      ensures cursor == match whence
                        case SEEK_SET => offset
                        case SEEK_CUR => old(cursor) + offset
                        case SEEK_END => |server.file| + offset
                        case Other => old(cursor)
    {
      match whence {
        case SEEK_SET => cursor := 0 + offset;
        case SEEK_CUR => cursor := cursor + offset;
        case SEEK_END =>
          var n := Size();
          cursor := n + offset;
        case Other => return ValueError;
      }
      return Done;
    }

    method Tell() returns (n: int)
      ensures n == cursor
    {
      n := cursor;
    }

    method FetchChunk(length: int) returns (data: string)
      requires length >= -1
      modifies this, server
      ensures cursor == old(cursor) + |data|
      ensures old(cursor) == -1 || old(cursor) >= |server.file| || (old(cursor) >= 0 && length == 0) ==> data == ""
      ensures 0 <= old(cursor) < |server.file| && length != 0 ==>
                && data != "" && (length > 0 ==> |data| <= length)
                && cursor <= |server.file| && data == server.file[old(cursor)..cursor]
    {
      var offset';
      data, offset' := server.FilesRead(cursor, length);
      var outcome := Seek(|data|, SEEK_CUR);
    }

    /**
     read(length), or read() for length None: all the bytes from the cursor on, up to the length,
     however the server cuts them; the cursor ends right after them. From cursor -1, the offset
     that asks the server for the size, there is nothing to read. From anywhere, read ends and
     moves the cursor by what it returns.
     */
    method Read(length: OptionalLength) returns (data: string)
      modifies this, server
      ensures old(cursor) >= 0 ==> data == ReadFrom(server.file, old(cursor), length)
      ensures old(cursor) == -1 ==> data == ""
      ensures cursor == old(cursor) + |data|
    {
      data := "";
      var file, start := server.file, cursor;
      while length.All? || length.n - |data| > 0
        invariant cursor == start + |data|
        invariant start == -1 ==> data == ""
        invariant start >= 0 ==> data == Slice(file, start, start + |data|)
        invariant start >= 0 ==> |data| <= |ReadFrom(file, start, length)|
        decreases |file| - cursor
      {
        var chunkLength := if length.All? then -1 else length.n - |data|;
        var chunk := FetchChunk(chunkLength);
        if chunk == "" {
          break;
        }
        if start >= 0 {
          GrowsByChunk(file, start, length, data, chunk);
        }
        data := data + chunk;
      }
    }
  }

  datatype OptionalLength = All | AtMost(n: int)

  /** What reading from a position should give. */
  function ReadFrom(file: string, position: nat, length: OptionalLength): string {
    match length
    case All => Slice(file, position, position + |file|)
    case AtMost(n) => if n <= 0 then "" else Slice(file, position, position + n)
  }

  lemma GrowsByChunk(file: string, start: nat, length: OptionalLength, data: string, chunk: string)
    requires data == Slice(file, start, start + |data|) && start + |data| + |chunk| <= |file|
    requires chunk == file[start + |data|..start + |data| + |chunk|]
    requires length.AtMost? ==> |data| + |chunk| <= length.n
    ensures data + chunk == Slice(file, start, start + |data + chunk|)
    ensures |data + chunk| <= |ReadFrom(file, start, length)|
  {
    PieceJoins(file, start, start + |data|, start + |data| + |chunk|);
  }

  /** All the rest, or as many characters as asked for and as there are; nothing from the end on. */
  lemma ReadFromMeaning(file: string, position: nat, n: int)
    ensures position <= |file| ==> ReadFrom(file, position, All) == file[position..]
    ensures position <= |file| && 0 <= n <= |file| - position ==>
              ReadFrom(file, position, AtMost(n)) == file[position..position + n]
    ensures position <= |file| && n > |file| - position ==> ReadFrom(file, position, AtMost(n)) == file[position..]
    ensures n < 0 ==> ReadFrom(file, position, AtMost(n)) == ""
    ensures position > |file| ==> ReadFrom(file, position, All) == ReadFrom(file, position, AtMost(n)) == ""
  {}

  /** A slice that reaches its end, and the next piece of the file. */
  lemma PieceJoins(file: string, from: nat, middle: nat, to: nat)
    requires from <= middle <= to <= |file|
    ensures Slice(file, from, middle) + file[middle..to] == Slice(file, from, to)
  {}

  /** What reads of these lengths, one after another, return. */
  function ReadsFrom(file: string, position: nat, lengths: seq<OptionalLength>): seq<string>
    decreases |lengths|
  {
    if lengths == [] then []
    else
      var first := ReadFrom(file, position, lengths[0]);
      [first] + ReadsFrom(file, position + |first|, lengths[1..])
  }

  /** How much a read asks for: all there can be, and nothing if the length is not positive. */
  function Wanted(file: string, length: OptionalLength): nat {
    match length
    case All => |file|
    case AtMost(n) => if n > 0 then n else 0
  }

  function Total(file: string, lengths: seq<OptionalLength>): nat {
    if lengths == [] then 0 else Wanted(file, lengths[0]) + Total(file, lengths[1..])
  }

  lemma FlattenReads(file: string, position: nat, lengths: seq<OptionalLength>, first: string, next: nat)
    requires lengths != [] && first == ReadFrom(file, position, lengths[0]) && next == position + |first|
    ensures Flatten(ReadsFrom(file, position, lengths)) == first + Flatten(ReadsFrom(file, next, lengths[1..]))
  {
    var rest := ReadsFrom(file, next, lengths[1..]);
    assert ReadsFrom(file, position, lengths) == [first] + rest;
    FlattenCons(first, rest);
  }

  lemma ReadInside(file: string, position: nat, length: OptionalLength)
    requires position <= |file|
    ensures ReadFrom(file, position, length) == file[position..Clip(file, position + Wanted(file, length))]
  {}

  lemma PiecesJoin(file: string, from: nat, middle: nat, to: nat)
    requires from <= middle <= to <= |file|
    ensures file[from..middle] + file[middle..to] == file[from..to]
  {}

  /** The first read reaches the end of the file, or ends where the others go on to the total. */
  lemma ClipTwice(file: string, position: nat, n: nat, m: nat)
    ensures Clip(file, Clip(file, position + n) + m) == Clip(file, position + (n + m))
  {}

  lemma InsideStep(file: string, position: nat, lengths: seq<OptionalLength>, next: nat, to: nat)
    requires lengths != [] && position <= next <= to <= |file|
    requires ReadFrom(file, position, lengths[0]) == file[position..next]
    requires Flatten(ReadsFrom(file, next, lengths[1..])) == file[next..to]
    ensures Flatten(ReadsFrom(file, position, lengths)) == file[position..to]
  {
    FlattenReads(file, position, lengths, file[position..next], next);
    PiecesJoin(file, position, next, to);
  }

  lemma {:induction false} ReadsInside(file: string, position: nat, lengths: seq<OptionalLength>)
    requires position <= |file|
    ensures Flatten(ReadsFrom(file, position, lengths)) == file[position..Clip(file, position + Total(file, lengths))]
    decreases |lengths|
  {
    if lengths == [] {
    } else {
      var n, m := Wanted(file, lengths[0]), Total(file, lengths[1..]);
      var next := Clip(file, position + n);
      ClipTwice(file, position, n, m);
      ReadInside(file, position, lengths[0]);
      ReadsInside(file, next, lengths[1..]);
      InsideStep(file, position, lengths, next, Clip(file, position + (n + m)));
    }
  }

  lemma {:induction false} ReadsPastTheEnd(file: string, position: nat, lengths: seq<OptionalLength>)
    requires position >= |file|
    ensures Flatten(ReadsFrom(file, position, lengths)) == ""
    decreases |lengths|
  {
    if lengths == [] {
    } else {
      FlattenReads(file, position, lengths, "", position);
      ReadsPastTheEnd(file, position, lengths[1..]);
    }
  }

  /** Reads one after another, with and without lengths, join to one contiguous piece of the file. */
  lemma ReadsAreContiguous(file: string, position: nat, lengths: seq<OptionalLength>)
    ensures Flatten(ReadsFrom(file, position, lengths)) == Slice(file, position, position + Total(file, lengths))
  {
    if position <= |file| {
      ReadsInside(file, position, lengths);
    } else {
      ReadsPastTheEnd(file, position, lengths);
    }
  }
}
