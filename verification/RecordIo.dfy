/** The RecordIO frames of recordio.py: an encoder, and a decoder fed in arbitrary pieces. */
module RecordIo {
  import opened Wrappers
  import opened Decimal

  const NEWLINE: Octet := '\n'

  datatype Phase = HEADER | RECORD | FAILED

  /** The fields of a decoder. */
  datatype Fields = Fields(state: Phase, buffer: seq<Octet>, length: int)

  const INITIAL := Fields(HEADER, [], 0)

  /**
   The foreign functions of a decoder: deserialize, where None stands for an exception, and what
   decoding and int() make of a header that is not ASCII.
   */
  datatype Codec<!M> = Codec(deserialize: seq<Octet> -> Option<M>, foreignInt: seq<Octet> -> Option<int>)
  {
    function ParseLength(header: seq<Octet>): Option<int> {
      if IsAscii(header) then AsciiInt(header) else foreignInt(header)
    }
  }

  datatype Error = BadLength | InFailedState | DeserializeError | AssertionError

  datatype Reply<+M> = Records(records: seq<M>) | Raised(error: Error)

  datatype Turn<+M> = Next(fields: Fields, records: seq<M>) | Raise(fields: Fields, error: Error)

  /** One turn of decode's loop, on one byte. */
  function Step<M>(d: Codec<M>, f: Fields, c: Octet): Turn<M> {
    match f.state
    case HEADER =>
      if c != NEWLINE then Next(f.(buffer := f.buffer + [c]), [])
      else (
        match d.ParseLength(f.buffer)
        case None => Raise(f.(state := FAILED), BadLength)
        case Some(n) =>
          if n > 0 then Next(Fields(RECORD, [], n), [])
          else (
            match d.deserialize([])
            case None => Raise(Fields(RECORD, [], n), DeserializeError)
            case Some(m) => Next(Fields(HEADER, [], n), [m])))
    case RECORD =>
      if f.length == 0 || |f.buffer| >= f.length then Raise(f, AssertionError)
      else
        var buffer := f.buffer + [c];
        if |buffer| < f.length then Next(f.(buffer := buffer), [])
        else (
          match d.deserialize(buffer)
          case None => Raise(f.(buffer := buffer), DeserializeError)
          case Some(m) => Next(Fields(HEADER, [], f.length), [m]))
    case FAILED => Next(f, [])
  }

  function DecodeBytes<M>(d: Codec<M>, f: Fields, data: seq<Octet>): (Fields, Reply<M>)
    decreases |data|
  {
    if data == [] then (f, Records([]))
    else
      match Step(d, f, data[0])
      case Raise(g, e) => (g, Raised(e))
      case Next(g, out) => Prepend(out, DecodeBytes(d, g, data[1..]))
  }

  function Prepend<M>(out: seq<M>, r: (Fields, Reply<M>)): (Fields, Reply<M>) {
    if r.1.Raised? then r else (r.0, Records(out + r.1.records))
  }

  lemma PrependTwice<M>(a: seq<M>, b: seq<M>, r: (Fields, Reply<M>))
    ensures Prepend([], r) == r
    ensures Prepend(a, Prepend(b, r)) == Prepend(a + b, r)
  {
    if r.1.Records? {
      assert [] + r.1.records == r.1.records;
      assert a + (b + r.1.records) == (a + b) + r.1.records;
    }
  }

  /** decode(data) on the fields; a raised error loses the records of its own call. */
  function DecodeCall<M>(d: Codec<M>, f: Fields, data: seq<Octet>): (Fields, Reply<M>) {
    if f.state == FAILED then (f, Raised(InFailedState)) else DecodeBytes(d, f, data)
  }

  class Decoder<M> {
    const codec: Codec<M>
    var state: Phase
    var buffer: seq<Octet>
    var length: int

    constructor (codec: Codec<M>)
      ensures this.codec == codec && Now() == INITIAL
    {
      this.codec := codec;
      state, buffer, length := HEADER, [], 0;
    }

    function Now(): Fields
      reads this
    {
      Fields(state, buffer, length)
    }

    method Decode(data: seq<Octet>) returns (reply: Reply<M>)
      modifies this
      ensures (Now(), reply) == DecodeCall(codec, old(Now()), data)
    {
      if state == FAILED {
        return Raised(InFailedState);
      }
      var records: seq<M> := [];
      var i := 0;
      assert data[0..] == data;
      PrependTwice([], [], DecodeBytes(codec, Now(), data));
      while i < |data|
        invariant 0 <= i <= |data|
        invariant DecodeBytes(codec, old(Now()), data) == Prepend(records, DecodeBytes(codec, Now(), data[i..]))
      {
        var c := data[i];
        ghost var was := Now();
        assert data[i..][0] == c && data[i..][1..] == data[i + 1..];
        ghost var step := Step(codec, was, c);
        if step.Next? {
          PrependTwice(records, step.records, DecodeBytes(codec, step.fields, data[i + 1..]));
        }
        i := i + 1;
        if state == HEADER {
          if c != NEWLINE {
            buffer := buffer + [c];
            continue;
          }
          var parsed := codec.ParseLength(buffer);
          if parsed.None? {
            state := FAILED;
            return Raised(BadLength);
          }
          length := parsed.value;
          buffer := [];
          state := RECORD;
          if length <= 0 {
            var m := codec.deserialize(buffer);
            if m.None? {
              return Raised(DeserializeError);
            }
            records := records + [m.value];
            state := HEADER;
          }
        } else if state == RECORD {
          if length == 0 || |buffer| >= length {
            return Raised(AssertionError);
          }
          buffer := buffer + [c];
          if |buffer| == length {
            var m := codec.deserialize(buffer);
            if m.None? {
              return Raised(DeserializeError);
            }
            records := records + [m.value];
            buffer := [];
            state := HEADER;
          }
        }
      }
      assert records + [] == records;
      return Records(records);
    }
  }
}
