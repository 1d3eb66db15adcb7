/** What holds of the RecordIO decoder over whole streams, however they are cut. */
module RecordIoProof {
  import opened Wrappers
  import opened Sequences
  import opened Decimal
  import opened RecordIo

  // ---- chunks ----

  /** Decoding a + b is decoding a and, unless that raises, b after it. */
  lemma {:induction false} DecodeConcat<M>(d: Codec<M>, f: Fields, a: seq<Octet>, b: seq<Octet>)
    ensures var (g, r) := DecodeBytes(d, f, a);
            && DecodeBytes(d, f, a + b) == (if r.Raised? then (g, r) else Prepend(r.records, DecodeBytes(d, g, b)))
            && (r == Records([]) ==> DecodeBytes(d, f, a + b) == DecodeBytes(d, g, b))
    decreases |a|
  {
    PrependTwice([], [], DecodeBytes(d, DecodeBytes(d, f, a).0, b));
    if a == [] {
      assert a + b == b;
      PrependTwice([], [], DecodeBytes(d, f, b));
    } else {
      assert (a + b)[0] == a[0] && (a + b)[1..] == a[1..] + b;
      var step := Step(d, f, a[0]);
      if step.Next? {
        var (g, r) := DecodeBytes(d, step.fields, a[1..]);
        DecodeConcat(d, step.fields, a[1..], b);
        if r.Records? {
          PrependTwice(step.records, r.records, DecodeBytes(d, g, b));
        }
      }
    }
  }

  lemma {:induction false} FailedOnlyByRaising<M>(d: Codec<M>, f: Fields, data: seq<Octet>)
    requires f.state != FAILED
    ensures DecodeBytes(d, f, data).1.Records? ==> DecodeBytes(d, f, data).0.state != FAILED
    decreases |data|
  {
    if data != [] {
      var step := Step(d, f, data[0]);
      if step.Next? {
        FailedOnlyByRaising(d, step.fields, data[1..]);
      }
    }
  }

  /** The fields after, and the replies of, one decode call per chunk. */
  function DecodeChunks<M>(d: Codec<M>, f: Fields, chunks: seq<seq<Octet>>): (Fields, seq<Reply<M>>)
    decreases |chunks|
  {
    if chunks == [] then (f, [])
    else
      var (g, reply) := DecodeCall(d, f, chunks[0]);
      var (h, replies) := DecodeChunks(d, g, chunks[1..]);
      (h, [reply] + replies)
  }

  function RecordLists<M>(replies: seq<Reply<M>>): seq<seq<M>>
    requires forall i :: 0 <= i < |replies| ==> replies[i].Records?
  {
    seq(|replies|, i requires 0 <= i < |replies| => replies[i].records)
  }

  ghost predicate NoneRaised<M>(replies: seq<Reply<M>>) {
    forall i :: 0 <= i < |replies| ==> replies[i].Records?
  }

  lemma ConsReplies<M>(reply: Reply<M>, replies: seq<Reply<M>>)
    ensures NoneRaised([reply] + replies) <==> reply.Records? && NoneRaised(replies)
    ensures NoneRaised([reply] + replies) ==>
              Flatten(RecordLists([reply] + replies)) == reply.records + Flatten(RecordLists(replies))
  {
    var all := [reply] + replies;
    assert all[0] == reply && all[1..] == replies;
    assert forall i :: 0 <= i < |replies| ==> all[i + 1] == replies[i];
    if NoneRaised(all) {
      assert RecordLists(all)[1..] == RecordLists(replies);
    }
  }

  /**
   The cutting does not matter: the calls on the chunks raise nothing exactly when the call on
   the whole raises nothing, and then they leave the same fields and their records are its own.
   */
  lemma {:induction false} ChunksAreIndependent<M>(d: Codec<M>, f: Fields, chunks: seq<seq<Octet>>)
    requires f.state != FAILED
    ensures var (g, whole) := DecodeCall(d, f, Flatten(chunks));
            var (h, replies) := DecodeChunks(d, f, chunks);
            && (whole.Records? <==> NoneRaised(replies))
            && (whole.Records? ==> h == g && Flatten(RecordLists(replies)) == whole.records)
    decreases |chunks|
  {
    if chunks != [] {
      var first, rest := chunks[0], chunks[1..];
      var (g, reply) := DecodeCall(d, f, first);
      var (h, replies) := DecodeChunks(d, g, rest);
      DecodeConcat(d, f, first, Flatten(rest));
      ConsReplies(reply, replies);
      if reply.Records? {
        FailedOnlyByRaising(d, f, first);
        ChunksAreIndependent(d, g, rest);
      }
    }
  }

  /** When the call on the whole raises, the first call on a chunk to raise does so alike. */
  lemma {:induction false} FirstErrorIsTheSame<M>(d: Codec<M>, f: Fields, chunks: seq<seq<Octet>>) returns (k: nat)
    requires f.state != FAILED && DecodeCall(d, f, Flatten(chunks)).1.Raised?
    ensures k < |chunks| && NoneRaised(DecodeChunks(d, f, chunks[..k]).1)
    ensures DecodeCall(d, DecodeChunks(d, f, chunks[..k]).0, chunks[k]) == DecodeCall(d, f, Flatten(chunks))
    decreases |chunks|
  {
    var first, rest := chunks[0], chunks[1..];
    var (g, reply) := DecodeCall(d, f, first);
    DecodeConcat(d, f, first, Flatten(rest));
    if reply.Raised? {
      k := 0;
    } else {
      FailedOnlyByRaising(d, f, first);
      var j := FirstErrorIsTheSame(d, g, rest);
      k := j + 1;
      assert chunks[..k][0] == first && chunks[..k][1..] == rest[..j];
      ConsReplies(reply, DecodeChunks(d, g, rest[..j]).1);
    }
  }

  // ---- the asserts ----

  /** The states in which the decoder expects a header, or some but not all bytes of a record. */
  predicate Healthy(f: Fields) {
    f.state == HEADER || (f.state == RECORD && f.length > 0 && |f.buffer| < f.length)
  }

  /** Where an exception from deserialize leaves it: the next byte trips an assert. */
  predicate Stuck(f: Fields) {
    f.state == RECORD && !Healthy(f)
  }

  lemma StepFromHealthy<M>(d: Codec<M>, f: Fields, c: Octet)
    requires Healthy(f)
    ensures match Step(d, f, c)
            case Next(g, _) => Healthy(g)
            case Raise(g, e) => (e == BadLength && g.state == FAILED) || (e == DeserializeError && Stuck(g))
  {}

  lemma {:induction false} CallFromHealthy<M>(d: Codec<M>, f: Fields, data: seq<Octet>)
    requires Healthy(f)
    ensures match DecodeBytes(d, f, data)
            case (g, Records(_)) => Healthy(g)
            case (g, Raised(e)) => (e == BadLength && g.state == FAILED) || (e == DeserializeError && Stuck(g))
    decreases |data|
  {
    if data != [] {
      StepFromHealthy(d, f, data[0]);
      var step := Step(d, f, data[0]);
      if step.Next? {
        CallFromHealthy(d, step.fields, data[1..]);
      }
    }
  }

  ghost predicate Total<M(!new)>(deserialize: seq<Octet> -> Option<M>) {
    forall s :: deserialize(s).Some?
  }

  lemma {:induction false} TotalRaisesBadLengthOnly<M(!new)>(d: Codec<M>, f: Fields, data: seq<Octet>)
    requires Healthy(f) && Total(d.deserialize)
    ensures DecodeBytes(d, f, data).1 != Raised(DeserializeError)
    decreases |data|
  {
    if data != [] {
      StepFromHealthy(d, f, data[0]);
      var step := Step(d, f, data[0]);
      if step.Next? {
        TotalRaisesBadLengthOnly(d, step.fields, data[1..]);
      }
    }
  }

  /**
   With a total deserialize the asserts never fire, whatever the calls: every state is healthy
   or failed, and the only errors are a bad length and the failed state.
   */
  lemma {:induction false} AssertsNeverFire<M(!new)>(d: Codec<M>, f: Fields, chunks: seq<seq<Octet>>)
    requires (Healthy(f) || f.state == FAILED) && Total(d.deserialize)
    ensures var (g, replies) := DecodeChunks(d, f, chunks);
            && (Healthy(g) || g.state == FAILED)
            && forall i :: 0 <= i < |replies| ==>
                 replies[i].Records? || replies[i] == Raised(BadLength) || replies[i] == Raised(InFailedState)
    decreases |chunks|
  {
    if chunks != [] {
      if Healthy(f) {
        CallFromHealthy(d, f, chunks[0]);
        TotalRaisesBadLengthOnly(d, f, chunks[0]);
      }
      AssertsNeverFire(d, DecodeCall(d, f, chunks[0]).0, chunks[1..]);
    }
  }

  /** One of the first k replies is an error of deserialize. */
  ghost predicate DeserializeRaised<M>(replies: seq<Reply<M>>, k: nat) {
    exists j :: 0 <= j < k && j < |replies| && replies[j] == Raised(DeserializeError)
  }

  lemma ConsDeserializeRaised<M>(reply: Reply<M>, replies: seq<Reply<M>>, k: nat)
    ensures DeserializeRaised([reply] + replies, k + 1) <==>
            reply == Raised(DeserializeError) || DeserializeRaised(replies, k)
  {
    var all := [reply] + replies;
    assert all[0] == reply;
    if DeserializeRaised(replies, k) {
      var j :| 0 <= j < k && j < |replies| && replies[j] == Raised(DeserializeError);
      assert all[j + 1] == Raised(DeserializeError);
    }
    if DeserializeRaised(all, k + 1) && reply != Raised(DeserializeError) {
      var j :| 0 <= j < k + 1 && j < |all| && all[j] == Raised(DeserializeError);
      assert replies[j - 1] == Raised(DeserializeError);
    }
  }

  /** Without that, an assert fires in a run exactly when a byte follows an error of deserialize. */
  lemma {:induction false} AssertFiresIffDeserializeRaised<M>(d: Codec<M>, f: Fields, chunks: seq<seq<Octet>>, k: nat)
    requires Healthy(f) && k < |chunks|
    ensures var replies := DecodeChunks(d, f, chunks).1;
            && |replies| == |chunks|
            && (replies[k] == Raised(AssertionError) <==> chunks[k] != [] && DeserializeRaised(replies, k))
    decreases |chunks|
  {
    var first, rest := chunks[0], chunks[1..];
    var (g, reply) := DecodeCall(d, f, first);
    var replies := DecodeChunks(d, g, rest).1;
    assert DecodeChunks(d, f, chunks).1 == [reply] + replies;
    CallFromHealthy(d, f, first);
    if Healthy(g) {
      if rest != [] {
        AssertFiresIffDeserializeRaised(d, g, rest, if k > 0 then k - 1 else 0);
      }
    } else if Stuck(g) {
      StuckForEver(d, g, rest);
    } else {
      FailedForEver(d, g, rest);
    }
    if k > 0 {
      ConsDeserializeRaised(reply, replies, k - 1);
    }
  }

  lemma {:induction false} StuckForEver<M>(d: Codec<M>, f: Fields, chunks: seq<seq<Octet>>)
    requires Stuck(f)
    ensures var (g, replies) := DecodeChunks(d, f, chunks);
            && g == f && |replies| == |chunks|
            && forall i :: 0 <= i < |chunks| ==>
                 replies[i] == if chunks[i] == [] then Records([]) else Raised(AssertionError)
    decreases |chunks|
  {
    if chunks != [] {
      StuckForEver(d, f, chunks[1..]);
    }
  }

  /** FAILED is absorbing: every later call raises and changes nothing. */
  lemma {:induction false} FailedForEver<M>(d: Codec<M>, f: Fields, chunks: seq<seq<Octet>>)
    requires f.state == FAILED
    ensures var (g, replies) := DecodeChunks(d, f, chunks);
            && g == f && |replies| == |chunks|
            && forall i :: 0 <= i < |chunks| ==> replies[i] == Raised(InFailedState)
    decreases |chunks|
  {
    if chunks != [] {
      FailedForEver(d, f, chunks[1..]);
    }
  }

  // ---- round trip ----

  /** Encoder.encode, on what serialize has made of the message. */
  function Frame(s: seq<Octet>): seq<Octet> {
    ToString(|s|) + [NEWLINE] + s
  }

  function Frames(payloads: seq<seq<Octet>>): seq<Octet> {
    if payloads == [] then [] else Frame(payloads[0]) + Frames(payloads[1..])
  }

  ghost predicate AllDecode<M>(d: Codec<M>, payloads: seq<seq<Octet>>) {
    forall i :: 0 <= i < |payloads| ==> d.deserialize(payloads[i]).Some?
  }

  function Messages<M>(d: Codec<M>, payloads: seq<seq<Octet>>): seq<M>
    requires AllDecode(d, payloads)
  {
    seq(|payloads|, i requires 0 <= i < |payloads| => d.deserialize(payloads[i]).value)
  }

  /** A byte that brings no record. */
  lemma QuietByte<M>(d: Codec<M>, f: Fields, g: Fields, bytes: seq<Octet>)
    requires bytes != [] && Step(d, f, bytes[0]) == Next(g, [])
    ensures DecodeBytes(d, f, bytes) == DecodeBytes(d, g, bytes[1..])
  {
    PrependTwice([], [], DecodeBytes(d, g, bytes[1..]));
  }

  lemma {:induction false} HeaderBytesAreBuffered<M>(d: Codec<M>, f: Fields, bytes: seq<Octet>)
    requires f.state == HEADER && NEWLINE !in bytes
    ensures DecodeBytes(d, f, bytes) == (f.(buffer := f.buffer + bytes), Records([]))
    decreases |bytes|
  {
    if bytes == [] {
      EmptyLeft(f.buffer);
    } else {
      var g := f.(buffer := f.buffer + [bytes[0]]);
      QuietByte(d, f, g, bytes);
      HeaderBytesAreBuffered(d, g, bytes[1..]);
      MoveOne(f.buffer, bytes);
    }
  }

  lemma {:induction false} RecordBytesAreBuffered<M>(d: Codec<M>, f: Fields, bytes: seq<Octet>)
    requires f.state == RECORD && |f.buffer| + |bytes| < f.length
    ensures DecodeBytes(d, f, bytes) == (f.(buffer := f.buffer + bytes), Records([]))
    decreases |bytes|
  {
    if bytes == [] {
      EmptyLeft(f.buffer);
    } else {
      var g := f.(buffer := f.buffer + [bytes[0]]);
      QuietByte(d, f, g, bytes);
      RecordBytesAreBuffered(d, g, bytes[1..]);
      MoveOne(f.buffer, bytes);
    }
  }

  lemma OneByte<M>(d: Codec<M>, f: Fields, c: Octet)
    requires Step(d, f, c).Next?
    ensures DecodeBytes(d, f, [c]) == (Step(d, f, c).fields, Records(Step(d, f, c).records))
  {
    var step := Step(d, f, c);
    assert DecodeBytes(d, step.fields, []) == (step.fields, Records([]));
    assert step.records + [] == step.records;
  }

  /** The header of a frame is buffered and then parsed to the length. */
  lemma HeaderIsParsed<M>(d: Codec<M>, f: Fields, n: nat)
    requires f.state == HEADER && f.buffer == []
    ensures DecodeBytes(d, f, ToString(n) + [NEWLINE]) ==
            DecodeBytes(d, f.(buffer := ToString(n)), [NEWLINE])
    ensures d.ParseLength(ToString(n)) == Some(n)
  {
    var header := ToString(n);
    IntOfString(n);
    HeaderBytesAreBuffered(d, f, header);
    EmptyLeft(header);
    DecodeConcat(d, f, header, [NEWLINE]);
  }

  /** A header of a record that has bytes. */
  lemma HeaderIsRead<M>(d: Codec<M>, f: Fields, n: nat)
    requires f.state == HEADER && f.buffer == [] && n > 0
    ensures DecodeBytes(d, f, ToString(n) + [NEWLINE]) == (Fields(RECORD, [], n), Records([]))
  {
    HeaderIsParsed(d, f, n);
    OneByte(d, f.(buffer := ToString(n)), NEWLINE);
  }

  lemma EmptyFrameIsDecoded<M>(d: Codec<M>, f: Fields)
    requires f.state == HEADER && f.buffer == [] && d.deserialize([]).Some?
    ensures DecodeBytes(d, f, ToString(0) + [NEWLINE]) == (INITIAL, Records([d.deserialize([]).value]))
  {
    HeaderIsParsed(d, f, 0);
    OneByte(d, f.(buffer := ToString(0)), NEWLINE);
  }

  lemma RecordIsDecoded<M>(d: Codec<M>, s: seq<Octet>)
    requires s != [] && d.deserialize(s).Some?
    ensures DecodeBytes(d, Fields(RECORD, [], |s|), s) == (Fields(HEADER, [], |s|), Records([d.deserialize(s).value]))
  {
    var f := Fields(RECORD, [], |s|);
    var init, last := s[..|s| - 1], s[|s| - 1];
    RecordBytesAreBuffered(d, f, init);
    DecodeConcat(d, f, init, [last]);
    assert init + [last] == s;
    EmptyLeft(init);
    OneByte(d, f.(buffer := init), last);
  }

  lemma FrameIsDecoded<M>(d: Codec<M>, f: Fields, s: seq<Octet>)
    requires f.state == HEADER && f.buffer == [] && d.deserialize(s).Some?
    ensures DecodeBytes(d, f, Frame(s)) == (Fields(HEADER, [], |s|), Records([d.deserialize(s).value]))
  {
    if s == [] {
      EmptyFrameIsDecoded(d, f);
      assert Frame(s) == ToString(0) + [NEWLINE];
    } else {
      HeaderIsRead(d, f, |s|);
      RecordIsDecoded(d, s);
      DecodeConcat(d, f, ToString(|s|) + [NEWLINE], s);
    }
  }

  lemma HeaderThenNewline<M>(d: Codec<M>, f: Fields, header: seq<Octet>, rest: seq<Octet>)
    requires f.state == HEADER && f.buffer == [] && '\n' !in header
    ensures DecodeBytes(d, f, header + ['\n'] + rest) == DecodeBytes(d, f.(buffer := header), ['\n'] + rest)
  {
    HeaderBytesAreBuffered(d, f, header);
    EmptyLeft(header);
    DecodeConcat(d, f, header, ['\n'] + rest);
    Associate(header, ['\n'], rest);
  }

  /** The number of a header: what int() reads, or what the foreign part says of text that is not ASCII. */
  function HeaderNumber<M>(d: Codec<M>, header: seq<Octet>): Option<int> {
    if exists i :: 0 <= i < |header| && header[i] as int >= 0x80 then d.foreignInt(header) else AsciiInt(header)
  }

  /**
   Whatever way a header has of writing its number, the frame gives its message: a number that is
   not positive stands for an empty record.
   */
  lemma AnyFrameIsDecoded<M>(d: Codec<M>, f: Fields, header: seq<Octet>, n: int, s: seq<Octet>)
    requires f.state == HEADER && f.buffer == [] && '\n' !in header
    requires HeaderNumber(d, header) == Some(n) && |s| == (if n > 0 then n else 0) && d.deserialize(s).Some?
    ensures DecodeBytes(d, f, header + ['\n'] + s) == (Fields(HEADER, [], n), Records([d.deserialize(s).value]))
  {
    var g := f.(buffer := header);
    HeaderThenNewline(d, f, header, s);
    if n > 0 {
      QuietByte(d, g, Fields(RECORD, [], n), ['\n'] + s);
      assert (['\n'] + s)[1..] == s;
      RecordIsDecoded(d, s);
    } else {
      OneByte(d, g, '\n');
      EmptyLeft(['\n']);
      assert s == [];
    }
  }

  /** A header that is no number fails the decoder for good, and what follows it is not looked at. */
  lemma BadHeaderFails<M>(d: Codec<M>, f: Fields, header: seq<Octet>, rest: seq<Octet>)
    requires f.state == HEADER && f.buffer == [] && '\n' !in header && HeaderNumber(d, header).None?
    ensures DecodeBytes(d, f, header + ['\n'] + rest) == (Fields(FAILED, header, f.length), Raised(BadLength))
  {
    HeaderThenNewline(d, f, header, rest);
  }

  lemma PartOfFrameIsBuffered<M>(d: Codec<M>, f: Fields, s: seq<Octet>, k: nat)
    requires f.state == HEADER && f.buffer == [] && k < |Frame(s)|
    ensures DecodeBytes(d, f, Frame(s)[..k]).1 == Records([])
  {
    var header := ToString(|s|);
    IntOfString(|s|);
    if k <= |header| {
      assert Frame(s)[..k] == header[..k];
      HeaderBytesAreBuffered(d, f, header[..k]);
    } else {
      var part := s[..k - |header| - 1];
      assert Frame(s)[..k] == header + [NEWLINE] + part;
      HeaderIsRead(d, f, |s|);
      DecodeConcat(d, f, header + [NEWLINE], part);
      RecordBytesAreBuffered(d, Fields(RECORD, [], |s|), part);
    }
  }

  /** How many frames fit entirely in the first k bytes. */
  function FramesIn(payloads: seq<seq<Octet>>, k: nat): (n: nat)
    ensures n <= |payloads|
    ensures k >= |Frames(payloads)| ==> n == |payloads|
    decreases |payloads|
  {
    if payloads == [] || k < |Frame(payloads[0])| then 0
    else 1 + FramesIn(payloads[1..], k - |Frame(payloads[0])|)
  }

  lemma MessagesOfPrefix<M>(d: Codec<M>, payloads: seq<seq<Octet>>, n: nat)
    requires AllDecode(d, payloads) && n < |payloads|
    ensures Messages(d, payloads)[..n + 1] == [d.deserialize(payloads[0]).value] + Messages(d, payloads[1..])[..n]
  {}

  lemma PrefixInFrame(payloads: seq<seq<Octet>>, k: nat)
    requires payloads != [] && k < |Frame(payloads[0])|
    ensures Frames(payloads)[..k] == Frame(payloads[0])[..k]
  {}

  lemma PrefixPastFrame(payloads: seq<seq<Octet>>, k: nat)
    requires payloads != [] && |Frame(payloads[0])| <= k <= |Frames(payloads)|
    ensures Frames(payloads)[..k] ==
            Frame(payloads[0]) + Frames(payloads[1..])[..k - |Frame(payloads[0])|]
  {}

  lemma PastFirstFrame<M>(d: Codec<M>, f: Fields, payloads: seq<seq<Octet>>, k: nat)
    requires f.state == HEADER && f.buffer == []
    requires payloads != [] && d.deserialize(payloads[0]).Some? && |Frame(payloads[0])| <= k <= |Frames(payloads)|
    ensures var s := payloads[0];
            DecodeBytes(d, f, Frames(payloads)[..k]) ==
            Prepend([d.deserialize(s).value],
                    DecodeBytes(d, Fields(HEADER, [], |s|), Frames(payloads[1..])[..k - |Frame(s)|]))
  {
    var s := payloads[0];
    FrameIsDecoded(d, f, s);
    DecodeConcat(d, f, Frame(s), Frames(payloads[1..])[..k - |Frame(s)|]);
    PrefixPastFrame(payloads, k);
  }

  /** What the first k bytes of frames make the decoder emit. */
  function EmittedIn<M>(d: Codec<M>, payloads: seq<seq<Octet>>, k: nat): seq<M>
    requires AllDecode(d, payloads)
  {
    Messages(d, payloads)[..FramesIn(payloads, k)]
  }

  lemma EmittedPastFrame<M>(d: Codec<M>, payloads: seq<seq<Octet>>, k: nat)
    requires AllDecode(d, payloads) && payloads != [] && |Frame(payloads[0])| <= k
    ensures EmittedIn(d, payloads, k) ==
            [d.deserialize(payloads[0]).value] + EmittedIn(d, payloads[1..], k - |Frame(payloads[0])|)
  {
    MessagesOfPrefix(d, payloads, FramesIn(payloads[1..], k - |Frame(payloads[0])|));
  }

  lemma FirstFrameEmits<M>(d: Codec<M>, f: Fields, payloads: seq<seq<Octet>>, k: nat)
    requires f.state == HEADER && f.buffer == [] && AllDecode(d, payloads)
    requires payloads != [] && |Frame(payloads[0])| <= k <= |Frames(payloads)|
    requires var s, j := payloads[0], k - |Frame(payloads[0])|;
             DecodeBytes(d, Fields(HEADER, [], |s|), Frames(payloads[1..])[..j]).1 ==
             Records(EmittedIn(d, payloads[1..], j))
    ensures DecodeBytes(d, f, Frames(payloads)[..k]).1 == Records(EmittedIn(d, payloads, k))
  {
    PastFirstFrame(d, f, payloads, k);
    EmittedPastFrame(d, payloads, k);
  }

  lemma {:induction false} PrefixEmits<M>(d: Codec<M>, f: Fields, payloads: seq<seq<Octet>>, k: nat)
    requires f.state == HEADER && f.buffer == []
    requires AllDecode(d, payloads) && k <= |Frames(payloads)|
    ensures DecodeBytes(d, f, Frames(payloads)[..k]).1 == Records(EmittedIn(d, payloads, k))
    decreases |payloads|
  {
    if payloads == [] {
    } else if k < |Frame(payloads[0])| {
      PartOfFrameIsBuffered(d, f, payloads[0], k);
      PrefixInFrame(payloads, k);
    } else {
      PrefixEmits(d, Fields(HEADER, [], |payloads[0]|), payloads[1..], k - |Frame(payloads[0])|);
      FirstFrameEmits(d, f, payloads, k);
    }
  }

  lemma FirstFrameThenOthers<M>(d: Codec<M>, f: Fields, payloads: seq<seq<Octet>>)
    requires f.state == HEADER && f.buffer == [] && AllDecode(d, payloads) && payloads != []
    ensures DecodeBytes(d, f, Frames(payloads)).0 ==
            DecodeBytes(d, Fields(HEADER, [], |payloads[0]|), Frames(payloads[1..])).0
  {
    FrameIsDecoded(d, f, payloads[0]);
    DecodeConcat(d, f, Frame(payloads[0]), Frames(payloads[1..]));
  }

  /** The fields after all frames, the length being that of the last one. */
  lemma {:induction false} FieldsAfterFrames<M>(d: Codec<M>, f: Fields, payloads: seq<seq<Octet>>)
    requires f.state == HEADER && f.buffer == [] && AllDecode(d, payloads)
    ensures DecodeBytes(d, f, Frames(payloads)).0 ==
            Fields(HEADER, [], if payloads == [] then f.length else |payloads[|payloads| - 1]|)
    decreases |payloads|
  {
    if payloads == [] {
    } else {
      FieldsAfterFrames(d, Fields(HEADER, [], |payloads[0]|), payloads[1..]);
      FirstFrameThenOthers(d, f, payloads);
      assert |payloads| > 1 ==> payloads[1..][|payloads| - 2] == payloads[|payloads| - 1];
    }
  }

  /**
   After any prefix of a stream of frames the decoder has emitted exactly the messages whose
   frames are in it, and has not failed. After the whole stream it is between frames.
   */
  lemma PrefixOfFrames<M>(d: Codec<M>, f: Fields, payloads: seq<seq<Octet>>, k: nat)
    requires f.state == HEADER && f.buffer == []
    requires AllDecode(d, payloads) && k <= |Frames(payloads)|
    ensures DecodeBytes(d, f, Frames(payloads)[..k]).1 == Records(Messages(d, payloads)[..FramesIn(payloads, k)])
    ensures k == |Frames(payloads)| ==>
              DecodeBytes(d, f, Frames(payloads)[..k]).0 ==
              Fields(HEADER, [], if payloads == [] then f.length else |payloads[|payloads| - 1]|)
  {
    PrefixEmits(d, f, payloads, k);
    FieldsAfterFrames(d, f, payloads);
    assert Frames(payloads)[..|Frames(payloads)|] == Frames(payloads);
  }

  /** Decoding the encodings of any messages gives the messages and ends between frames. */
  lemma RoundTrip<M>(d: Codec<M>, serialize: M -> seq<Octet>, messages: seq<M>)
    requires forall i :: 0 <= i < |messages| ==> d.deserialize(serialize(messages[i])) == Some(messages[i])
    ensures var payloads := seq(|messages|, i requires 0 <= i < |messages| => serialize(messages[i]));
            var (f, reply) := DecodeCall(d, INITIAL, Frames(payloads));
            reply == Records(messages) && f.state == HEADER && f.buffer == []
  {
    var payloads := seq(|messages|, i requires 0 <= i < |messages| => serialize(messages[i]));
    PrefixOfFrames(d, INITIAL, payloads, |Frames(payloads)|);
    assert Frames(payloads)[..|Frames(payloads)|] == Frames(payloads);
    assert Messages(d, payloads)[..|payloads|] == messages;
  }
}
