/** The escape framing of src/serial.c: an encoder, and a decoder that is fed one byte at a time. */
module Serial {
  import opened Bytes

  const ESCAPE: byte := 92
  const START: byte := 49
  const END: byte := 50
  const BUFFER_LEN := 100
  const PACKET_LEN := 50

  // ----- Wire format -----

  /** Payload bytes with every escape byte doubled. */
  function Escaped(data: seq<byte>): seq<byte> {
    if data == [] then []
    else (if data[0] == ESCAPE then [ESCAPE, ESCAPE] else [data[0]]) + Escaped(data[1..])
  }

  function Frame(data: seq<byte>): seq<byte> {
    [ESCAPE, START] + (Escaped(data) + [ESCAPE, END])
  }

  function Frames(messages: seq<seq<byte>>): seq<byte> {
    if messages == [] then [] else Frame(messages[0]) + Frames(messages[1..])
  }

  // ----- Decoder -----

  /** `frame` is None while fill == -1 and otherwise the first `fill` bytes of serial_buffer. */
  datatype Decoder = Decoder(frame: Option<seq<byte>>, escaped: bool)

  /** What one call of serial_in does: nothing yet, a finished frame, or the failing assertion of line 100. */
  datatype Reply = Quiet | Complete(frame: seq<byte>) | AssertFailed

  function Store(d: Decoder, b: byte): Decoder {
    Decoder(if d.frame.Some? then Some(d.frame.value + [b]) else None, false)
  }

  function In(d: Decoder, b: byte): (Decoder, Reply) {
    if b == ESCAPE && !d.escaped then (d.(escaped := true), Quiet)
    else if b != ESCAPE && d.escaped && b == START then (Decoder(Some([]), false), Quiet)
    else if b != ESCAPE && d.escaped && b == END then
      if d.frame.None? then (Decoder(None, false), AssertFailed)
      else (Decoder(None, false), Complete(d.frame.value))
    else (Store(d, b), Quiet)
  }

  /** Outcome of feeding a stream: decoder state, finished frames in order, and whether no assertion failed. */
  datatype Outcome = Outcome(d: Decoder, frames: seq<seq<byte>>, ok: bool)

  function Feed(d: Decoder, s: seq<byte>): Outcome
    decreases |s|
  {
    if s == [] then Outcome(d, [], true)
    else
      var (d1, reply) := In(d, s[0]);
      if reply.AssertFailed? then Outcome(d1, [], false)
      else
        var rest := Feed(d1, s[1..]);
        if reply.Complete? then rest.(frames := [reply.frame] + rest.frames) else rest
  }

  /** The decoder is inside serial_buffer now. */
  predicate InBounds(d: Decoder) {
    d.frame.Some? ==> |d.frame.value| <= BUFFER_LEN
  }

  /** And stays inside it while it reads s. */
  predicate Fits(d: Decoder, s: seq<byte>)
    decreases |s|
  {
    && InBounds(d)
    && (s != [] && !In(d, s[0]).1.AssertFailed? ==> Fits(In(d, s[0]).0, s[1..]))
  }

  /** Result of serial_readMessage: a message, no more input to read, or a failed assertion. */
  datatype ReadResult = Message(data: seq<byte>) | Blocked | Aborted

  /**
    * One call of serial_readMessage: its result, the decoder it leaves, and the bytes it leaves unread. The length of
    * a frame goes through a uint8_t.
    */
  function Read(d: Decoder, s: seq<byte>): (r: (ReadResult, Decoder, seq<byte>))
    ensures r.0.Message? ==> 1 <= |r.0.data| <= PACKET_LEN && |r.2| < |s|
    decreases |s|
  {
    if s == [] then (Blocked, d, s)
    else
      var (d1, reply) := In(d, s[0]);
      match reply
      case AssertFailed => (Aborted, d1, s[1..])
      case Quiet => Read(d1, s[1..])
      case Complete(frame) =>
        var len := ToByte(|frame|);
        if len == 0 then Read(d1, s[1..])
        else if len <= PACKET_LEN then (Message(frame[..len]), d1, s[1..])
        else (Aborted, d1, s[1..])
  }

  /** The messages the reader thread gets out of a stream, and whether an assertion stopped it. */
  function Delivered(d: Decoder, s: seq<byte>): (seq<seq<byte>>, bool)
    decreases |s|
  {
    var (result, d1, rest) := Read(d, s);
    match result
    case Blocked => ([], false)
    case Aborted => ([], true)
    case Message(m) => var (ms, aborted) := Delivered(d1, rest); ([m] + ms, aborted)
  }

  /** What the reader makes of finished frames: empty ones are skipped, one that is too long stops it. */
  function Accepted(frames: seq<seq<byte>>): (seq<seq<byte>>, bool) {
    if frames == [] then ([], false)
    else if |frames[0]| > PACKET_LEN then ([], true)
    else
      var (ms, aborted) := Accepted(frames[1..]);
      (if frames[0] == [] then ms else [frames[0]] + ms, aborted)
  }

  /** The bytes of the format: a backslash and 1, the payload with each backslash doubled, a backslash and 2. */
  lemma {:induction false} FrameBytes(data: seq<byte>)
    ensures Ascii('\\') == 92
    ensures Frame(data) == [92, Ascii('1')] + Escaped(data) + [92, Ascii('2')]
    ensures forall b: byte :: b in Escaped(data) <==> b in data
    ensures multiset(Escaped(data))[92] == 2 * multiset(data)[92]
    ensures |Escaped(data)| == |data| + multiset(data)[92]
    decreases |data|
  {
    if data != [] {
      var head := if data[0] == ESCAPE then [ESCAPE, ESCAPE] else [data[0]];
      FrameBytes(data[1..]);
      assert data == [data[0]] + data[1..] && Escaped(data) == head + Escaped(data[1..]);
    }
  }

  // ----- Round trip -----

  lemma {:induction false} FeedConcat(d: Decoder, a: seq<byte>, b: seq<byte>)
    requires Feed(d, a).ok
    ensures Feed(d, a + b) ==
            var first := Feed(d, a);
            var second := Feed(first.d, b);
            Outcome(second.d, first.frames + second.frames, second.ok)
    decreases |a|
  {
    if a == [] {
      assert a + b == b;
    } else {
      assert (a + b)[1..] == a[1..] + b;
      FeedConcat(In(d, a[0]).0, a[1..], b);
    }
  }

  lemma FeedTwo(d: Decoder, b1: byte, b2: byte)
    requires In(d, b1).1.Quiet? && In(In(d, b1).0, b2).1.Quiet?
    ensures Feed(d, [b1, b2]) == Outcome(In(In(d, b1).0, b2).0, [], true)
    ensures Fits(d, []) && Fits(In(d, b1).0, []) && Fits(In(In(d, b1).0, b2).0, []) ==> Fits(d, [b1, b2])
  {
    var d1 := In(d, b1).0;
    var d2 := In(d1, b2).0;
    assert [b1, b2][1..] == [b2] && [b2][1..] == [];
    assert Feed(d2, []) == Outcome(d2, [], true);
    assert Feed(d1, [b2]) == Outcome(d2, [], true);
  }

  /** The escaped payload byte by byte: its first byte is stored, the rest follows. */
  lemma EscapedHead(d: Decoder, data: seq<byte>) returns (head: seq<byte>)
    requires !d.escaped && data != []
    ensures Escaped(data) == head + Escaped(data[1..])
    ensures Feed(d, head) == Outcome(Store(d, data[0]), [], true)
    ensures Fits(d, []) && Fits(Store(d, data[0]), []) ==> Fits(d, head)
  {
    if data[0] == ESCAPE {
      head := [ESCAPE, ESCAPE];
      FeedTwo(d, ESCAPE, ESCAPE);
    } else {
      head := [data[0]];
      assert head[1..] == [];
      assert Feed(Store(d, data[0]), []) == Outcome(Store(d, data[0]), [], true);
    }
  }

  /** Inside a frame an escaped payload is collected unchanged; outside a frame it is skipped. */
  lemma {:induction false} FeedEscaped(d: Decoder, data: seq<byte>)
    requires !d.escaped
    ensures Feed(d, Escaped(data)) ==
            Outcome(Decoder(if d.frame.Some? then Some(d.frame.value + data) else None, false), [], true)
    decreases |data|
  {
    if data == [] {
      assert d.frame.Some? ==> d.frame.value + data == d.frame.value;
    } else {
      var head := EscapedHead(d, data);
      var d1 := Store(d, data[0]);
      FeedConcat(d, head, Escaped(data[1..]));
      FeedEscaped(d1, data[1..]);
      if d.frame.Some? {
        assert d.frame.value + [data[0]] + data[1..] == d.frame.value + data;
      }
    }
  }

  lemma FeedPair(d: Decoder, b: byte)
    requires !d.escaped && b != ESCAPE
    ensures Feed(d, [ESCAPE, b]) == Feed(d.(escaped := true), [b])
  {
    assert [ESCAPE, b][1..] == [b];
  }

  /** One frame, whatever the unescaped decoder was doing before. */
  lemma FeedFrame(d: Decoder, data: seq<byte>)
    requires !d.escaped
    ensures Feed(d, Frame(data)) == Outcome(Decoder(None, false), [data], true)
  {
    var begun := Decoder(Some([]), false);
    FeedPair(d, START);
    assert Feed(d, [ESCAPE, START]) == Outcome(begun, [], true);
    FeedEscaped(begun, data);
    var body := Decoder(Some([] + data), false);
    FeedPair(body, END);
    assert [] + data == data;
    assert Feed(body, [ESCAPE, END]) == Outcome(Decoder(None, false), [data], true);
    FeedConcat(begun, Escaped(data), [ESCAPE, END]);
    FeedConcat(d, [ESCAPE, START], Escaped(data) + [ESCAPE, END]);
  }

  /** Every list of messages, of any length and content, comes back frame by frame. */
  lemma {:induction false} FramesComeBack(d: Decoder, messages: seq<seq<byte>>)
    requires !d.escaped
    ensures Feed(d, Frames(messages)) ==
            Outcome(if messages == [] then d else Decoder(None, false), messages, true)
    decreases |messages|
  {
    if messages != [] {
      FeedFrame(d, messages[0]);
      FramesComeBack(Decoder(None, false), messages[1..]);
      FeedConcat(d, Frame(messages[0]), Frames(messages[1..]));
      assert [messages[0]] + messages[1..] == messages;
    }
  }

  /**
    * The reader refines the frame list: it skips empty frames and stops at the first one over 50 bytes. On a stream
    * that overruns serial_buffer even the length may be wrong.
    */
  lemma {:induction false} ReaderRefinesFrames(d: Decoder, s: seq<byte>)
    requires Feed(d, s).ok && Fits(d, s)
    ensures Delivered(d, s) == Accepted(Feed(d, s).frames)
    decreases |s|
  {
    if s != [] {
      var (d1, reply) := In(d, s[0]);
      ReaderRefinesFrames(d1, s[1..]);
      if reply.Complete? {
        var frames := Feed(d, s).frames;
        assert frames[1..] == Feed(d1, s[1..]).frames;
        assert reply.frame[..|reply.frame|] == reply.frame;
      }
    }
  }

  lemma {:induction false} AcceptedWhole(frames: seq<seq<byte>>)
    ensures |Accepted(frames).0| <= |frames|
    ensures Accepted(frames) == (frames, false) <==> forall m :: m in frames ==> 1 <= |m| <= PACKET_LEN
  {
    if frames != [] {
      AcceptedWhole(frames[1..]);
      assert frames == [frames[0]] + frames[1..];
      if frames[0] != [] && |frames[0]| <= PACKET_LEN {
        var (ms, _) := Accepted(frames[1..]);
        assert ([frames[0]] + ms)[1..] == ms;
      }
    }
  }

  lemma EncodingIsInjective(a: seq<seq<byte>>, b: seq<seq<byte>>)
    requires Frames(a) == Frames(b)
    ensures a == b
  {
    FramesComeBack(Decoder(None, false), a);
    FramesComeBack(Decoder(None, false), b);
  }

  /** With an escape pending, the start mark is taken for payload (or, outside a frame, for noise). */
  lemma FeedFrameEscaped(d: Decoder, data: seq<byte>)
    requires d.escaped
    ensures d.frame.None? ==> !Feed(d, Frame(data)).ok
    ensures d.frame.Some? ==>
              Feed(d, Frame(data)) ==
              Outcome(Decoder(None, false), [d.frame.value + [ESCAPE, START] + data], true)
  {
    var d1 := Store(Store(d, ESCAPE), START);
    assert Feed(d, [ESCAPE, START]) == Outcome(d1, [], true) by {
      FeedTwo(d, ESCAPE, START);
    }
    FeedConcat(d, [ESCAPE, START], Escaped(data) + [ESCAPE, END]);
    FeedEscaped(d1, data);
    var d2 := Feed(d1, Escaped(data)).d;
    FeedConcat(d1, Escaped(data), [ESCAPE, END]);
    FeedPair(d2, END);
    if d.frame.Some? {
      assert d.frame.value + [ESCAPE] + [START] == d.frame.value + [ESCAPE, START];
      assert d2.frame == Some(d.frame.value + [ESCAPE, START] + data);
    }
  }

  /** How many escape bytes a stream ends with. */
  function TrailingEscapes(s: seq<byte>): nat {
    if s == [] || s[|s| - 1] != ESCAPE then 0 else 1 + TrailingEscapes(s[..|s| - 1])
  }

  /** The stream ends inside an escape pair: its last run of escape bytes, with one pending before it, is odd. */
  predicate EndsInEscape(d: Decoder, s: seq<byte>) {
    var run := TrailingEscapes(s);
    (run + if run == |s| && d.escaped then 1 else 0) % 2 == 1
  }

  lemma {:induction false} PendingEscape(d: Decoder, s: seq<byte>)
    requires Feed(d, s).ok
    ensures TrailingEscapes(s) <= |s|
    ensures Feed(d, s).d.escaped <==> EndsInEscape(d, s)
    decreases |s|
  {
    if s != [] {
      var front, last := s[..|s| - 1], s[|s| - 1];
      assert front + [last] == s;
      if !Feed(d, front).ok {
        FailedPrefix(d, front, [last]);
      }
      PendingEscape(d, front);
      FeedConcat(d, front, [last]);
      assert [last][1..] == [];
    }
  }

  /** The automaton by itself resynchronises exactly if the noise did not end in the middle of an escape pair. */
  lemma FramesAfterNoise(d: Decoder, noise: seq<byte>, messages: seq<seq<byte>>)
    requires Feed(d, noise).ok && messages != []
    ensures (var o := Feed(d, noise + Frames(messages));
             o.ok && o.frames == Feed(d, noise).frames + messages)
            <==> !EndsInEscape(d, noise)
  {
    PendingEscape(d, noise);
    var before := Feed(d, noise);
    FeedConcat(d, noise, Frames(messages));
    if !before.d.escaped {
      FramesComeBack(before.d, messages);
    } else {
      FeedFrameEscaped(before.d, messages[0]);
      if before.d.frame.Some? {
        var wrong := before.d.frame.value + [ESCAPE, START] + messages[0];
        FeedConcat(before.d, Frame(messages[0]), Frames(messages[1..]));
        var after := Feed(before.d, Frames(messages));
        assert after.frames[0] == wrong && |wrong| > |messages[0]|;
        var o := Feed(d, noise + Frames(messages));
        assert o.frames[|before.frames|] == wrong;
        assert (before.frames + messages)[|before.frames|] == messages[0];
      } else {
        assert Feed(before.d, Frames(messages)).ok == false by {
          FailedPrefix(before.d, Frame(messages[0]), Frames(messages[1..]));
        }
      }
    }
  }

  lemma {:induction false} FailedPrefix(d: Decoder, a: seq<byte>, b: seq<byte>)
    requires !Feed(d, a).ok
    ensures !Feed(d, a + b).ok
    decreases |a|
  {
    assert (a + b)[1..] == a[1..] + b;
    if !In(d, a[0]).1.AssertFailed? {
      FailedPrefix(In(d, a[0]).0, a[1..], b);
    }
  }

  // ----- Buffer bound -----

  lemma {:induction false} FitsConcat(d: Decoder, a: seq<byte>, b: seq<byte>)
    requires Fits(d, a) && Feed(d, a).ok && Fits(Feed(d, a).d, b)
    ensures Fits(d, a + b)
    decreases |a|
  {
    if a == [] {
      assert a + b == b;
    } else {
      assert (a + b)[1..] == a[1..] + b;
      FitsConcat(In(d, a[0]).0, a[1..], b);
    }
  }

  lemma {:induction false} FitsEscaped(d: Decoder, data: seq<byte>)
    requires !d.escaped && d.frame.Some? && |d.frame.value| + |data| <= BUFFER_LEN
    ensures Fits(d, Escaped(data))
    decreases |data|
  {
    if data != [] {
      var head := EscapedHead(d, data);
      var d1 := Store(d, data[0]);
      FitsEscaped(d1, data[1..]);
      FitsConcat(d, head, Escaped(data[1..]));
    }
  }

  lemma {:induction false} FitsSplit(d: Decoder, a: seq<byte>, b: seq<byte>)
    requires Feed(d, a).ok && Fits(d, a + b)
    ensures Fits(d, a) && Fits(Feed(d, a).d, b)
    decreases |a|
  {
    if a == [] {
      assert a + b == b;
    } else {
      assert (a + b)[1..] == a[1..] + b;
      FitsSplit(In(d, a[0]).0, a[1..], b);
    }
  }

  lemma FrameFits(d: Decoder, m: seq<byte>)
    requires !d.escaped && InBounds(d)
    ensures Fits(d, Frame(m)) <==> |m| <= BUFFER_LEN
  {
    var begun, body := Decoder(Some([]), false), Decoder(Some([] + m), false);
    FeedTwo(d, ESCAPE, START);
    assert Fits(d, [ESCAPE, START]) && Feed(d, [ESCAPE, START]) == Outcome(begun, [], true);
    FeedEscaped(begun, m);
    if |m| <= BUFFER_LEN {
      FitsEscaped(begun, m);
      assert [ESCAPE, END][1..] == [END] && [END][1..] == [];
      assert Fits(body, [ESCAPE, END]);
      FitsConcat(begun, Escaped(m), [ESCAPE, END]);
      FitsConcat(d, [ESCAPE, START], Escaped(m) + [ESCAPE, END]);
    } else if Fits(d, Frame(m)) {
      FitsSplit(d, [ESCAPE, START], Escaped(m) + [ESCAPE, END]);
      FitsSplit(begun, Escaped(m), [ESCAPE, END]);
    }
  }

  /** Reading what serial_writeMessage wrote stays inside serial_buffer exactly when each message does. */
  lemma {:induction false} FramesFit(d: Decoder, messages: seq<seq<byte>>)
    requires !d.escaped && InBounds(d)
    ensures Fits(d, Frames(messages)) <==> forall m :: m in messages ==> |m| <= 100
    decreases |messages|
  {
    if messages != [] {
      var m, rest := messages[0], messages[1..];
      assert messages == [m] + rest;
      FrameFits(d, m);
      FeedFrame(d, m);
      FramesFit(Decoder(None, false), rest);
      if Fits(d, Frames(messages)) {
        FitsSplit(d, Frame(m), Frames(rest));
      } else if Fits(d, Frame(m)) && Fits(Decoder(None, false), Frames(rest)) {
        FitsConcat(d, Frame(m), Frames(rest));
      }
    }
  }

  /**
    * Resynchronisation. After any noise that tripped no assertion and stayed inside serial_buffer, the frames that
    * follow do so too and come through complete exactly if the noise did not end in the middle of an escape pair and
    * each message has at most 100 bytes.
    */
  lemma Resynchronises(d: Decoder, noise: seq<byte>, messages: seq<seq<byte>>)
    requires Feed(d, noise).ok && Fits(d, noise) && messages != []
    ensures (var o := Feed(d, noise + Frames(messages));
             && Fits(d, noise + Frames(messages))
             && o.ok && o.frames == Feed(d, noise).frames + messages)
            <==> !EndsInEscape(d, noise) && forall m :: m in messages ==> |m| <= 100
  {
    PendingEscape(d, noise);
    FramesAfterNoise(d, noise, messages);
    if !EndsInEscape(d, noise) {
      var before := Feed(d, noise).d;
      assert noise + [] == noise;
      FitsSplit(d, noise, []);
      FramesFit(before, messages);
      if Fits(d, noise + Frames(messages)) {
        FitsSplit(d, noise, Frames(messages));
      } else if Fits(before, Frames(messages)) {
        FitsConcat(d, noise, Frames(messages));
      }
    }
  }

  /** The reader stays inside its buffer and delivers exactly the messages written iff each has 1..50 bytes. */
  lemma RoundTrip(d: Decoder, messages: seq<seq<byte>>)
    requires !d.escaped && InBounds(d)
    ensures Fits(d, Frames(messages)) && Delivered(d, Frames(messages)) == (messages, false)
            <==> forall m :: m in messages ==> 1 <= |m| <= 50
  {
    FramesComeBack(d, messages);
    FramesFit(d, messages);
    AcceptedWhole(messages);
    if Fits(d, Frames(messages)) {
      ReaderRefinesFrames(d, Frames(messages));
    }
  }

  // ----- Messages that come in while others are read -----

  /** What has come in is whole frames the reader can take: it neither overruns nor stops. */
  predicate IsSettled(d: Decoder, s: seq<byte>) {
    Fits(d, s) && Feed(d, s).ok && !Feed(d, s).d.escaped && !Delivered(d, s).1
  }

  lemma {:induction false} AcceptedSnoc(frames: seq<seq<byte>>, m: seq<byte>)
    requires 1 <= |m| <= PACKET_LEN && !Accepted(frames).1
    ensures Accepted(frames + [m]) == (Accepted(frames).0 + [m], false)
    decreases |frames|
  {
    var more := frames + [m];
    if frames == [] {
      assert more[0] == m && more[1..] == [];
      assert Accepted(more[1..]) == ([], false);
      assert [m] + [] == [] + [m];
    } else {
      assert more[0] == frames[0] && more[1..] == frames[1..] + [m];
      AcceptedSnoc(frames[1..], m);
      var ms := Accepted(frames[1..]).0;
      assert [frames[0]] + (ms + [m]) == [frames[0]] + ms + [m];
    }
  }

  /** The frame of one more message adds that message, last, to those the reader will get. */
  lemma FrameArrives(d: Decoder, s: seq<byte>, m: seq<byte>)
    requires IsSettled(d, s) && 1 <= |m| <= PACKET_LEN
    ensures IsSettled(d, s + Frame(m)) && Delivered(d, s + Frame(m)).0 == Delivered(d, s).0 + [m]
  {
    var after := Feed(d, s).d;
    assert s + [] == s;
    FitsSplit(d, s, []);
    FrameFits(after, m);
    FitsConcat(d, s, Frame(m));
    FeedFrame(after, m);
    FeedConcat(d, s, Frame(m));
    ReaderRefinesFrames(d, s);
    ReaderRefinesFrames(d, s + Frame(m));
    AcceptedSnoc(Feed(d, s).frames, m);
  }

  /** Reading one message leaves a settled line settled. */
  lemma {:induction false} ReadStaysSettled(d: Decoder, s: seq<byte>)
    requires IsSettled(d, s) && Read(d, s).0.Message?
    ensures IsSettled(Read(d, s).1, Read(d, s).2)
    decreases |s|
  {
    if Read(d, s).2 != s[1..] || Read(d, s).1 != In(d, s[0]).0 {
      ReadSkips(d, s);
      ReadStaysSettled(In(d, s[0]).0, s[1..]);
    }
  }

  lemma ReadSkips(d: Decoder, s: seq<byte>)
    requires IsSettled(d, s) && Read(d, s).0.Message?
    requires Read(d, s).2 != s[1..] || Read(d, s).1 != In(d, s[0]).0
    ensures Read(d, s) == Read(In(d, s[0]).0, s[1..]) && IsSettled(In(d, s[0]).0, s[1..])
  {
  }

  // ----- The serial line -----

  lemma {:induction false} EscapedSnoc(data: seq<byte>, b: byte)
    ensures Escaped(data + [b]) == Escaped(data) + (if b == ESCAPE then [ESCAPE, ESCAPE] else [b])
  {
    if data == [] {
      assert data + [b] == [b] && [b][1..] == [];
    } else {
      assert (data + [b])[1..] == data[1..] + [b];
      EscapedSnoc(data[1..], b);
    }
  }

  /** The tty as two byte streams, with the static variables of serial_in and serial_buffer. */
  class SerialLine {
    const buffer: array<byte>
    var fill: int
    var escaped: bool
    var tx: seq<byte>
    var rx: seq<byte>

    constructor ()
      ensures Valid() && View() == Decoder(None, false) && tx == [] && rx == [] && fresh(buffer)
    {
      buffer := new byte[BUFFER_LEN];
      fill := -1;
      escaped := false;
      tx := [];
      rx := [];
    }

    ghost predicate Valid()
      reads this
    {
      buffer.Length == BUFFER_LEN && -1 <= fill <= BUFFER_LEN
    }

    ghost function View(): Decoder
      requires Valid()
      reads this, buffer
    {
      Decoder(if fill == -1 then None else Some(buffer[..fill]), escaped)
    }

    method PutC(c: byte)
      modifies `tx
      ensures tx == old(tx) + [c]
    {
      tx := tx + [c];
    }

    method PutEnc(data: seq<byte>)
      modifies `tx
      ensures tx == old(tx) + Escaped(data)
    {
      assert data[..0] == [];
      for i := 0 to |data|
        invariant tx == old(tx) + Escaped(data[..i])
      {
        if data[i] == ESCAPE {
          PutC(ESCAPE);
        }
        PutC(data[i]);
        EscapedSnoc(data[..i], data[i]);
        assert data[..i + 1] == data[..i] + [data[i]];
      }
      assert data[..|data|] == data;
    }

    method WriteMessage(data: seq<byte>)
      modifies `tx
      ensures tx == old(tx) + Frame(data)
    {
      PutC(ESCAPE);
      PutC(START);
      PutEnc(data);
      PutC(ESCAPE);
      PutC(END);
    }

    /** serial_in. A store past the end of serial_buffer is what the precondition rules out. */
    method Take(data: byte) returns (length: nat, aborted: bool)
      requires Valid() && Fits(View(), [data])
      modifies `fill, `escaped, buffer
      ensures Valid()
      ensures aborted == In(old(View()), data).1.AssertFailed?
      ensures View() == In(old(View()), data).0
      ensures match In(old(View()), data).1
              case Complete(frame) => length == |frame| <= BUFFER_LEN && buffer[..length] == frame
              case _ => length == 0
    {
      ghost var was := View();
      assert [data][1..] == [];
      aborted := false;
      if data == ESCAPE {
        if !escaped {
          escaped := true;
          return 0, false;
        }
        escaped := false;
      } else if escaped {
        escaped := false;
        if data == START {
          fill := 0;
          return 0, false;
        } else if data == END {
          if fill == -1 {
            return 0, true;
          }
          length := fill;
          fill := -1;
          return;
        }
      }
      length := 0;
      if fill > -1 {
        buffer[fill] := data;
        fill := fill + 1;
        assert buffer[..fill] == was.frame.value + [data];
      }
      // The else-branch of line 109 asks for fill >= 100 where fill is -1, so it never runs.
    }

    /** serial_readMessage on the bytes received so far. */
    method ReadMessage() returns (result: ReadResult)
      requires Valid() && Fits(View(), rx)
      modifies `fill, `escaped, `rx, buffer
      ensures Valid() && (result, View(), rx) == Read(old(View()), old(rx))
    {
      while rx != []
        invariant Valid() && Fits(View(), rx)
        invariant Read(old(View()), old(rx)) == Read(View(), rx)
        decreases |rx|
      {
        var c := rx[0];
        assert Fits(View(), [c]);
        ghost var reply := In(View(), c).1;
        var length, aborted := Take(c);
        rx := rx[1..];
        if aborted {
          return Aborted;
        }
        var len := ToByte(length);
        if len != 0 {
          assert reply.frame[..len] == reply.frame;
          if PACKET_LEN >= len {
            return Message(buffer[..len]);
          } else {
            return Aborted;
          }
        }
      }
      return Blocked;
    }
  }
}
