/** The messages that the client's own thread writes to a device, and the device's reading of them. */
module StreamFraming {
  import opened Wire

  // JPEG data is never empty, lengths fit a C++ `int`, and code 0 is reserved for the error that
  // carries a text.
  type Jpeg = b: seq<byte> | 0 < |b| < 0x8000_0000 witness [0]
  type Text = b: seq<byte> | |b| < 0x8000_0000
  type ErrorCode = c: int32 | c != 0 witness 1

  datatype Message =
    | Frame(jpeg: Jpeg)
    | MonitorOff
    | Error(code: ErrorCode)
    | ErrorText(text: Text)

  predicate IsError(m: Message) {
    m.Error? || m.ErrorText?
  }

  function Encode(m: Message): seq<byte> {
    match m
    case Frame(jpeg) => SV_FRAME_WORD + EncodeInt(|jpeg|) + jpeg
    case MonitorOff => SV_FRAME_WORD + EncodeInt(0)
    case Error(code) => SV_ERROR_WORD + EncodeInt(code)
    case ErrorText(text) => SV_ERROR_WORD + EncodeInt(0) + EncodeInt(|text|) + text
  }

  /** The bytes of each message: its word, "SFRME" or "SERRC", then a number, then the data. */
  lemma MessageBytes(m: Message)
    ensures var e := Encode(m);
      match m
      case Frame(jpeg) => e[..5] == [83, 70, 82, 77, 69] && LittleEndian(e[5..9], |jpeg|) && e[9..] == jpeg
      case MonitorOff => e == [83, 70, 82, 77, 69, 0, 0, 0, 0]
      case Error(code) => e[..5] == [83, 69, 82, 82, 67] && LittleEndian(e[5..], code)
      case ErrorText(text) =>
        && e[..9] == [83, 69, 82, 82, 67, 0, 0, 0, 0]
        && LittleEndian(e[9..13], |text|) && e[13..] == text
  {
    var zero := EncodeInt(0);
    assert zero == [0, 0, 0, 0];
    var e := Encode(m);
    match m
    case Frame(jpeg) =>
      OnTheWire(|jpeg|, 0, zero);
      hide EncodeInt, LittleEndian;
      assert e[5..9] == EncodeInt(|jpeg|);
    case MonitorOff =>
    case Error(code) =>
      OnTheWire(code, 0, zero);
      hide EncodeInt, LittleEndian;
      assert e[5..] == EncodeInt(code);
    case ErrorText(text) =>
      OnTheWire(|text|, 0, zero);
      hide EncodeInt, LittleEndian;
      assert e[5..9] == zero && e[9..13] == EncodeInt(|text|);
      assert e[..9] == e[..5] + e[5..9];
  }

  /** A stream the client's thread can write: an error comes only at the end. */
  predicate Stream(ms: seq<Message>) {
    forall i | 0 <= i < |ms| - 1 :: !IsError(ms[i])
  }

  predicate EndsInError(ms: seq<Message>) {
    ms != [] && IsError(ms[|ms| - 1])
  }

  function EncodeAll(ms: seq<Message>): seq<byte> {
    if ms == [] then [] else Encode(ms[0]) + EncodeAll(ms[1..])
  }

  datatype Item = Truncated | Malformed | Item(m: Message, size: nat)

  /** Reads one message from the front of `b`. */
  function Read(b: seq<byte>): (item: Item)
    ensures item.Item? ==> 9 <= item.size <= |b|
  {
    if |b| < 9 then Truncated
    else
      var n := DecodeInt(b[5..9]);
      if b[..5] == SV_FRAME_WORD then
        if n < 0 then Malformed
        else if n == 0 then Item(MonitorOff, 9)
        else if |b| < 9 + n then Truncated
        else Item(Frame(b[9..9 + n]), 9 + n)
      else if b[..5] == SV_ERROR_WORD then
        if n != 0 then Item(Error(n), 9)
        else ReadText(b)
      else Malformed
  }

  /** The text of an error message with code 0. */
  function ReadText(b: seq<byte>): (item: Item)
    requires 9 <= |b|
    ensures item.Item? ==> 13 <= item.size <= |b|
  {
    if |b| < 13 then Truncated
    else
      var len := DecodeInt(b[9..13]);
      if len < 0 then Malformed
      else if |b| < 13 + len then Truncated
      else Item(ErrorText(b[13..13 + len]), 13 + len)
  }

  datatype Parsed = Parsed(messages: seq<Message>, rest: seq<byte>)

  /** Reads messages until an error message, or until the bytes left are no whole message. */
  function Parse(b: seq<byte>): Parsed
    decreases |b|
  {
    match Read(b)
    case Item(m, size) =>
      if IsError(m) then Parsed([m], b[size..])
      else
        var tail := Parse(b[size..]);
        Parsed([m] + tail.messages, tail.rest)
    case _ => Parsed([], b)
  }

  /** One message is read back whatever follows it. */
  lemma ReadEncode(m: Message, rest: seq<byte>)
    ensures Read(Encode(m) + rest) == Item(m, |Encode(m)|)
  {
    hide EncodeInt, DecodeInt;
    match m
    case Frame(jpeg) =>
      DecodeEncodeInt(|jpeg|);
      Fields(SV_FRAME_WORD, EncodeInt(|jpeg|), jpeg, rest);
    case MonitorOff =>
      DecodeEncodeInt(0);
      Fields(SV_FRAME_WORD, EncodeInt(0), [], rest);
      assert Encode(m) + [] == Encode(m);
    case Error(code) =>
      DecodeEncodeInt(code);
      Fields(SV_ERROR_WORD, EncodeInt(code), [], rest);
      assert Encode(m) + [] == Encode(m);
    case ErrorText(text) =>
      DecodeEncodeInt(0);
      DecodeEncodeInt(|text|);
      Fields(SV_ERROR_WORD, EncodeInt(0), EncodeInt(|text|), text + rest);
      TextField(SV_ERROR_WORD + EncodeInt(0) + EncodeInt(|text|), text, rest);
  }

  /** Where the fields of a message are, whatever follows it. */
  lemma Fields(word: seq<byte>, number: seq<byte>, data: seq<byte>, rest: seq<byte>)
    requires |word| == 5 && |number| == 4
    ensures var b := word + number + data + rest;
      b[..5] == word && b[5..9] == number && b[9..9 + |data|] == data
  {
  }

  lemma TextField(head: seq<byte>, text: seq<byte>, rest: seq<byte>)
    requires |head| == 13
    ensures head + text + rest == head + (text + rest) && (head + text + rest)[13..13 + |text|] == text
  {
  }

  /** What is read encodes back to exactly the bytes consumed. */
  lemma EncodeRead(b: seq<byte>)
    requires Read(b).Item?
    ensures Encode(Read(b).m) == b[..Read(b).size]
  {
    hide EncodeInt, DecodeInt;
    EncodeDecodeInt(b[5..9]);
    var n := DecodeInt(b[5..9]);
    if b[..5] == SV_FRAME_WORD {
      assert b[..9] == b[..5] + b[5..9];
      if n > 0 {
        assert b[..9 + n] == b[..5] + b[5..9] + b[9..9 + n];
      }
    } else if n != 0 {
      assert b[..9] == b[..5] + b[5..9];
    } else {
      EncodeDecodeInt(b[9..13]);
      var len := DecodeInt(b[9..13]);
      assert b[..13 + len] == b[..5] + b[5..9] + b[9..13] + b[13..13 + len];
    }
  }

  lemma ConcatAssociates<T>(a: seq<T>, b: seq<T>, c: seq<T>)
    ensures a + (b + c) == (a + b) + c
  {
  }

  /** Writing one more message appends its encoding. */
  lemma {:induction false} EncodeAllSnoc(ms: seq<Message>, m: Message)
    ensures EncodeAll(ms + [m]) == EncodeAll(ms) + Encode(m)
  {
    if ms == [] {
      assert ms + [m] == [m];
      assert EncodeAll([m][1..]) == [];
    } else {
      assert (ms + [m])[1..] == ms[1..] + [m];
      EncodeAllSnoc(ms[1..], m);
      ConcatAssociates(Encode(ms[0]), EncodeAll(ms[1..]), Encode(m));
    }
  }

  /** Framing, forwards: the device recovers the written sequence, and keeps as unread rest
      exactly the bytes that do not make up a whole message. */
  lemma {:induction false} ParseStream(ms: seq<Message>, tail: seq<byte>)
    requires Stream(ms)
    requires EndsInError(ms) || !Read(tail).Item?
    ensures Parse(EncodeAll(ms) + tail) == Parsed(ms, tail)
  {
    hide Read, Encode;
    if ms == [] {
      assert EncodeAll(ms) + tail == tail;
    } else {
      var first := Encode(ms[0]);
      var rest := EncodeAll(ms[1..]) + tail;
      assert EncodeAll(ms) + tail == first + rest;
      ReadEncode(ms[0], rest);
      assert (first + rest)[|first|..] == rest;
      if IsError(ms[0]) {
        assert ms == [ms[0]];
        assert EncodeAll(ms[1..]) == [];
      } else {
        ParseStream(ms[1..], tail);
        assert [ms[0]] + ms[1..] == ms;
      }
    }
  }

  /** An error ends the stream, whatever follows it, and no other message does. */
  lemma ErrorEndsStream(m: Message, rest: seq<byte>)
    ensures m.Error? || m.ErrorText? ==> Parse(Encode(m) + rest) == Parsed([m], rest)
    ensures m.Frame? || m.MonitorOff? ==>
              Parse(Encode(m) + rest) == Parsed([m] + Parse(rest).messages, Parse(rest).rest)
  {
    hide Read, Encode;
    ReadEncode(m, rest);
    assert (Encode(m) + rest)[|Encode(m)|..] == rest;
  }

  /** The parsed messages are a stream the server could have written, they account for every byte
      outside the rest, and nothing readable was left. */
  ghost predicate Exact(p: Parsed, b: seq<byte>) {
    && Stream(p.messages)
    && EncodeAll(p.messages) + p.rest == b
    && (EndsInError(p.messages) || !Read(p.rest).Item?)
  }

  lemma ExactCons(m: Message, tail: Parsed, b: seq<byte>)
    requires !IsError(m) && Exact(tail, b)
    ensures Exact(Parsed([m] + tail.messages, tail.rest), Encode(m) + b)
  {
    hide Read, Encode;
    var ms := [m] + tail.messages;
    assert ms[1..] == tail.messages;
    ConcatAssociates(Encode(m), EncodeAll(tail.messages), tail.rest);
  }

  /** Framing, backwards: this holds of whatever bytes arrive. */
  lemma {:induction false} ParseIsExact(b: seq<byte>)
    ensures Exact(Parse(b), b)
    decreases |b|
  {
    hide Read, Encode;
    var item := Read(b);
    if item.Item? {
      EncodeRead(b);
      var rest := b[item.size..];
      assert b == Encode(item.m) + rest;
      if IsError(item.m) {
        assert EncodeAll([item.m]) == Encode(item.m);
      } else {
        ParseIsExact(rest);
        ExactCons(item.m, Parse(rest), rest);
      }
    }
  }

  /** No two streams share an encoding. */
  lemma UniqueStream(a: seq<Message>, b: seq<Message>)
    requires Stream(a) && Stream(b)
    requires EncodeAll(a) == EncodeAll(b)
    ensures a == b
  {
    ParseStream(a, []);
    ParseStream(b, []);
  }

  /** A message cut short by a failed write is never read as a message. */
  lemma CutMessageIsUnread(m: Message, k: nat)
    requires k < |Encode(m)|
    ensures Read(Encode(m)[..k]) == Truncated
  {
    hide EncodeInt, DecodeInt;
    var e := Encode(m);
    var b := e[..k];
    if k >= 9 {
      assert b[5..9] == e[5..9];
      assert b[..5] == e[..5];
      match m
      case Frame(jpeg) =>
        DecodeEncodeInt(|jpeg|);
        assert e[..5] == SV_FRAME_WORD;
        assert e[5..9] == EncodeInt(|jpeg|);
      case MonitorOff =>
      case Error(code) =>
      case ErrorText(text) =>
        DecodeEncodeInt(0);
        DecodeEncodeInt(|text|);
        assert e[..5] == SV_ERROR_WORD;
        assert e[5..9] == EncodeInt(0);
        assert e[9..13] == EncodeInt(|text|);
        if k >= 13 {
          assert b[9..13] == e[9..13];
        }
    }
  }

  /** Length 0 is the one collision: a frame without data would be read as "monitor off". */
  lemma EmptyFrameMeansMonitorOff(jpeg: seq<byte>, rest: seq<byte>)
    requires |jpeg| < 0x8000_0000
    ensures Read(SV_FRAME_WORD + EncodeInt(|jpeg|) + jpeg + rest)
         == Item(if jpeg == [] then MonitorOff else Frame(jpeg), 9 + |jpeg|)
  {
    if jpeg == [] {
      ReadEncode(MonitorOff, rest);
      assert SV_FRAME_WORD + EncodeInt(0) + jpeg + rest == Encode(MonitorOff) + rest;
    } else {
      ReadEncode(Frame(jpeg), rest);
    }
  }
}
