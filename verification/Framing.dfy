/**
 The wire framing: a length prefix of base-128 digits, then the payload.  The sender cuts the length to 32
 bits; the receiver takes the prefix from the stream one byte at a time into a buffer of five bytes.
 */
module Framing {

  type byte = x: int | 0 <= x < 256

  const MAX_PREFIX: nat := 5
  const MAX_VARINT: nat := 10
  const TWO_32: nat := 0x1_0000_0000

  // ---------------------------------------------------------------- numbers as base-128 digits

  function Encode(x: nat): seq<byte> {
    if x < 128 then [x] else [128 + x % 128] + Encode(x / 128)
  }

  /** The number that the digits stand for, the lowest first. */
  function Value(digits: seq<byte>): nat {
    if digits == [] then 0 else digits[0] % 128 + 128 * Value(digits[1..])
  }

  /** Every byte but the last one announces a further one. */
  predicate IsVarint(digits: seq<byte>) {
    && digits != [] && digits[|digits| - 1] < 128
    && forall i :: 0 <= i < |digits| - 1 ==> digits[i] >= 128
  }

  /** No superfluous zero digit at the end. */
  predicate Canonical(digits: seq<byte>) {
    IsVarint(digits) && (|digits| > 1 ==> digits[|digits| - 1] != 0)
  }

  function Power(n: nat): nat {
    if n == 0 then 1 else 128 * Power(n - 1)
  }

  lemma {:induction false} EncodeIsCanonical(x: nat)
    ensures Canonical(Encode(x)) && Value(Encode(x)) == x
  {
    if x >= 128 {
      EncodeIsCanonical(x / 128);
      var digits, rest := Encode(x), Encode(x / 128);
      assert digits[1..] == rest && digits[|digits| - 1] == rest[|rest| - 1];
      assert forall i :: 1 <= i < |digits| ==> digits[i] == rest[i - 1];
      if |rest| == 1 {
        assert rest == [x / 128];
      }
    }
  }

  lemma EncodeSpelled(x: nat)
    ensures x < 128 ==> Encode(x) == [x]
    ensures 128 <= x < 16384 ==> Encode(x) == [128 + x % 128, x / 128]
  {
    if 128 <= x < 16384 {
      assert x / 128 < 128 && Encode(x / 128) == [x / 128];
    }
  }

  lemma LowDigit(digit: nat, rest: nat)
    requires digit < 128
    ensures (digit + 128 * rest) / 128 == rest && (digit + 128 * rest) % 128 == digit
  {
  }

  /** Of all ways to write a number, the encoder produces the only canonical one. */
  lemma {:induction false} CanonicalIsEncode(digits: seq<byte>)
    requires Canonical(digits)
    ensures digits == Encode(Value(digits))
  {
    if |digits| == 1 {
      assert digits[1..] == [];
    } else {
      var rest := digits[1..];
      assert forall i :: 0 <= i < |rest| ==> rest[i] == digits[i + 1];
      CanonicalIsEncode(rest);
      assert Value(rest) > 0 by {
        EncodeIsCanonical(0);
        assert Value(rest) == 0 ==> rest == [0];
      }
      LowDigit(digits[0] - 128, Value(rest));
      assert digits == [digits[0]] + rest;
    }
  }

  lemma {:induction false} EncodeLength(x: nat, n: nat)
    requires 0 < n
    ensures |Encode(x)| <= n <==> x < Power(n)
  {
    if n == 1 {
      assert Power(0) == 1 && Power(1) == 128;
      if x >= 128 {
        EncodeIsCanonical(x / 128);
      }
    } else if x >= 128 {
      EncodeLength(x / 128, n - 1);
      assert x / 128 < Power(n - 1) <==> x < 128 * Power(n - 1);
    } else {
      PowerPositive(n - 1);
    }
  }

  lemma {:induction false} PowerPositive(n: nat)
    ensures Power(n) >= 1
  {
    if n > 0 {
      PowerPositive(n - 1);
    }
  }

  /** A 32-bit length always fits the buffer. */
  lemma PrefixFits(x: nat)
    requires x < 0x1_0000_0000
    ensures |Encode(x)| <= 5
  {
    assert Power(1) == 128 && Power(2) == 16384 && Power(3) == 2097152;
    assert Power(4) == 268435456 && Power(5) == 34359738368;
    EncodeLength(x, MAX_PREFIX);
  }

  lemma {:induction false} ValueSplit(a: seq<byte>, b: seq<byte>)
    ensures Value(a + b) == Value(a) + Power(|a|) * Value(b)
  {
    if a == [] {
      assert a + b == b;
    } else {
      ValueSplit(a[1..], b);
      assert (a + b)[1..] == a[1..] + b;
      Distribute(Value(a[1..]), Power(|a| - 1), Value(b));
    }
  }

  lemma Distribute(v: nat, p: nat, w: nat)
    ensures 128 * (v + p * w) == 128 * v + (128 * p) * w
  {
  }

  // ---------------------------------------------------------------- the library routines

  method PutUvarint(buf: array<byte>, x: nat) returns (n: nat)
    requires |Encode(x)| <= buf.Length
    modifies buf
    ensures n <= buf.Length && buf[..n] == Encode(x)
  {
    var left := x;
    n := 0;
    while left >= 128
      invariant n + |Encode(left)| <= buf.Length
      invariant buf[..n] + Encode(left) == Encode(x)
    {
      ghost var done := buf[..n];
      var digit := 128 + left % 128;
      assert Encode(left) == [digit] + Encode(left / 128);
      buf[n] := digit;
      assert buf[..n + 1] == done + [digit];
      assert done + [digit] + Encode(left / 128) == done + ([digit] + Encode(left / 128));
      left, n := left / 128, n + 1;
    }
    ghost var done := buf[..n];
    buf[n] := left;
    assert buf[..n + 1] == done + [left];
    n := n + 1;
  }

  /** Decodes a number from the front: the count is positive on success, zero when more bytes are needed and
      negative when the number exceeds 64 bits. */
  method Uvarint(buf: seq<byte>) returns (value: nat, n: int)
    ensures n > 0 ==> n <= |buf| && IsVarint(buf[..n]) && value == Value(buf[..n])
    ensures n == 0 ==> |buf| <= 10 && forall i :: 0 <= i < |buf| ==> buf[i] >= 128
    ensures n < 0 ==> |buf| >= 10 && buf[9] > 1
    ensures n < 0 ==> forall i :: 0 <= i < 9 ==> buf[i] >= 128
  {
    value, n := 0, 0;
    var scale: nat, i := 1, 0;
    while i < |buf|
      invariant 0 <= i <= |buf| && i <= MAX_VARINT
      invariant forall j :: 0 <= j < i ==> buf[j] >= 128
      invariant value == Value(buf[..i]) && scale == Power(i)
    {
      if i == MAX_VARINT {
        return 0, -(i + 1);
      }
      var b := buf[i];
      var more := Shifted(b % 128, scale);
      NextDigit(buf, i);
      if b < 128 {
        if i == MAX_VARINT - 1 && b > 1 {
          return 0, -(i + 1);
        }
        return value + more, i + 1;
      }
      value := value + more;
      scale, i := 128 * scale, i + 1;
    }
    value := 0;
  }

  function Shifted(digit: nat, scale: nat): nat {
    digit * scale
  }

  lemma NextDigit(buf: seq<byte>, i: nat)
    requires i < |buf|
    ensures Value(buf[..i + 1]) == Value(buf[..i]) + Shifted(buf[i] % 128, Power(i))
  {
    ValueSplit(buf[..i], [buf[i]]);
    assert buf[..i + 1] == buf[..i] + [buf[i]];
    var rest := [buf[i]];
    assert Value(rest[1..]) == 0 && Value(rest) == buf[i] % 128;
  }

  // ---------------------------------------------------------------- what a frame is

  /** The frame that the sender writes: the length cut to 32 bits, then all of the payload. */
  function Frame(payload: seq<byte>): seq<byte> {
    Encode(|payload| % TWO_32) + payload
  }

  datatype Reading =
    | Message(payload: seq<byte>, rest: seq<byte>)
    | PrefixCut
    | PrefixTooLong
    | PayloadCut

  /** The number of bytes before the first one that announces no further byte. */
  function Continued(s: seq<byte>): nat {
    if s == [] || s[0] < 128 then 0 else 1 + Continued(s[1..])
  }

  lemma {:induction false} ContinuedIs(s: seq<byte>, k: nat)
    requires k <= |s| && (forall i :: 0 <= i < k ==> s[i] >= 128) && (k < |s| ==> s[k] < 128)
    ensures Continued(s) == k
  {
    if k > 0 {
      ContinuedIs(s[1..], k - 1);
    }
  }

  lemma {:induction false} ContinuedBytes(s: seq<byte>)
    ensures Continued(s) <= |s| && (Continued(s) < |s| ==> s[Continued(s)] < 128)
    ensures forall i :: 0 <= i < Continued(s) ==> s[i] >= 128
  {
    if s != [] && s[0] >= 128 {
      ContinuedBytes(s[1..]);
      assert forall i :: 1 <= i < |s| ==> s[i] == s[1..][i - 1];
    }
  }

  /** A payload of the given length at the front. */
  function Body(s: seq<byte>, length: nat): Reading {
    if length <= |s| then Message(s[..length], s[length..]) else PayloadCut
  }

  /** What the first frame of a byte stream is. */
  function Read(s: seq<byte>): Reading {
    var k := Continued(s);
    if k >= MAX_PREFIX then PrefixTooLong
    else if k >= |s| then PrefixCut
    else Body(s[k + 1..], Value(s[..k + 1]))
  }

  /** Prefixes of no, one, two and too many bytes, spelled out. */
  ghost predicate IsReading(s: seq<byte>, r: Reading) {
    && (s == [] ==> r == PrefixCut)
    && (s != [] && s[0] < 128 ==>
          var end := 1 + s[0];
          r == if end <= |s| then Message(s[1..end], s[end..]) else PayloadCut)
    && (|s| >= 2 && s[0] >= 128 && s[1] < 128 ==>
          var end := 2 + (s[0] as int - 128) + 128 * s[1] as int;
          r == if end <= |s| then Message(s[2..end], s[end..]) else PayloadCut)
    && (|s| >= 5 && s[0] >= 128 && s[1] >= 128 && s[2] >= 128 && s[3] >= 128 && s[4] >= 128 ==> r == PrefixTooLong)
  }

  lemma ReadIsReading(s: seq<byte>)
    ensures IsReading(s, Read(s))
  {
    if s != [] && s[0] < 128 {
      ReadOne(s);
    } else if |s| >= 2 && s[1] < 128 {
      ReadTwo(s);
    } else if |s| >= 5 && s[2] >= 128 && s[3] >= 128 && s[4] >= 128 {
      ContinuedAtLeast(s, 5);
    }
  }

  lemma ReadOne(s: seq<byte>)
    requires s != [] && s[0] < 128
    ensures Read(s) == Body(s[1..], s[0])
    ensures Body(s[1..], s[0]) == if 1 + s[0] <= |s| then Message(s[1..1 + s[0]], s[1 + s[0]..]) else PayloadCut
  {
    ContinuedIs(s, 0);
    var prefix := s[..1];
    assert prefix[1..] == [] && Value(prefix[1..]) == 0;
  }

  lemma ReadTwo(s: seq<byte>)
    requires |s| >= 2 && s[0] >= 128 && s[1] < 128
    ensures var n := s[0] as int - 128 + 128 * s[1] as int;
      && Read(s) == Body(s[2..], n)
      && Body(s[2..], n) == if 2 + n <= |s| then Message(s[2..2 + n], s[2 + n..]) else PayloadCut
  {
    ContinuedIs(s, 1);
    var prefix := s[..2];
    assert prefix[1..] == [s[1]] && [s[1]][1..] == [] && Value([s[1]]) == s[1];
  }

  lemma ReadAfterPrefix(prefix: seq<byte>, s: seq<byte>)
    requires IsVarint(prefix) && |prefix| <= MAX_PREFIX
    ensures Continued(prefix + s) == |prefix| - 1 && Read(prefix + s) == Body(s, Value(prefix))
  {
    var all := prefix + s;
    ContinuedIs(all, |prefix| - 1);
    assert all[..|prefix|] == prefix && all[|prefix|..] == s;
  }

  lemma ReadAnnounced(prefix: seq<byte>, length: nat, payload: seq<byte>, tail: seq<byte>)
    requires IsVarint(prefix) && |prefix| <= MAX_PREFIX && Value(prefix) == length <= |payload|
    ensures Read(prefix + payload + tail) == Message(payload[..length], payload[length..] + tail)
    ensures Continued(prefix + payload + tail) == |prefix| - 1
  {
    var after := payload + tail;
    assert prefix + payload + tail == prefix + after;
    ReadAfterPrefix(prefix, after);
    assert after[..length] == payload[..length] && after[length..] == payload[length..] + tail;
  }

  lemma EncodedPrefix(x: nat)
    requires x < TWO_32
    ensures Canonical(Encode(x)) && |Encode(x)| <= MAX_PREFIX && Value(Encode(x)) == x
  {
    EncodeIsCanonical(x);
    PrefixFits(x);
  }

  /** Reading what was sent gives the part of the payload that the 32-bit length covers. */
  lemma ReadFrame(payload: seq<byte>, tail: seq<byte>)
    ensures var length, s := |payload| % TWO_32, Frame(payload) + tail;
      && Read(s) == Message(payload[..length], payload[length..] + tail)
      && Continued(s) < |s| && s[..Continued(s) + 1] == Encode(length) && Canonical(Encode(length))
  {
    var length := |payload| % TWO_32;
    var prefix := Encode(length);
    EncodedPrefix(length);
    ReadAnnounced(prefix, length, payload, tail);
    assert (prefix + payload + tail)[..|prefix|] == prefix;
  }

  /** A payload survives exactly when its length fits 32 bits. */
  lemma RoundTripIff(payload: seq<byte>, tail: seq<byte>)
    ensures Read(Frame(payload) + tail) == Message(payload, tail) <==> |payload| < 0x1_0000_0000
  {
    ReadFrame(payload, tail);
    var length := |payload| % TWO_32;
    if |payload| < TWO_32 {
      assert payload[..length] == payload && payload[length..] + tail == tail;
    } else {
      assert |payload[..length]| < |payload|;
    }
  }

  /** A message that was read stands in the stream behind a prefix whose digits are its length. */
  lemma ReadSplits(s: seq<byte>)
    requires Read(s).Message?
    ensures var k := Continued(s); var m := Read(s);
      && k < MAX_PREFIX && k < |s| && IsVarint(s[..k + 1]) && Value(s[..k + 1]) == |m.payload|
      && s == s[..k + 1] + m.payload + m.rest
  {
    ContinuedBytes(s);
  }

  /** The stream begins with the sender's own frame of the message read exactly when the prefix is canonical
      and the length fits 32 bits; longer or padded prefixes are accepted although no sender writes them. */
  lemma ReadIsFrameIff(s: seq<byte>)
    requires Read(s).Message?
    ensures var m := Read(s);
      s == Frame(m.payload) + m.rest <==> Canonical(s[..Continued(s) + 1]) && |m.payload| < 0x1_0000_0000
  {
    ReadSplits(s);
    var m := Read(s);
    if Canonical(s[..Continued(s) + 1]) && |m.payload| < TWO_32 {
      FrameOfCanonical(s[..Continued(s) + 1], m.payload);
    }
    if s == Frame(m.payload) + m.rest {
      PrefixOfFrame(s, m.payload, m.rest);
    }
  }

  lemma FrameOfCanonical(prefix: seq<byte>, payload: seq<byte>)
    requires Canonical(prefix) && Value(prefix) == |payload| < TWO_32
    ensures Frame(payload) == prefix + payload
  {
    CanonicalIsEncode(prefix);
    SmallModulo(|payload|);
  }

  lemma SmallModulo(x: nat)
    requires x < TWO_32
    ensures x % TWO_32 == x
  {
  }

  lemma PrefixOfFrame(s: seq<byte>, payload: seq<byte>, rest: seq<byte>)
    requires s == Frame(payload) + rest && Read(s) == Message(payload, rest)
    ensures |payload| < TWO_32 && Continued(s) < |s| && Canonical(s[..Continued(s) + 1])
  {
    ReadFrame(payload, rest);
    RoundTripIff(payload, rest);
  }

  // ---------------------------------------------------------------- the receiver

  /** The decompressed stream and how far it has been read. */
  class Stream {
    const data: seq<byte>
    var pos: nat

    constructor (data: seq<byte>)
      ensures this.data == data && pos == 0
    {
      this.data, pos := data, 0;
    }

    ghost predicate Valid()
      reads this
    {
      pos <= |data|
    }

    ghost function Unread(): seq<byte>
      requires Valid()
      reads this
    {
      data[pos..]
    }
  }

  datatype Prefix = Length(length: nat) | Cut | TooLong

  /** Reads the length prefix.  The buffer is never indexed past its five bytes, and the case of a number
      beyond 64 bits cannot arise. */
  method ReadPrefix(stream: Stream) returns (p: Prefix)
    requires stream.Valid()
    modifies stream
    ensures var s, used := old(stream.Unread()), stream.pos - old(stream.pos);
      && stream.Valid() && 0 <= used <= 5 && used <= |s|
      && (p.Length? ==> IsVarint(s[..used]) && p.length == Value(s[..used]))
      && (p.Cut? ==> used == |s| < 5) && (p.TooLong? ==> used == 5)
      && (!p.Length? ==> Continued(s) >= used)
  {
    ghost var s, start := stream.Unread(), stream.pos;
    var buf := new byte[MAX_PREFIX](_ => 0);
    var n := 0;
    while true
      invariant n < MAX_PREFIX && stream.pos == start + n && n <= |s|
      invariant buf[..n] == s[..n] && forall i :: 0 <= i < n ==> s[i] >= 128
      decreases MAX_PREFIX - n
    {
      if stream.pos == |stream.data| {
        ContinuedAtLeast(s, n);
        return Cut;
      }
      buf[n] := stream.data[stream.pos];
      stream.pos, n := stream.pos + 1, n + 1;
      assert buf[..n] == s[..n];
      var length, used := Uvarint(buf[..n]);
      if used > 0 {
        assert s[..n][..used] == s[..used] && s[used - 1] < 128;
        return Length(length);
      }
      assert forall i :: 0 <= i < n ==> s[i] == s[..n][i];
      if n >= MAX_PREFIX {
        ContinuedAtLeast(s, n);
        return TooLong;
      }
    }
  }

  /** Reads one message. */
  method ReadMessage(stream: Stream) returns (r: Reading)
    requires stream.Valid()
    modifies stream
    ensures stream.Valid() && r == Read(old(stream.Unread()))
    ensures r.Message? ==> stream.Unread() == r.rest
    ensures r.PrefixTooLong? ==> stream.pos == old(stream.pos) + 5
    ensures r.PrefixCut? || r.PayloadCut? ==> stream.Unread() == []
    ensures IsReading(old(stream.Unread()), r)
  {
    ghost var s := stream.Unread();
    ReadIsReading(s);
    var p := ReadPrefix(stream);
    match p
    case Length(length) =>
      ghost var used := |s| - |stream.Unread()|;
      assert s == s[..used] + s[used..] && stream.Unread() == s[used..];
      ReadAfterPrefix(s[..used], s[used..]);
      r := ReadFull(stream, length);
    case Cut =>
      ContinuedBytes(s);
      r := PrefixCut;
    case TooLong =>
      r := PrefixTooLong;
  }

  lemma {:induction false} ContinuedAtLeast(s: seq<byte>, n: nat)
    requires n <= |s| && forall i :: 0 <= i < n ==> s[i] >= 128
    ensures Continued(s) >= n
  {
    if n > 0 {
      ContinuedAtLeast(s[1..], n - 1);
    }
  }

  method ReadFull(stream: Stream, length: nat) returns (r: Reading)
    requires stream.Valid()
    modifies stream
    ensures stream.Valid() && r == Body(old(stream.Unread()), length)
    ensures stream.Unread() == if r.Message? then r.rest else []
  {
    if |stream.data| - stream.pos < length {
      stream.pos := |stream.data|;
      return PayloadCut;
    }
    var at := stream.pos;
    stream.pos := at + length;
    return Message(stream.data[at..at + length], stream.data[at + length..]);
  }

  /** The sender's side. */
  method WriteFrame(payload: seq<byte>) returns (frame: seq<byte>)
    ensures frame == Frame(payload)
    ensures |payload| < 128 ==> frame == [|payload|] + payload
    ensures 128 <= |payload| < 16384 ==> frame == [128 + |payload| % 128, |payload| / 128] + payload
  {
    EncodeSpelled(|payload|);
    var length := |payload| % TWO_32;
    PrefixFits(length);
    var buf := new byte[MAX_PREFIX](_ => 0);
    var n := PutUvarint(buf, length);
    frame := buf[..n] + payload;
  }

  // ---------------------------------------------------------------- whole conversations

  function Frames(payloads: seq<seq<byte>>): seq<byte> {
    if payloads == [] then [] else Frame(payloads[0]) + Frames(payloads[1..])
  }

  /** Reads message after message, up to the given number, as long as that succeeds. */
  function ReadUpTo(read: seq<byte> -> Reading, s: seq<byte>, count: nat): (seq<seq<byte>>, seq<byte>)
    decreases count
  {
    if count == 0 then ([], s) else
      var first := read(s);
      if first.Message? then
        var (more, rest) := ReadUpTo(read, first.rest, count - 1);
        ([first.payload] + more, rest)
      else ([], s)
  }

  function ReadMany(s: seq<byte>, count: nat): (seq<seq<byte>>, seq<byte>) {
    ReadUpTo(Read, s, count)
  }

  lemma FirstOfConversation(first: seq<byte>, more: seq<byte>, count: nat)
    requires count > 0
    ensures var (received, rest) := ReadMany(Frame(first) + more, count);
      && (|first| < TWO_32 ==> received == [first] + ReadMany(more, count - 1).0 && rest == ReadMany(more, count - 1).1)
      && (|first| >= TWO_32 ==> received != [] && |received[0]| < |first|)
  {
    ReadFrame(first, more);
    RoundTripIff(first, more);
  }

  predicate AllFit(payloads: seq<seq<byte>>) {
    forall i :: 0 <= i < |payloads| ==> |payloads[i]| < 0x1_0000_0000
  }

  lemma AllFitFrom(payloads: seq<seq<byte>>)
    requires payloads != []
    ensures AllFit(payloads) <==> |payloads[0]| < TWO_32 && AllFit(payloads[1..])
  {
    if AllFit(payloads[1..]) {
      assert forall i :: 1 <= i < |payloads| ==> payloads[i] == payloads[1..][i - 1];
    }
  }

  lemma SamePair<T>(x: T, a: seq<T>, b: seq<T>)
    ensures [x] + a == [x] + b <==> a == b
  {
    assert ([x] + a)[1..] == a && ([x] + b)[1..] == b;
  }

  /** Everything that was sent is received, in order, and what follows is left unread, exactly when every
      payload's length fits 32 bits. */
  lemma {:induction false} ConversationRoundTripIff(payloads: seq<seq<byte>>, tail: seq<byte>)
    ensures ReadMany(Frames(payloads) + tail, |payloads|) == (payloads, tail) <==> AllFit(payloads)
  {
    if payloads == [] {
      assert Frames(payloads) + tail == tail;
    } else {
      var first, others := payloads[0], payloads[1..];
      var more := Frames(others) + tail;
      assert Frames(payloads) + tail == Frame(first) + more;
      FirstOfConversation(first, more, |payloads|);
      ConversationRoundTripIff(others, tail);
      AllFitFrom(payloads);
      assert payloads == [first] + others;
      SamePair(first, ReadMany(more, |others|).0, others);
    }
  }

  /** Receives up to the given number of messages from a stream. */
  method ReceiveMany(stream: Stream, count: nat) returns (payloads: seq<seq<byte>>)
    requires stream.Valid()
    modifies stream
    ensures payloads == ReadMany(old(stream.Unread()), count).0
    ensures |payloads| == count ==> stream.Valid() && stream.Unread() == ReadMany(old(stream.Unread()), count).1
  {
    payloads := [];
    if count > 0 {
      var r := ReadMessage(stream);
      if r.Message? {
        var more := ReceiveMany(stream, count - 1);
        payloads := [r.payload] + more;
      }
    }
  }
}
