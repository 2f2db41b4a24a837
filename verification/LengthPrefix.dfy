// The length-prefixed messages of protobuf/tcp: a size as a base 128 varint, then that
// many bytes. The varint itself follows the "Base 128 Varints" section of the Protocol
// Buffers Encoding specification.
module LengthPrefix {
  import opened Bytes

  function EncodeVarint(n: nat): (s: seq<Byte>)
    ensures |s| >= 1
  {
    if n < 128 then [n] else [128 + n % 128] + EncodeVarint(n / 128)
  }

  // Truncated is the decoder's IndexError, TooLong its error for more than ten bytes.
  datatype Decoded = Value(n: nat, next: nat) | Truncated | TooLong

  function DecodeVarint(data: seq<Byte>): (d: Decoded)
    ensures d.Value? ==> 0 < d.next <= |data|
  {
    DecodeFrom(data, 0, 0, 1)
  }

  function Contribution(b: Byte, weight: nat): nat { (b % 128) * weight }

  // From byte `pos` on, whose bits weigh `weight`.
  function DecodeFrom(data: seq<Byte>, pos: nat, result: nat, weight: nat): (d: Decoded)
    ensures d.Value? ==> pos < d.next <= |data|
    decreases 10 - pos
  {
    if pos >= |data| then Truncated
    else
      var sum := result + Contribution(data[pos], weight);
      if data[pos] < 128 then Value(sum % TWO_64, pos + 1)
      else if 7 * (pos + 1) >= 64 then TooLong
      else DecodeFrom(data, pos + 1, sum, 128 * weight)
  }

  function Power128(k: nat): nat { if k == 0 then 1 else 128 * Power128(k - 1) }

  lemma {:induction false} EncodedLength(n: nat, k: nat)
    requires k >= 1 && n < Power128(k)
    ensures |EncodeVarint(n)| <= k
  {
    if n >= 128 {
      assert n / 128 < Power128(k - 1);
      EncodedLength(n / 128, k - 1);
    }
  }

  lemma TenBytesAreEnough(n: nat)
    requires n < TWO_64
    ensures |EncodeVarint(n)| <= 10
  {
    assert Power128(1) == 128 && Power128(2) == 0x4000 && Power128(3) == 0x20_0000 && Power128(4) == 0x1000_0000;
    assert Power128(6) == 0x400_0000_0000 && Power128(8) == 0x100_0000_0000_0000;
    assert Power128(10) == 0x40_0000_0000_0000_0000;
    EncodedLength(n, 10);
  }

  lemma DecodeContinues(data: seq<Byte>, pos: nat, result: nat, weight: nat)
    requires pos < |data| && pos < 9 && data[pos] >= 128
    ensures DecodeFrom(data, pos, result, weight)
            == DecodeFrom(data, pos + 1, result + Contribution(data[pos], weight), 128 * weight)
  {
    hide Contribution;
  }

  lemma DecodeEnds(data: seq<Byte>, pos: nat, result: nat, weight: nat)
    requires pos < |data| && data[pos] < 128
    ensures DecodeFrom(data, pos, result, weight)
            == Value((result + Contribution(data[pos], weight)) % TWO_64, pos + 1)
  {
    hide Contribution;
  }

  lemma {:induction false} DecodesFrom(before: seq<Byte>, n: nat, rest: seq<Byte>, result: nat, weight: nat)
    requires |before| + |EncodeVarint(n)| <= 10
    ensures DecodeFrom(before + EncodeVarint(n) + rest, |before|, result, weight)
            == Value((result + n * weight) % TWO_64, |before| + |EncodeVarint(n)|)
    decreases n
  {
    hide EncodeVarint, DecodeFrom;
    var data := before + EncodeVarint(n) + rest;
    VarintStarts(before, n, rest);
    if n < 128 {
      DecodeEnds(data, |before|, result, weight);
    } else {
      var b: Byte := 128 + n % 128;
      var sum := result + Contribution(b, weight);
      DecodeContinues(data, |before|, result, weight);
      DecodesFrom(before + [b], n / 128, rest, sum, 128 * weight);
      assert sum + (n / 128) * (128 * weight) == result + n * weight by {
        SplitProduct(n, weight);
        assert b % 128 == n % 128;
      }
    }
  }

  lemma VarintStarts(before: seq<Byte>, n: nat, rest: seq<Byte>)
    ensures var data := before + EncodeVarint(n) + rest;
            if n < 128 then data[|before|] == n && |EncodeVarint(n)| == 1
            else
              var b: Byte := 128 + n % 128;
              && data[|before|] == b
              && data == (before + [b]) + EncodeVarint(n / 128) + rest
              && |EncodeVarint(n)| == 1 + |EncodeVarint(n / 128)|
  {
  }

  lemma SplitProduct(n: nat, weight: nat)
    ensures (n % 128) * weight + (n / 128) * (128 * weight) == n * weight
  {
    var q, r := n / 128, n % 128;
    assert n == q * 128 + r;
    assert (q * 128) * weight == q * (128 * weight);
  }

  // Whatever follows it, a varint decodes to its number and ends where it ends.
  lemma RoundTrip(n: nat, rest: seq<Byte>)
    requires n < TWO_64
    ensures DecodeVarint(EncodeVarint(n) + rest) == Value(n, |EncodeVarint(n)|)
  {
    hide EncodeVarint, DecodeFrom;
    TenBytesAreEnough(n);
    assert [] + EncodeVarint(n) + rest == EncodeVarint(n) + rest;
    DecodesFrom([], n, rest, 0, 1);
  }

  // What decoding makes of data, against what it makes of the first k bytes of it.
  ghost predicate PrefixAgrees(data: seq<Byte>, k: nat, whole: Decoded, part: Decoded) {
    match whole
    case Value(_, next) => part == if k < next then Truncated else whole
    case TooLong => |data| >= 10 && part == if k < 10 then Truncated else TooLong
    case Truncated => part == Truncated
  }

  lemma PrefixEnds(data: seq<Byte>, k: nat, pos: nat, result: nat, weight: nat)
    requires pos <= k <= |data| && pos <= 9
    requires pos == k || pos == 9 || data[pos] < 128
    ensures pos == k ==> DecodeFrom(data[..k], pos, result, weight) == Truncated
    ensures pos == |data| || pos == 9 || data[pos] < 128 ==>
              PrefixAgrees(data, k, DecodeFrom(data, pos, result, weight), DecodeFrom(data[..k], pos, result, weight))
  {
    hide Contribution;
  }

  // Decoding looks at no byte behind the end of the varint and is truncated before it.
  lemma {:induction false} PrefixDecodes(data: seq<Byte>, k: nat, pos: nat, result: nat, weight: nat)
    requires pos <= k <= |data| && pos <= 9
    ensures PrefixAgrees(data, k, DecodeFrom(data, pos, result, weight), DecodeFrom(data[..k], pos, result, weight))
    decreases 10 - pos
  {
    hide Contribution, DecodeFrom;
    if pos == |data| || pos == 9 || data[pos] < 128 {
      PrefixEnds(data, k, pos, result, weight);
    } else {
      var sum := result + Contribution(data[pos], weight);
      DecodeContinues(data, pos, result, weight);
      if pos < k {
        DecodeContinues(data[..k], pos, result, weight);
        PrefixDecodes(data, k, pos + 1, sum, 128 * weight);
      } else {
        PrefixEnds(data, k, pos, result, weight);
        PrefixDecodes(data, |data|, pos + 1, sum, 128 * weight);
      }
    }
  }

  lemma PrefixOfStream(stream: seq<Byte>, k: nat)
    requires k <= |stream|
    ensures PrefixAgrees(stream, k, DecodeVarint(stream), DecodeVarint(stream[..k]))
  {
    PrefixDecodes(stream, k, 0, 0, 1);
  }

  // Self-delimiting: every proper prefix of a length is rejected as incomplete.
  lemma ProperPrefixIsTruncated(n: nat, k: nat)
    requires n < TWO_64 && k < |EncodeVarint(n)|
    ensures DecodeVarint(EncodeVarint(n)[..k]) == Truncated
  {
    RoundTrip(n, []);
    assert EncodeVarint(n) + [] == EncodeVarint(n);
    PrefixOfStream(EncodeVarint(n), k);
  }

  // ---- What the format is ----

  // Seven bits a byte, the least significant first.
  function Payload(s: seq<Byte>): nat {
    if s == [] then 0 else s[0] % 128 + 128 * Payload(s[1..])
  }

  lemma {:induction false} DecodesPayload(data: seq<Byte>, pos: nat, result: nat, weight: nat)
    requires pos <= 9 && pos <= |data|
    ensures match DecodeFrom(data, pos, result, weight)
            case Value(n, next) =>
              && next <= 10 && (forall i :: pos <= i < next - 1 ==> data[i] >= 128) && data[next - 1] < 128
              && n == (result + weight * Payload(data[pos..next])) % TWO_64
            case Truncated => |data| < 10 && forall i :: pos <= i < |data| ==> data[i] >= 128
            case TooLong => |data| >= 10 && forall i :: pos <= i < 10 ==> data[i] >= 128
    decreases 10 - pos
  {
    hide Payload;
    if pos < |data| {
      var b := data[pos];
      if b < 128 {
        OnePayload(b, weight);
        assert data[pos..pos + 1] == [b];
      } else if pos < 9 {
        DecodeContinues(data, pos, result, weight);
        DecodesPayload(data, pos + 1, result + Contribution(b, weight), 128 * weight);
        match DecodeFrom(data, pos, result, weight) {
          case Value(_, next) =>
            MorePayload(b, data[pos + 1..next], weight);
            assert data[pos..next] == [b] + data[pos + 1..next];
          case _ =>
        }
      }
    }
  }

  lemma OnePayload(b: Byte, weight: nat)
    ensures weight * Payload([b]) == Contribution(b, weight)
  {
    assert Payload([b]) == b % 128;
  }

  lemma MorePayload(b: Byte, more: seq<Byte>, weight: nat)
    ensures weight * Payload([b] + more) == Contribution(b, weight) + (128 * weight) * Payload(more)
  {
    assert ([b] + more)[1..] == more;
    var p := Payload(more);
    assert weight * (b % 128 + 128 * p) == weight * (b % 128) + weight * (128 * p);
  }

  // A varint ends at the first byte below 128, which must be among the first ten.
  lemma DecodeMeaning(data: seq<Byte>)
    ensures match DecodeVarint(data)
            case Value(n, k) =>
              && k <= 10 && (forall i :: 0 <= i < k - 1 ==> data[i] >= 128) && data[k - 1] < 128
              && n == Payload(data[..k]) % TWO_64
            case Truncated => |data| < 10 && forall i :: 0 <= i < |data| ==> data[i] >= 128
            case TooLong => |data| >= 10 && forall i :: 0 <= i < 10 ==> data[i] >= 128
  {
    DecodesPayload(data, 0, 0, 1);
  }

  // An encoding is the shortest one of its number: no zero byte at the end.
  lemma {:induction false} EncodeMeaning(n: nat)
    ensures var s := EncodeVarint(n);
            && (forall i :: 0 <= i < |s| - 1 ==> s[i] >= 128) && s[|s| - 1] < 128
            && (|s| > 1 ==> s[|s| - 1] > 0)
            && Payload(s) == n
  {
    if n < 128 {
      assert EncodeVarint(n)[1..] == [];
    } else {
      EncodeMeaning(n / 128);
      var b: Byte, more := 128 + n % 128, EncodeVarint(n / 128);
      assert EncodeVarint(n) == [b] + more;
      hide EncodeVarint;
      assert ([b] + more)[1..] == more && b % 128 == n % 128;
    }
  }

  function Frame(message: seq<Byte>): seq<Byte> {
    EncodeVarint(|message|) + message
  }

  function Frames(messages: seq<seq<Byte>>): seq<Byte> {
    if messages == [] then [] else Frame(messages[0]) + Frames(messages[1..])
  }

  // Stalled is the loop that goes on for ever because the peer has closed the stream:
  // recv then returns no bytes and the decoder keeps raising IndexError.
  datatype SizeRead = Size(n: nat) | Malformed | Stalled
  datatype Received = Message(bytes: seq<Byte>) | Failed(size: SizeRead)

  function Least(a: nat, b: nat, c: nat): nat {
    if a <= b && a <= c then a else if b <= c then b else c
  }

  // A stream socket: what is still to be read, and what was written to it.
  class Connection {
    var unread: seq<Byte>
    var written: seq<Byte>

    constructor (incoming: seq<Byte>)
      ensures unread == incoming && written == []
    {
      unread, written := incoming, [];
    }

    // At most `size` bytes; `arrived` is how many the network has ready.
    method Recv(size: nat, arrived: nat) returns (data: seq<Byte>)
      requires arrived >= 1
      modifies this`unread
      ensures data + unread == old(unread)
      ensures |data| == Least(size, arrived, |old(unread)|)
    {
      var n := Least(size, arrived, |unread|);
      data, unread := unread[..n], unread[n..];
    }

    method SendAll(data: seq<Byte>)
      modifies this`written
      ensures written == old(written) + data
    {
      written := written + data;
    }

    // The loop at the start of Client.recv_message and SimpleHandler.handle: one byte at a
    // time, it does what decoding the whole stream at once would do, and reads no further.
    method ReadSize() returns (result: SizeRead)
      modifies this`unread
      ensures match DecodeVarint(old(unread))
              case Value(n, next) => result == Size(n) && unread == old(unread)[next..]
              case TooLong => result == Malformed && |old(unread)| >= 10 && unread == old(unread)[10..]
              case Truncated => result == Stalled && unread == []
    {
      hide DecodeVarint;
      ghost var stream := unread;
      PrefixOfStream(stream, 0);
      var data: seq<Byte> := [];
      ghost var k := 0;
      while true
        invariant k <= |stream| && data == stream[..k] && unread == stream[k..]
        invariant DecodeVarint(data) == Truncated
        decreases |unread|
      {
        if unread == [] {
          assert data == stream;
          return Stalled;
        }
        var byte := Recv(1, 1);
        data := data + byte;
        k := k + 1;
        assert data == stream[..k];
        PrefixOfStream(stream, k - 1);
        PrefixOfStream(stream, k);
        match DecodeVarint(data) {
          case Value(n, _) => return Size(n);
          case TooLong => return Malformed;
          case Truncated =>
        }
      }
    }

    // Client.send, and the reply at the end of SimpleHandler.handle.
    method SendMessage(message: seq<Byte>)
      modifies this`written
      ensures written == old(written) + Frame(message)
    {
      SendAll(EncodeVarint(|message|) + message);
    }

    // Client.recv_message: the size, then one recv for the body.
    method RecvMessage(arrived: nat) returns (r: Received)
      requires arrived >= 1
      modifies this`unread
      ensures match DecodeVarint(old(unread))
              case Value(n, k) =>
                var rest := old(unread)[k..];
                var len := Least(n, arrived, |rest|);
                r == Message(rest[..len]) && unread == rest[len..]
              case TooLong => r == Failed(Malformed) && unread == old(unread)[10..]
              case Truncated => r == Failed(Stalled) && unread == []
      ensures forall message, rest ::
                old(unread) == Frame(message) + rest && |message| < TWO_64 ==>
                  && r.Message? && r.bytes <= message
                  && (r.bytes == message <==> |message| <= arrived)
                  && (r.bytes == message ==> unread == rest)
    {
      ghost var stream := unread;
      var size := ReadSize();
      forall message, rest | stream == Frame(message) + rest && |message| < TWO_64
        ensures size == Size(|message|) && unread == message + rest
      {
        FrameDecodes(message, rest);
      }
      if !size.Size? {
        return Failed(size);
      }
      ghost var body := unread;
      var data := Recv(size.n, arrived);
      r := Message(data);
      forall message, rest | stream == Frame(message) + rest && |message| < TWO_64
        ensures data <= message && (data == message <==> |message| <= arrived)
        ensures data == message ==> unread == rest
      {
        assert size == Size(|message|) && body == message + rest;
        assert data == (message + rest)[..|data|] == message[..|data|];
      }
    }
  }

  lemma FrameDecodes(message: seq<Byte>, rest: seq<Byte>)
    requires |message| < TWO_64
    ensures var stream, k := Frame(message) + rest, |EncodeVarint(|message|)|;
            DecodeVarint(stream) == Value(|message|, k) && stream[k..] == message + rest
  {
    RoundTrip(|message|, message + rest);
    assert Frame(message) + rest == EncodeVarint(|message|) + (message + rest);
  }

  // Back-to-back frames come out one by one when every body read returns in full.
  method RecvAll(c: Connection, ghost messages: seq<seq<Byte>>, ghost rest: seq<Byte>, count: nat, arrived: nat)
    returns (bodies: seq<seq<Byte>>)
    requires count == |messages| && c.unread == Frames(messages) + rest
    requires arrived >= 1 && forall k :: 0 <= k < |messages| ==> |messages[k]| <= arrived && |messages[k]| < TWO_64
    modifies c`unread
    ensures bodies == messages && c.unread == rest
  {
    bodies := [];
    for i := 0 to count
      invariant bodies == messages[..i]
      invariant c.unread == Frames(messages[i..]) + rest
    {
      assert c.unread == Frame(messages[i]) + (Frames(messages[i + 1..]) + rest) by {
        assert messages[i..][1..] == messages[i + 1..];
        assert Frame(messages[i]) + Frames(messages[i + 1..]) + rest
               == Frame(messages[i]) + (Frames(messages[i + 1..]) + rest);
      }
      var r := c.RecvMessage(arrived);
      bodies := bodies + [r.bytes];
    }
  }
}
