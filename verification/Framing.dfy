// The wire protocol that every server of the repository speaks: bytes outside ^...$ are
// dropped, bytes inside are sent back plus one.
module Framing {

  import opened Bytes

  const CARET: Byte := 94
  const DOLLAR: Byte := 36
  const STAR: Byte := 42

  datatype Mode = WAIT_FOR_MSG | IN_MSG

  function Inc(b: Byte): (c: Byte)
    ensures c == if b == 255 then 0 else b + 1
  {
    (b + 1) % 256
  }

  function Dec(b: Byte): Byte { (b + 255) % 256 }

  function IncAll(s: seq<Byte>): seq<Byte> { seq(|s|, i requires 0 <= i < |s| => Inc(s[i])) }
  function DecAll(s: seq<Byte>): seq<Byte> { seq(|s|, i requires 0 <= i < |s| => Dec(s[i])) }

  // One turn of the switch statement: the next state and the bytes sent back.
  function NextMode(mode: Mode, b: Byte): Mode {
    match mode
    case WAIT_FOR_MSG => if b == CARET then IN_MSG else WAIT_FOR_MSG
    case IN_MSG => if b == DOLLAR then WAIT_FOR_MSG else IN_MSG
  }

  function Answer(mode: Mode, b: Byte): seq<Byte> {
    if mode == IN_MSG && b != DOLLAR then [Inc(b)] else []
  }

  function ModeAfter(mode: Mode, s: seq<Byte>): Mode {
    if s == [] then mode else NextMode(ModeAfter(mode, s[..|s| - 1]), s[|s| - 1])
  }

  function Reply(mode: Mode, s: seq<Byte>): (r: seq<Byte>)
    ensures |r| <= |s|
  {
    if s == [] then []
    else Reply(mode, s[..|s| - 1]) + Answer(ModeAfter(mode, s[..|s| - 1]), s[|s| - 1])
  }

  // All that a connection receives over its lifetime.
  function Stream(input: seq<Byte>): seq<Byte> {
    [STAR] + Reply(WAIT_FOR_MSG, input)
  }

  lemma ByteAppended(mode: Mode, s: seq<Byte>, b: Byte)
    ensures ModeAfter(mode, s + [b]) == NextMode(ModeAfter(mode, s), b)
    ensures Reply(mode, s + [b]) == Reply(mode, s) + Answer(ModeAfter(mode, s), b)
  {
    assert (s + [b])[..|s|] == s;
  }

  lemma Associative(a: seq<Byte>, b: seq<Byte>, c: seq<Byte>)
    ensures (a + b) + c == a + (b + c)
  {
  }

  lemma LastByte(a: seq<Byte>, b: seq<Byte>)
    requires b != []
    ensures b == b[..|b| - 1] + [b[|b| - 1]]
    ensures a + b == (a + b[..|b| - 1]) + [b[|b| - 1]]
  {
  }

  // How the input is cut into chunks does not matter.
  lemma {:induction false} Chunks(mode: Mode, a: seq<Byte>, b: seq<Byte>)
    ensures ModeAfter(mode, a + b) == ModeAfter(ModeAfter(mode, a), b)
    ensures Reply(mode, a + b) == Reply(mode, a) + Reply(ModeAfter(mode, a), b)
  {
    if b == [] {
      assert a + b == a && Reply(mode, a) + [] == Reply(mode, a);
    } else {
      hide Reply, ModeAfter;
      var front, last := b[..|b| - 1], b[|b| - 1];
      var middle := ModeAfter(mode, a);
      Chunks(mode, a, front);
      LastByte(a, b);
      ByteAppended(middle, front, last);
      ByteAppended(mode, a + front, last);
      Associative(Reply(mode, a), Reply(middle, front), Answer(ModeAfter(middle, front), last));
    }
  }

  lemma StreamGrows(received: seq<Byte>, bytes: seq<Byte>)
    ensures Stream(received + bytes) == Stream(received) + Reply(ModeAfter(WAIT_FOR_MSG, received), bytes)
    ensures ModeAfter(WAIT_FOR_MSG, received + bytes) == ModeAfter(ModeAfter(WAIT_FOR_MSG, received), bytes)
  {
    hide Reply, ModeAfter;
    Chunks(WAIT_FOR_MSG, received, bytes);
    Associative([STAR], Reply(WAIT_FOR_MSG, received), Reply(ModeAfter(WAIT_FOR_MSG, received), bytes));
  }

  // ---- What the automaton means ----

  function IndexOf(s: seq<Byte>, b: Byte): (i: nat)
    ensures i <= |s| && b !in s[..i]
    ensures i < |s| ==> s[i] == b
  {
    if s == [] || s[0] == b then 0 else 1 + IndexOf(s[1..], b)
  }

  // Drop to the next ^, then take to the next $ (or the end) plus one, and repeat.
  function Meaning(s: seq<Byte>): seq<Byte>
    decreases |s|
  {
    var start := IndexOf(s, CARET);
    if start == |s| then [] else Inside(s[start + 1..])
  }

  function Inside(s: seq<Byte>): seq<Byte>
    decreases |s|
  {
    var end := IndexOf(s, DOLLAR);
    if end == |s| then IncAll(s) else IncAll(s[..end]) + Meaning(s[end + 1..])
  }

  lemma SplitAt(s: seq<Byte>, b: Byte)
    ensures var i := IndexOf(s, b);
            && s[..i] + s[i..] == s
            && (i == |s| ==> b !in s)
            && (i < |s| ==> s == s[..i] + [b] + s[i + 1..])
  {
    hide IndexOf;
    assert s[..|s|] == s;
  }

  lemma {:induction false} FillerIsDropped(s: seq<Byte>)
    requires CARET !in s
    ensures ModeAfter(WAIT_FOR_MSG, s) == WAIT_FOR_MSG && Reply(WAIT_FOR_MSG, s) == []
  {
    if s != [] {
      FillerIsDropped(s[..|s| - 1]);
    }
  }

  lemma {:induction false} BodyIsAnswered(s: seq<Byte>)
    requires DOLLAR !in s
    ensures ModeAfter(IN_MSG, s) == IN_MSG && Reply(IN_MSG, s) == IncAll(s)
  {
    if s != [] {
      BodyIsAnswered(s[..|s| - 1]);
    }
  }

  lemma SingleByte(mode: Mode, b: Byte)
    ensures ModeAfter(mode, [b]) == NextMode(mode, b) && Reply(mode, [b]) == Answer(mode, b)
  {
    ByteAppended(mode, [], b);
    assert [] + [b] == [b];
  }

  // filler ^ rest
  lemma OpenFrame(filler: seq<Byte>, rest: seq<Byte>)
    requires CARET !in filler
    ensures ModeAfter(WAIT_FOR_MSG, filler + [CARET] + rest) == ModeAfter(IN_MSG, rest)
    ensures Reply(WAIT_FOR_MSG, filler + [CARET] + rest) == Reply(IN_MSG, rest)
  {
    hide Reply, ModeAfter;
    FillerIsDropped(filler);
    ByteAppended(WAIT_FOR_MSG, filler, CARET);
    Chunks(WAIT_FOR_MSG, filler + [CARET], rest);
  }

  // body $ rest
  lemma CloseFrame(body: seq<Byte>, rest: seq<Byte>)
    requires DOLLAR !in body
    ensures ModeAfter(IN_MSG, body + [DOLLAR] + rest) == ModeAfter(WAIT_FOR_MSG, rest)
    ensures Reply(IN_MSG, body + [DOLLAR] + rest) == IncAll(body) + Reply(WAIT_FOR_MSG, rest)
  {
    hide Reply, ModeAfter;
    BodyIsAnswered(body);
    ByteAppended(IN_MSG, body, DOLLAR);
    Chunks(IN_MSG, body + [DOLLAR], rest);
  }

  // The byte-by-byte automaton computes the meaning.
  lemma {:induction false} AutomatonMeaning(s: seq<Byte>)
    ensures Reply(WAIT_FOR_MSG, s) == Meaning(s)
    decreases |s|
  {
    hide Reply, ModeAfter, IndexOf;
    SplitAt(s, CARET);
    var start := IndexOf(s, CARET);
    if start == |s| {
      FillerIsDropped(s);
    } else {
      OpenFrame(s[..start], s[start + 1..]);
      InsideMeaning(s[start + 1..]);
    }
  }

  lemma {:induction false} InsideMeaning(s: seq<Byte>)
    ensures Reply(IN_MSG, s) == Inside(s)
    decreases |s|
  {
    hide Reply, ModeAfter, IndexOf;
    SplitAt(s, DOLLAR);
    var end := IndexOf(s, DOLLAR);
    if end == |s| {
      BodyIsAnswered(s);
    } else {
      CloseFrame(s[..end], s[end + 1..]);
      AutomatonMeaning(s[end + 1..]);
    }
  }

  // ---- Round trip ----

  datatype Frame = Frame(filler: seq<Byte>, message: seq<Byte>)

  function Encode(frames: seq<Frame>): seq<Byte> {
    if frames == [] then []
    else frames[0].filler + [CARET] + (frames[0].message + [DOLLAR] + Encode(frames[1..]))
  }

  function Messages(frames: seq<Frame>): seq<Byte> {
    if frames == [] then [] else frames[0].message + Messages(frames[1..])
  }

  lemma DecUndoesInc(s: seq<Byte>, rest: seq<Byte>)
    ensures DecAll(IncAll(s) + rest) == s + DecAll(rest)
  {
  }

  // What a client gets back for any messages without $ between fillers without ^.
  lemma {:induction false} RoundTrip(frames: seq<Frame>, trailer: seq<Byte>)
    requires CARET !in trailer
    requires forall k :: 0 <= k < |frames| ==> CARET !in frames[k].filler && DOLLAR !in frames[k].message
    ensures DecAll(Reply(WAIT_FOR_MSG, Encode(frames) + trailer)) == Messages(frames)
    ensures ModeAfter(WAIT_FOR_MSG, Encode(frames) + trailer) == WAIT_FOR_MSG
  {
    if frames == [] {
      assert Encode(frames) + trailer == trailer;
      FillerIsDropped(trailer);
    } else {
      var f, rest := frames[0], Encode(frames[1..]) + trailer;
      FirstFrame(f, Encode(frames[1..]), trailer);
      OpenFrame(f.filler, f.message + [DOLLAR] + rest);
      CloseFrame(f.message, rest);
      RoundTrip(frames[1..], trailer);
      DecUndoesInc(f.message, Reply(WAIT_FOR_MSG, rest));
    }
  }

  lemma FirstFrame(f: Frame, rest: seq<Byte>, trailer: seq<Byte>)
    ensures f.filler + [CARET] + (f.message + [DOLLAR] + rest) + trailer
            == f.filler + [CARET] + (f.message + [DOLLAR] + (rest + trailer))
  {
  }
}
