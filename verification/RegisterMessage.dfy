/** The `REGISTER:<my_id>:<peer_id>` datagram: the client's printer, the relay's
    parser, and the node identifiers that the control server issues. */
module RegisterMessage {
  import opened Text
  import opened Wrappers

  const PREFIX := "REGISTER:"

  predicate IsRegister(msg: string) {
    PREFIX <= msg
  }

  /** What the client sends. */
  function Print(myId: string, peerId: string): string {
    PREFIX + myId + ":" + peerId
  }

  /** What the relay reads: strip the prefix, then cut at the first colon.
      `None` when the prefix or the colon is missing. */
  function Parse(msg: string): Option<(string, string)> {
    if !IsRegister(msg) then None
    else
      var rest := msg[|PREFIX|..];
      var i := FirstIndex(rest, ':');
      if i == |rest| then None else Some((rest[..i], rest[i + 1..]))
  }

  lemma PrintInvertsParse(msg: string, a: string, b: string)
    requires Parse(msg) == Some((a, b))
    ensures msg == Print(a, b) && ':' !in a
  {
    var rest := msg[|PREFIX|..];
    assert msg == PREFIX + rest;
    assert rest == a + ":" + b;
  }

  lemma FirstIndexOfCut(a: string, b: string, c: char)
    requires c !in a
    ensures FirstIndex(a + [c] + b, c) == |a|
  {
    var s := a + [c] + b;
    var i := FirstIndex(s, c);
    assert s[|a|] == c && s[..|s|] == s;
    assert s == s[..i] + [c] + s[i + 1..];
    CutIsUnique(a, b, s[..i], s[i + 1..], c);
  }

  /** The parser accepts exactly the printed messages, and yields the one pair
      whose first component has no colon. */
  lemma ParseInvertsPrint(msg: string, a: string, b: string)
    ensures Parse(msg) == Some((a, b)) <==> msg == Print(a, b) && ':' !in a
  {
    if Parse(msg) == Some((a, b)) {
      PrintInvertsParse(msg, a, b);
    }
    if msg == Print(a, b) && ':' !in a {
      FirstIndexOfCut(a, b, ':');
      var rest := a + [':'] + b;
      assert msg == PREFIX + rest && msg[|PREFIX|..] == rest;
      assert rest[..|a|] == a && rest[|a| + 1..] == b;
    }
  }

  /** A printed pair survives the trip exactly when its first id has no colon. */
  lemma RoundTripIffColonFree(myId: string, peerId: string)
    ensures Parse(Print(myId, peerId)) == Some((myId, peerId)) <==> ':' !in myId
  {
    ParseInvertsPrint(Print(myId, peerId), myId, peerId);
  }

  /** What goes over the wire, and what is taken for a data packet. */
  lemma WireForm()
    ensures Print("node-a", "node-b") == "REGISTER:node-a:node-b"
    ensures !IsRegister("hello from A") && !IsRegister("REGISTER") && !IsRegister("register:a:b")
  {
    assert "hello from A"[0] == 'h' && "register:a:b"[0] == 'r' && PREFIX[0] == 'R';
  }

  /** A message with the prefix and no colon after it is a malformed REGISTER. */
  lemma MalformedIff(rest: string)
    ensures IsRegister("REGISTER:" + rest) && (Parse("REGISTER:" + rest) == None <==> ':' !in rest)
  {
    var msg := "REGISTER:" + rest;
    assert msg[|PREFIX|..] == rest;
    assert rest[..|rest|] == rest;
  }

  // ---------------------------------------------------------------- node ids

  const HEX := "0123456789abcdef"

  /** Each byte as two lower-case hexadecimal digits. */
  function Hex(bytes: seq<Byte>): string {
    if bytes == [] then "" else [HEX[bytes[0] / 16], HEX[bytes[0] % 16]] + Hex(bytes[1..])
  }

  function NodeId(bytes: seq<Byte>): string {
    "node-" + Hex(bytes)
  }

  lemma HexDigitsDistinct(i: nat, j: nat)
    requires i < 16 && j < 16 && HEX[i] == HEX[j]
    ensures i == j
  {
  }

  lemma {:induction false} HexShape(bytes: seq<Byte>)
    ensures |Hex(bytes)| == 2 * |bytes|
    ensures forall c :: c in Hex(bytes) ==> c in HEX
  {
    if bytes != [] {
      HexShape(bytes[1..]);
      assert HEX[bytes[0] / 16] in HEX && HEX[bytes[0] % 16] in HEX;
    }
  }

  /** The value of a lower-case hexadecimal digit, by character code. */
  function HexValue(c: char): int {
    if c <= '9' then c as int - '0' as int else c as int - 'a' as int + 10
  }

  lemma HexDigitValue(i: nat)
    requires i < 16
    ensures HexValue(HEX[i]) == i
  {
  }

  /** Each byte reads back from its two digits, the high one first. */
  lemma {:induction false} HexReadsBack(bytes: seq<Byte>, i: nat)
    requires i < |bytes| && |Hex(bytes)| == 2 * |bytes|
    ensures 16 * HexValue(Hex(bytes)[2 * i]) + HexValue(Hex(bytes)[2 * i + 1]) == bytes[i]
  {
    HexShape(bytes[1..]);
    if i == 0 {
      HexDigitValue(bytes[0] / 16);
      HexDigitValue(bytes[0] % 16);
    } else {
      HexReadsBack(bytes[1..], i - 1);
      assert Hex(bytes)[2..] == Hex(bytes[1..]);
    }
  }

  /** An issued id is `node-` and sixteen hexadecimal digits. */
  lemma IssuedIdForm(bytes: seq<Byte>)
    requires |bytes| == 8
    ensures |NodeId(bytes)| == 21 && NodeId(bytes)[..5] == "node-"
    ensures forall i :: 0 <= i < 8 ==>
      16 * HexValue(NodeId(bytes)[5 + 2 * i]) + HexValue(NodeId(bytes)[6 + 2 * i]) == bytes[i]
  {
    HexShape(bytes);
    forall i | 0 <= i < 8
      ensures 16 * HexValue(NodeId(bytes)[5 + 2 * i]) + HexValue(NodeId(bytes)[6 + 2 * i]) == bytes[i]
    {
      HexReadsBack(bytes, i);
    }
  }

  lemma {:induction false} HexIsInjective(x: seq<Byte>, y: seq<Byte>)
    requires Hex(x) == Hex(y)
    ensures x == y
  {
    HexShape(x);
    HexShape(y);
    if x != [] {
      assert Hex(x)[0] == HEX[x[0] / 16] && Hex(y)[0] == HEX[y[0] / 16];
      assert Hex(x)[1] == HEX[x[0] % 16] && Hex(y)[1] == HEX[y[0] % 16];
      HexDigitsDistinct(x[0] / 16, y[0] / 16);
      HexDigitsDistinct(x[0] % 16, y[0] % 16);
      assert x[0] == y[0];
      assert Hex(x)[2..] == Hex(x[1..]) && Hex(y)[2..] == Hex(y[1..]);
      HexIsInjective(x[1..], y[1..]);
      assert x == [x[0]] + x[1..] && y == [y[0]] + y[1..];
    }
  }

  /** Two ids that the control server issued reach the relay's register handler
      unchanged, and the message tells every such pair from every other. */
  lemma IssuedIdsSurvive(mine: seq<Byte>, peer: seq<Byte>, mine': seq<Byte>, peer': seq<Byte>)
    requires |mine| == |peer| == |mine'| == |peer'| == 8
    ensures Parse(Print(NodeId(mine), NodeId(peer))) == Some((NodeId(mine), NodeId(peer)))
    ensures |NodeId(mine)| == 21
    ensures Print(NodeId(mine), NodeId(peer)) == Print(NodeId(mine'), NodeId(peer')) ==> mine == mine' && peer == peer'
  {
    HexShape(mine);
    assert ':' !in HEX;
    assert ':' !in NodeId(mine);
    RoundTripIffColonFree(NodeId(mine), NodeId(peer));
    if Print(NodeId(mine), NodeId(peer)) == Print(NodeId(mine'), NodeId(peer')) {
      HexShape(mine');
      assert ':' !in NodeId(mine');
      RoundTripIffColonFree(NodeId(mine'), NodeId(peer'));
      assert NodeId(mine)[5..] == Hex(mine) && NodeId(mine')[5..] == Hex(mine');
      assert NodeId(peer)[5..] == Hex(peer) && NodeId(peer')[5..] == Hex(peer');
      HexIsInjective(mine, mine');
      HexIsInjective(peer, peer');
    }
  }
}
