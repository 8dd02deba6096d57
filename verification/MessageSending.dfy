/** Messages as they are sent: what the receiver makes of the header that the sender writes. */
module MessageSending {
  import opened Basics
  import opened MessageFraming
  import opened Connections

  const START_SIZE := 4
  const COMMAND_SIZE := 12
  const CHECKSUM_SIZE := 4

  /** A message to be sent: its command without the terminating zero, and its payload. */
  datatype Outgoing = Outgoing(command: seq<Byte>, data: seq<Byte>)

  /** What a network prescribes: the bytes that start each message, and the checksum of a payload. */
  datatype Network = Network(start: seq<Byte>, checksum: seq<Byte> -> seq<Byte>) {
    ghost predicate Valid() {
      |start| == START_SIZE && forall d :: |checksum(d)| == CHECKSUM_SIZE
    }
  }

  /** A command in its field: cut to its size, or filled up with zeroes. */
  function CommandField(command: seq<Byte>): (field: seq<Byte>)
    ensures |field| == COMMAND_SIZE
  {
    seq(COMMAND_SIZE, i requires 0 <= i < COMMAND_SIZE => if i < |command| then command[i] else 0)
  }

  /** A 32-bit number, least significant byte first. */
  function SizeField(n: nat): (field: seq<Byte>)
    ensures |field| == 4
  {
    [n % 256, n / 256 % 256, n / 65536 % 256, n / 16777216 % 256]
  }

  /** The header of a message; the size is kept in 32 bits. */
  function Header(net: Network, m: Outgoing): (header: seq<Byte>)
    requires net.Valid()
    ensures |header| == HEADER_SIZE
  {
    net.start + CommandField(m.command) + SizeField(|m.data|) + net.checksum(m.data)
  }

  function Sent(net: Network, m: Outgoing): Frame
    requires net.Valid()
  {
    Frame(Header(net, m), m.data)
  }

  /** The bytes of several messages as `PushMessage` sends them. */
  function SentStream(net: Network, ms: seq<Outgoing>): seq<Byte>
    requires net.Valid()
  {
    if ms == [] then [] else Header(net, ms[0]) + ms[0].data + SentStream(net, ms[1..])
  }

  /** Reading the size field gives the size modulo 2^32. */
  lemma SizeReads(header: seq<Byte>, n: nat)
    requires |header| == HEADER_SIZE && header[16] == n % 256 && header[17] == n / 256 % 256
    requires header[18] == n / 65536 % 256 && header[19] == n / 16777216 % 256
    ensures SizeIn(header) == n % 0x1_0000_0000
  {
    var size := header[MESSAGE_SIZE_OFFSET..MESSAGE_SIZE_OFFSET + 4];
    assert size[0] == header[16] && size[1] == header[17] && size[2] == header[18] && size[3] == header[19];
    FourBytes(n);
  }

  lemma FourBytes(n: nat)
    ensures n % 256 + 0x100 * (n / 256 % 256) + 0x1_0000 * (n / 65536 % 256) + 0x100_0000 * (n / 16777216 % 256) ==
            n % 0x1_0000_0000
  {
    var b, c, d := n / 256, n / 65536, n / 16777216;
    assert b / 256 == c && c / 256 == d;
    assert n % 0x1_0000_0000 == n - 0x1_0000_0000 * (n / 0x1_0000_0000);
    assert d / 256 == n / 0x1_0000_0000;
  }

  lemma HeaderSize(net: Network, m: Outgoing)
    requires net.Valid()
    ensures SizeIn(Header(net, m)) == |m.data| % 0x1_0000_0000
  {
    hide SizeIn;
    var h, n := Header(net, m), |m.data|;
    assert h[16..20] == SizeField(n);
    assert h[16] == h[16..20][0] && h[17] == h[16..20][1] && h[18] == h[16..20][2] && h[19] == h[16..20][3];
    SizeReads(h, n);
  }

  /** A message within the limit is framed as it is sent. */
  lemma SentIsFramed(net: Network, m: Outgoing)
    requires net.Valid() && |m.data| <= MAX_PROTOCOL_MESSAGE_LENGTH
    ensures Framed(Sent(net, m))
  {
    hide Header;
    HeaderSize(net, m);
  }

  function AllSent(net: Network, ms: seq<Outgoing>): (fs: seq<Frame>)
    requires net.Valid()
    ensures |fs| == |ms| && forall i :: 0 <= i < |ms| ==> fs[i] == Sent(net, ms[i])
  {
    if ms == [] then [] else [Sent(net, ms[0])] + AllSent(net, ms[1..])
  }

  lemma {:induction false} SentStreamIs(net: Network, ms: seq<Outgoing>)
    requires net.Valid()
    ensures Stream(AllSent(net, ms)) == SentStream(net, ms)
  {
    hide Header;
    if ms != [] {
      SentStreamIs(net, ms[1..]);
      StreamFirst(Sent(net, ms[0]), AllSent(net, ms[1..]));
    }
  }

  /** Messages within the limit are read back, one for one, whatever follows them. */
  lemma ParseSent(net: Network, ms: seq<Outgoing>, s: seq<Byte>)
    requires net.Valid() && forall i :: 0 <= i < |ms| ==> |ms[i].data| <= MAX_PROTOCOL_MESSAGE_LENGTH
    ensures Parse(SentStream(net, ms) + s) == After(AllSent(net, ms), Parse(s))
  {
    hide Parse;
    hide Header;
    hide Framed;
    forall f | f in AllSent(net, ms) ensures Framed(f) {
      var i :| 0 <= i < |ms| && f == AllSent(net, ms)[i];
      SentIsFramed(net, ms[i]);
    }
    SentStreamIs(net, ms);
    ParseStream(AllSent(net, ms), s);
  }

  /** One that is too large, though its size fits in 32 bits, is refused by its header. */
  lemma TooLargeIsRefused(net: Network, m: Outgoing, s: seq<Byte>)
    requires net.Valid() && MAX_PROTOCOL_MESSAGE_LENGTH < |m.data| < 0x1_0000_0000
    ensures Parse(Header(net, m) + s) == Parsed([], true, [])
  {
    hide Header;
    HeaderSize(net, m);
    var all := Header(net, m) + s;
    assert all[..HEADER_SIZE] == Header(net, m);
  }

  // ----- the command

  /** `GetCommand`: the field up to the first zero. */
  function CommandIn(header: seq<Byte>): seq<Byte>
    requires |header| == HEADER_SIZE
  {
    UpToZero(header[START_SIZE..START_SIZE + COMMAND_SIZE])
  }

  function UpToZero(s: seq<Byte>): seq<Byte> {
    if s == [] || s[0] == 0 then [] else [s[0]] + UpToZero(s[1..])
  }

  lemma {:induction false} UpToZeroIs(s: seq<Byte>, n: nat)
    requires n <= |s| && (forall i :: 0 <= i < n ==> s[i] != 0) && (n == |s| || s[n] == 0)
    ensures UpToZero(s) == s[..n]
  {
    if n != 0 {
      UpToZeroIs(s[1..], n - 1);
      assert s[..n] == [s[0]] + s[1..][..n - 1];
    }
  }

  /** The command is read as it was sent, if it fits and has no zero in it. */
  lemma CommandRoundTrip(net: Network, m: Outgoing)
    requires net.Valid() && |m.command| <= COMMAND_SIZE && forall i :: 0 <= i < |m.command| ==> m.command[i] != 0
    ensures CommandIn(Header(net, m)) == m.command
  {
    var field := CommandField(m.command);
    assert Header(net, m)[START_SIZE..START_SIZE + COMMAND_SIZE] == field;
    UpToZeroIs(field, |m.command|);
    assert field[..|m.command|] == m.command;
  }

  // ----- sending and receiving

  /** Messages within the limit that are sent to a new node, and arrive in any chunks, are handed over by it, one
      for one and in order, and it stays connected with nothing left over. */
  method Deliver(net: Network, ms: seq<Outgoing>, chunks: seq<seq<Byte>>) returns (node: Node)
    requires net.Valid() && forall i :: 0 <= i < |ms| ==> |ms[i].data| <= MAX_PROTOCOL_MESSAGE_LENGTH
    requires Joined(chunks) == SentStream(net, ms)
    ensures node.Valid() && node.State() == Parsed(AllSent(net, ms), false, [])
  {
    hide Parse;
    hide Header;
    hide Node.Valid;
    hide Node.State;
    ParseSent(net, ms, []);
    ParseNothing();
    assert SentStream(net, ms) + [] == SentStream(net, ms);
    node := ReceiveAll(chunks);
  }
}
