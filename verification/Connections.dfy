/** Receiving from a peer: messages that fill up piece by piece. */
module Connections {
  import opened Basics
  import opened MessageFraming

  const READ_AHEAD := 256 * 1024

  /** A message being received. */
  class NetMessage {
    var inData: bool
    var hdrbuf: seq<Byte>
    var messageSize: nat
    var nHdrPos: nat
    var vRecv: seq<Byte>
    var nDataPos: nat
    // what the hasher was given
    var hashed: seq<Byte>

    /** A message of acceptable size so far. */
    ghost predicate Valid()
      reads this
    {
      && |hdrbuf| == HEADER_SIZE
      && nDataPos <= |vRecv| && hashed == vRecv[..nDataPos]
      && if inData then
           nHdrPos == HEADER_SIZE && messageSize == SizeIn(hdrbuf) && messageSize <= MAX_PROTOCOL_MESSAGE_LENGTH
           && |vRecv| <= messageSize
         else nHdrPos < HEADER_SIZE && vRecv == []
    }

    /** The bytes of the stream that went into the message. */
    ghost function Taken(): seq<Byte>
      reads this
      requires Valid()
    {
      hdrbuf[..nHdrPos] + vRecv[..nDataPos]
    }

    /** The message received. */
    function Content(): Frame
      reads this
    {
      Frame(hdrbuf, vRecv)
    }

    predicate Complete()
      reads this
    {
      inData && messageSize == nDataPos
    }

    constructor ()
      ensures Valid() && !Complete() && Taken() == []
    {
      inData := false;
      hdrbuf := seq(HEADER_SIZE, i => 0);
      messageSize := 0xFFFF_FFFF;
      nHdrPos := 0;
      vRecv := [];
      nDataPos := 0;
      hashed := [];
    }

    /** Takes bytes of the header; the size decides what happens once it is whole. */
    method ReadHeader(pch: seq<Byte>) returns (handled: int)
      requires Valid() && !inData
      modifies this
      ensures |hdrbuf| == HEADER_SIZE && nDataPos == 0 && vRecv == [] == hashed
      ensures handled == -1 ==> !inData && nHdrPos == HEADER_SIZE && MAX_SIZE < SizeIn(hdrbuf)
      ensures handled != -1 ==> 0 <= handled <= |pch| && (pch != [] ==> 0 < handled)
      ensures handled != -1 && !inData ==> Valid() && handled == |pch|
      ensures handled != -1 && inData ==> nHdrPos == HEADER_SIZE && messageSize == SizeIn(hdrbuf)
      ensures nHdrPos <= HEADER_SIZE && old(nHdrPos) <= nHdrPos && nHdrPos - old(nHdrPos) <= |pch|
      ensures handled != -1 ==> handled == nHdrPos - old(nHdrPos)
      ensures hdrbuf[..nHdrPos] == old(Taken()) + pch[..nHdrPos - old(nHdrPos)]
    {
      var nRemaining := HEADER_SIZE - nHdrPos;
      var nCopy := Min(nRemaining, |pch|);
      hdrbuf := hdrbuf[..nHdrPos] + pch[..nCopy] + hdrbuf[nHdrPos + nCopy..];
      nHdrPos := nHdrPos + nCopy;
      if nHdrPos < HEADER_SIZE {
        return nCopy;
      }
      messageSize := SizeIn(hdrbuf);
      if MAX_SIZE < messageSize {
        return -1;
      }
      inData := true;
      return nCopy;
    }

    /** Takes bytes of the payload. */
    method ReadData(pch: seq<Byte>) returns (handled: nat)
      requires Valid() && inData && !Complete()
      modifies this
      ensures Valid() && inData
      ensures handled <= |pch| && (pch != [] ==> 0 < handled)
      ensures Complete() || handled == |pch|
      ensures Taken() == old(Taken()) + pch[..handled]
    {
      var nRemaining := messageSize - nDataPos;
      var nCopy := Min(nRemaining, |pch|);
      if |vRecv| < nDataPos + nCopy {
        var size := Min(messageSize, nDataPos + nCopy + READ_AHEAD);
        vRecv := vRecv + seq(size - |vRecv|, i => 0);
      }
      hashed := hashed + pch[..nCopy];
      vRecv := vRecv[..nDataPos] + pch[..nCopy] + vRecv[nDataPos + nCopy..];
      nDataPos := nDataPos + nCopy;
      assert vRecv[..nDataPos] == old(vRecv[..nDataPos]) + pch[..nCopy];
      return nCopy;
    }
  }

  /** A complete message is one framed message, its payload buffer neither too long nor too short. */
  lemma CompleteIsFramed(m: NetMessage)
    requires m.Valid() && m.Complete()
    ensures Framed(m.Content()) && m.Taken() == m.Content().header + m.Content().payload
    ensures m.hashed == m.Content().payload
  {
    assert m.hdrbuf[..m.nHdrPos] == m.hdrbuf && m.vRecv[..m.nDataPos] == m.vRecv;
  }

  /** An incomplete one is the rest of a stream. */
  lemma IncompleteIsRest(m: NetMessage)
    requires m.Valid() && !m.Complete()
    ensures Parse(m.Taken()) == Parsed([], false, m.Taken())
  {
    hide SizeIn;
    if m.inData {
      assert m.Taken()[..HEADER_SIZE] == m.hdrbuf;
    }
  }

  lemma TooLarge(header: seq<Byte>, s: seq<Byte>)
    requires |header| == HEADER_SIZE && MAX_PROTOCOL_MESSAGE_LENGTH < SizeIn(header)
    ensures Parse(header + s) == Parsed([], true, [])
  {
    hide SizeIn;
    assert (header + s)[..HEADER_SIZE] == header;
  }

  /** The message takes what it can of the bytes. */
  method Absorb(msg: NetMessage, pch: seq<Byte>) returns (ok: bool, handled: int)
    requires msg.Valid() && !msg.Complete() && pch != []
    modifies msg
    ensures ok ==> msg.Valid() && 0 < handled <= |pch| && msg.Taken() == old(msg.Taken()) + pch[..handled]
    ensures !ok ==> Parse(old(msg.Taken()) + pch) == Parsed([], true, []) && !msg.Complete()
  {
    hide Parse;
    hide SizeIn;
    ghost var was := msg.Taken();
    if !msg.inData {
      handled := msg.ReadHeader(pch);
      ghost var k := if handled < 0 then msg.nHdrPos - old(msg.nHdrPos) else handled;
      if msg.nHdrPos == HEADER_SIZE {
        assert was + pch == msg.hdrbuf + pch[k..] by {
          assert msg.hdrbuf[..msg.nHdrPos] == msg.hdrbuf;
          assert pch == pch[..k] + pch[k..];
        }
        if MAX_PROTOCOL_MESSAGE_LENGTH < SizeIn(msg.hdrbuf) {
          TooLarge(msg.hdrbuf, pch[k..]);
        }
      }
    } else {
      handled := msg.ReadData(pch);
    }
    if handled < 0 {
      return false, handled;
    }
    if msg.inData && MAX_PROTOCOL_MESSAGE_LENGTH < msg.messageSize {
      return false, handled;
    }
    return true, handled;
  }

  ghost predicate AllComplete(ms: seq<NetMessage>)
    reads ms
  {
    forall i :: 0 <= i < |ms| ==> ms[i].Valid() && ms[i].Complete()
  }

  ghost function Contents(ms: seq<NetMessage>): (fs: seq<Frame>)
    reads ms
    ensures |fs| == |ms|
  {
    seq(|ms|, i requires 0 <= i < |ms| reads ms => ms[i].Content())
  }

  ghost predicate Distinct(ms: seq<NetMessage>) {
    forall i, j :: 0 <= i < j < |ms| ==> ms[i] != ms[j]
  }

  lemma Apart(ms: seq<NetMessage>)
    requires Distinct(ms) && ms != []
    ensures ms[|ms| - 1] !in ms[..|ms| - 1]
  {
  }

  lemma ContentsJoined(a: seq<NetMessage>, b: seq<NetMessage>)
    ensures Contents(a + b) == Contents(a) + Contents(b)
    ensures AllComplete(a) && AllComplete(b) ==> AllComplete(a + b)
  {
  }

  /** A peer: messages being received and messages ready to be processed. */
  class Node {
    var vRecvMsg: seq<NetMessage>
    var vProcessMsg: seq<NetMessage>
    var connected: bool

    /** Every message being received but the last is complete. */
    ghost predicate Receiving()
      reads this`vRecvMsg, vRecvMsg
    {
      && Distinct(vRecvMsg)
      && (vRecvMsg != [] ==> AllComplete(vRecvMsg[..|vRecvMsg| - 1]) && vRecvMsg[|vRecvMsg| - 1].Valid())
    }

    /** The messages being received that are complete. */
    ghost function Done(): seq<NetMessage>
      reads this`vRecvMsg, vRecvMsg
    {
      if vRecvMsg == [] || vRecvMsg[|vRecvMsg| - 1].Complete() then vRecvMsg
      else vRecvMsg[..|vRecvMsg| - 1]
    }

    /** The bytes of the incomplete message. */
    ghost function Rest(): seq<Byte>
      reads this`vRecvMsg, vRecvMsg
      requires Receiving()
    {
      if vRecvMsg == [] || vRecvMsg[|vRecvMsg| - 1].Complete() then []
      else vRecvMsg[|vRecvMsg| - 1].Taken()
    }

    lemma RestIsRest()
      requires Receiving()
      ensures Parse(Rest()) == Parsed([], false, Rest()) && AllComplete(Done())
    {
      hide Parse;
      if vRecvMsg == [] || vRecvMsg[|vRecvMsg| - 1].Complete() {
        ParseNothing();
        assert vRecvMsg != [] ==> vRecvMsg == vRecvMsg[..|vRecvMsg| - 1] + [vRecvMsg[|vRecvMsg| - 1]];
      } else {
        IncompleteIsRest(vRecvMsg[|vRecvMsg| - 1]);
      }
    }

    /** The last message takes what it can; it may become complete. */
    method Advance(pch: seq<Byte>) returns (ok: bool, handled: int, ghost fs: seq<Frame>)
      requires Receiving() && vRecvMsg != [] && !vRecvMsg[|vRecvMsg| - 1].Complete() && pch != []
      modifies vRecvMsg[|vRecvMsg| - 1]
      ensures Contents(Done()) == old(Contents(Done())) + fs
      ensures ok ==> Receiving() && 0 < handled <= |pch|
      ensures ok ==> Parse(old(Rest()) + pch) == After(fs, Parse(Rest() + pch[handled..]))
      ensures !ok ==> fs == [] && Parse(old(Rest()) + pch) == Parsed([], true, []) && AllComplete(Done())
      ensures vRecvMsg[|vRecvMsg| - 1].Complete() == (fs != [])
    {
      hide Parse;
      hide SizeIn;
      fs := [];
      ghost var rest := Rest();
      var msg := vRecvMsg[|vRecvMsg| - 1];
      ghost var front := vRecvMsg[..|vRecvMsg| - 1];
      assert Done() == front;
      Apart(vRecvMsg);
      ok, handled := Absorb(msg, pch);
      assert Contents(front) == old(Contents(front)) && AllComplete(front);
      if ok {
        assert rest + pch == msg.Taken() + pch[handled..];
        if msg.Complete() {
          CompleteIsFramed(msg);
          ParseFrame(msg.Content(), pch[handled..]);
          fs := [msg.Content()];
          assert Done() == front + [msg];
          assert [] + pch[handled..] == pch[handled..];
        } else {
          AfterNone(Parse(Rest() + pch[handled..]));
        }
      }
    }

    /** Absorbs a chunk of the stream; false if a message is too large. */
    method ReceiveMsgBytes(pch: seq<Byte>) returns (ok: bool, complete: bool)
      requires Receiving()
      modifies this`vRecvMsg, vRecvMsg
      ensures ok == !Parse(old(Rest()) + pch).failed
      ensures AllComplete(Done()) && Contents(Done()) == old(Contents(Done())) + Parse(old(Rest()) + pch).frames
      ensures ok ==> Receiving() && Rest() == Parse(old(Rest()) + pch).rest
      ensures complete == (Parse(old(Rest()) + pch).frames != [])
      ensures forall m :: m in vRecvMsg ==> m in old(vRecvMsg) || fresh(m)
    {
      hide Parse;
      hide Receiving;
      hide Done;
      hide Rest;
      hide Contents;
      hide AllComplete;
      complete := false;
      ghost var frames: seq<Frame> := [];
      ghost var all := Parse(Rest() + pch);
      ghost var start := Contents(Done());
      var at := 0;
      AfterNone(all);
      assert pch[0..] == pch;
      while at < |pch|
        invariant 0 <= at <= |pch|
        invariant Receiving()
        invariant forall m :: m in vRecvMsg ==> m in old(vRecvMsg) || fresh(m)
        invariant Contents(Done()) == start + frames
        invariant all == After(frames, Parse(Rest() + pch[at..]))
        invariant complete == (frames != [])
      {
        if vRecvMsg == [] || vRecvMsg[|vRecvMsg| - 1].Complete() {
          Push();
        }
        assert vRecvMsg[|vRecvMsg| - 1] in vRecvMsg;
        ghost var left := pch[at..];
        var handled;
        ghost var fs;
        ok, handled, fs := Advance(pch[at..]);
        if !ok {
          return false, complete;
        }
        at := at + handled;
        assert left[handled..] == pch[at..];
        AfterMore(frames, fs, Parse(Rest() + pch[at..]));
        frames := frames + fs;
        if vRecvMsg[|vRecvMsg| - 1].Complete() {
          complete := true;
        }
      }
      ok := true;
      RestIsRest();
      assert Rest() + pch[at..] == Rest();
    }

    /** Starts another message. */
    method Push()
      requires Receiving()
      requires vRecvMsg == [] || vRecvMsg[|vRecvMsg| - 1].Complete()
      modifies this`vRecvMsg
      ensures Receiving() && Rest() == old(Rest()) && Contents(Done()) == old(Contents(Done()))
      ensures vRecvMsg != [] && forall m :: m in vRecvMsg ==> m in old(vRecvMsg) || fresh(m)
      ensures !vRecvMsg[|vRecvMsg| - 1].Complete()
    {
      var msg := new NetMessage();
      vRecvMsg := vRecvMsg + [msg];
    }

    // ----- The socket loop's use of it -----

    ghost predicate Separate()
      reads this`vRecvMsg, this`vProcessMsg
    {
      forall m :: m in vRecvMsg ==> m !in vProcessMsg
    }

    /** Messages to process are complete and no longer being received. */
    ghost predicate Valid()
      reads this, vRecvMsg, vProcessMsg
    {
      && AllComplete(vProcessMsg)
      && (connected ==> Receiving() && Done() == [] && Separate())
    }

    /** What was received: messages handed over in order, and the rest unless the peer was disconnected. */
    ghost function State(): Parsed
      reads this, vRecvMsg, vProcessMsg
      requires Valid()
    {
      Parsed(Contents(vProcessMsg), !connected, if connected then Rest() else [])
    }

    constructor ()
      ensures Valid() && State() == Parsed([], false, []) && vRecvMsg == []
    {
      vRecvMsg, vProcessMsg, connected := [], [], true;
    }

    /** Moves the complete messages at the front to those to be processed. */
    method HandOver()
      requires AllComplete(vProcessMsg) && AllComplete(Done())
      requires connected ==> Receiving() && Separate()
      modifies this`vRecvMsg, this`vProcessMsg
      ensures AllComplete(vProcessMsg)
      ensures Contents(vProcessMsg) == old(Contents(vProcessMsg)) + old(Contents(Done()))
      ensures connected ==> Receiving() && Done() == [] && Rest() == old(Rest()) && Separate()
      ensures forall m :: m in vRecvMsg ==> m in old(vRecvMsg)
    {
      hide Parse;
      hide NetMessage.Valid;
      hide NetMessage.Taken;
      hide Contents;
      ContentsJoined(vProcessMsg, Done());
      var it := 0;
      while it < |vRecvMsg| && vRecvMsg[it].Complete()
        invariant 0 <= it <= |vRecvMsg|
        invariant it <= |Done()|
      {
        it := it + 1;
      }
      ghost var done := Done();
      assert it == |done|;
      assert vRecvMsg[..it] == done;
      assert vRecvMsg == done + vRecvMsg[it..];
      assert vRecvMsg[it..] == [] || vRecvMsg[it..] == [vRecvMsg[|vRecvMsg| - 1]];
      vProcessMsg := vProcessMsg + vRecvMsg[..it];
      vRecvMsg := vRecvMsg[it..];
    }

    /** Receives a chunk unless disconnected; hands over the messages that are complete. */
    method Receive(pch: seq<Byte>)
      requires Valid()
      modifies this, vRecvMsg
      ensures Valid() && State() == Fed(old(State()), pch)
      ensures forall m :: m in vRecvMsg ==> m in old(vRecvMsg) || fresh(m)
    {
      hide Parse;
      hide Receiving;
      hide Done;
      hide Rest;
      hide Contents;
      hide AllComplete;
      if !connected {
        return;
      }
      var ok, notify := ReceiveMsgBytes(pch);
      forall i | 0 <= i < |vProcessMsg|
        ensures unchanged(vProcessMsg[i])
      {
        assert vProcessMsg[i] in vProcessMsg;
      }
      assert AllComplete(vProcessMsg);
      assert Contents(vProcessMsg) == old(Contents(vProcessMsg));
      if !ok {
        connected := false;
      }
      if notify {
        HandOver();
      }
    }
  }

  /** A peer's stream received in any chunks gives the messages of the stream. */
  method ReceiveAll(chunks: seq<seq<Byte>>) returns (node: Node)
    ensures node.Valid() && node.State() == Parse(Joined(chunks))
  {
    hide Parse;
    hide Node.Valid;
    hide Node.State;
    node := new Node();
    for i := 0 to |chunks|
      invariant fresh(node) && node.Valid() && fresh(node.vRecvMsg)
      invariant node.State() == FedAll(chunks[..i])
    {
      assert chunks[..i + 1][..i] == chunks[..i];
      ghost var before := node.vRecvMsg;
      node.Receive(chunks[i]);
      forall k | 0 <= k < |node.vRecvMsg|
        ensures fresh(node.vRecvMsg[k])
      {
        var m := node.vRecvMsg[k];
        assert m in before ==> exists j :: 0 <= j < |before| && before[j] == m;
      }
    }
    assert chunks[..|chunks|] == chunks;
    ChunksDoNotMatter(chunks);
  }
}
