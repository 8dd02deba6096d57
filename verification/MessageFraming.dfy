/**
 * The stream of bytes from a peer as a sequence of framed messages: a header of 24 bytes, which
 * gives the size of the payload, then the payload.
 */
module MessageFraming {
  import opened Basics

  const HEADER_SIZE := 24
  const MESSAGE_SIZE_OFFSET := 16
  const MAX_SIZE := 0x02000000
  const MAX_PROTOCOL_MESSAGE_LENGTH := 4 * 1000 * 1000

  /** The payload size in a header, least significant byte first. */
  function SizeIn(header: seq<Byte>): (n: nat)
    requires |header| == HEADER_SIZE
    ensures n < 0x1_0000_0000
  {
    var size := header[MESSAGE_SIZE_OFFSET..MESSAGE_SIZE_OFFSET + 4];
    var b0: nat, b1: nat, b2: nat, b3: nat := size[0], size[1], size[2], size[3];
    b0 + 0x100 * b1 + 0x1_0000 * b2 + 0x100_0000 * b3
  }

  datatype Frame = Frame(header: seq<Byte>, payload: seq<Byte>)

  predicate Framed(f: Frame) {
    && |f.header| == HEADER_SIZE && SizeIn(f.header) == |f.payload|
    && |f.payload| <= MAX_PROTOCOL_MESSAGE_LENGTH
  }

  /** The messages in a stream, and the bytes of the unfinished one unless an oversized header was met. */
  datatype Parsed = Parsed(frames: seq<Frame>, failed: bool, rest: seq<Byte>)

  function Parse(s: seq<Byte>): (p: Parsed)
    ensures forall f :: f in p.frames ==> Framed(f)
    ensures p.failed ==> p.rest == []
  {
    if |s| < HEADER_SIZE then Parsed([], false, s)
    else
      var n := SizeIn(s[..HEADER_SIZE]);
      if MAX_PROTOCOL_MESSAGE_LENGTH < n then Parsed([], true, [])
      else if |s| < HEADER_SIZE + n then Parsed([], false, s)
      else After([Frame(s[..HEADER_SIZE], s[HEADER_SIZE..HEADER_SIZE + n])], Parse(s[HEADER_SIZE + n..]))
  }

  function After(frames: seq<Frame>, p: Parsed): Parsed {
    p.(frames := frames + p.frames)
  }

  lemma AfterNone(p: Parsed)
    ensures After([], p) == p
  {
  }

  lemma AfterMore(fs: seq<Frame>, gs: seq<Frame>, p: Parsed)
    ensures After(fs, After(gs, p)) == After(fs + gs, p)
  {
    assert fs + (gs + p.frames) == fs + gs + p.frames;
  }

  /** The bytes of the messages, one after the other. */
  function Stream(frames: seq<Frame>): seq<Byte> {
    if frames == [] then [] else frames[0].header + frames[0].payload + Stream(frames[1..])
  }

  /** A whole message is read first, whatever follows. */
  lemma ParseFrame(f: Frame, s: seq<Byte>)
    requires Framed(f)
    ensures Parse(f.header + f.payload + s) == After([f], Parse(s))
  {
    var all := f.header + f.payload + s;
    var n := |f.payload|;
    assert all[..HEADER_SIZE] == f.header;
    assert all[HEADER_SIZE..HEADER_SIZE + n] == f.payload;
    assert all[HEADER_SIZE + n..] == s;
  }

  /** Messages put one after the other are read back, whatever follows. */
  lemma {:induction false} ParseStream(frames: seq<Frame>, s: seq<Byte>)
    requires forall f :: f in frames ==> Framed(f)
    ensures Parse(Stream(frames) + s) == After(frames, Parse(s))
    decreases |frames|
  {
    hide Parse;
    if frames == [] {
      assert Stream(frames) + s == s;
      AfterNone(Parse(s));
    } else {
      var f, gs := frames[0], frames[1..];
      ParseStream(gs, s);
      ParseFrame(f, Stream(gs) + s);
      assert Stream(frames) + s == f.header + f.payload + (Stream(gs) + s);
      AfterMore([f], gs, Parse(s));
      assert frames == [f] + gs;
    }
  }

  ghost predicate StartsWithFrame(s: seq<Byte>) {
    && HEADER_SIZE <= |s| && SizeIn(s[..HEADER_SIZE]) <= MAX_PROTOCOL_MESSAGE_LENGTH
    && HEADER_SIZE + SizeIn(s[..HEADER_SIZE]) <= |s|
  }

  lemma FirstFrame(s: seq<Byte>) returns (f: Frame, t: seq<Byte>)
    requires StartsWithFrame(s)
    ensures Framed(f) && s == f.header + f.payload + t && Parse(s) == After([f], Parse(t)) && |t| < |s|
  {
    hide Parse;
    var n := SizeIn(s[..HEADER_SIZE]);
    f := Frame(s[..HEADER_SIZE], s[HEADER_SIZE..HEADER_SIZE + n]);
    t := s[HEADER_SIZE + n..];
    assert s == f.header + f.payload + t;
    ParseFrame(f, t);
  }

  lemma NoFrame(s: seq<Byte>)
    requires !StartsWithFrame(s)
    ensures Parse(s) == Parsed([], false, s) || Parse(s) == Parsed([], true, [])
  {
  }

  lemma StreamFirst(f: Frame, frames: seq<Frame>)
    ensures Stream([f] + frames) == f.header + f.payload + Stream(frames)
  {
    assert ([f] + frames)[1..] == frames;
  }

  /** No byte is lost: the messages and the rest are the stream. */
  lemma {:induction false} NothingLost(s: seq<Byte>)
    ensures var p := Parse(s); !p.failed ==> Stream(p.frames) + p.rest == s
    ensures var p := Parse(s); !p.failed ==> Parse(p.rest) == Parsed([], false, p.rest)
    decreases |s|
  {
    hide Parse;
    hide StartsWithFrame;
    hide Framed;
    if StartsWithFrame(s) {
      var f, t := FirstFrame(s);
      NothingLost(t);
      StreamFirst(f, Parse(t).frames);
    } else {
      NoFrame(s);
    }
  }

  /** What is read of a longer stream starts with what is read of the shorter one. */
  lemma ParseMore(s: seq<Byte>, c: seq<Byte>)
    requires !Parse(s).failed
    ensures Parse(s + c) == After(Parse(s).frames, Parse(Parse(s).rest + c))
  {
    NothingLost(s);
    hide Parse;
    var p := Parse(s);
    ParseStream(p.frames, p.rest + c);
    assert s + c == Stream(p.frames) + (p.rest + c);
  }

  lemma Oversized(s: seq<Byte>, c: seq<Byte>)
    requires !StartsWithFrame(s) && Parse(s).failed
    ensures Parse(s + c) == Parse(s)
  {
    assert (s + c)[..HEADER_SIZE] == s[..HEADER_SIZE];
  }

  /** Nothing is read after a failure. */
  lemma {:induction false} FailureStays(s: seq<Byte>, c: seq<Byte>)
    requires Parse(s).failed
    ensures Parse(s + c) == Parse(s)
    decreases |s|
  {
    hide Parse;
    hide StartsWithFrame;
    hide Framed;
    if StartsWithFrame(s) {
      var f, t := FirstFrame(s);
      FailureStays(t, c);
      ParseFrame(f, t + c);
      assert s + c == f.header + f.payload + (t + c);
    } else {
      Oversized(s, c);
    }
  }

  // ----- Chunks -----

  /** What one more chunk makes of what was read before. */
  function Fed(p: Parsed, c: seq<Byte>): Parsed {
    if p.failed then p else After(p.frames, Parse(p.rest + c))
  }

  function FedAll(chunks: seq<seq<Byte>>): Parsed {
    if chunks == [] then Parsed([], false, [])
    else Fed(FedAll(chunks[..|chunks| - 1]), chunks[|chunks| - 1])
  }

  function Joined(chunks: seq<seq<Byte>>): seq<Byte> {
    if chunks == [] then [] else Joined(chunks[..|chunks| - 1]) + chunks[|chunks| - 1]
  }

  /** A stream read in chunks is read as a whole. */
  lemma {:induction false} ChunksDoNotMatter(chunks: seq<seq<Byte>>)
    ensures FedAll(chunks) == Parse(Joined(chunks))
    decreases |chunks|
  {
    hide Parse;
    if chunks == [] {
      ParseNothing();
    } else {
      var before, c := chunks[..|chunks| - 1], chunks[|chunks| - 1];
      ChunksDoNotMatter(before);
      if Parse(Joined(before)).failed {
        FailureStays(Joined(before), c);
      } else {
        ParseMore(Joined(before), c);
      }
    }
  }

  lemma ParseNothing()
    ensures Parse([]) == Parsed([], false, [])
  {
  }

  /** Two ways of splitting the same stream give the same messages and the same failure. */
  lemma SplitIndependent(chunks: seq<seq<Byte>>, others: seq<seq<Byte>>)
    requires Joined(chunks) == Joined(others)
    ensures FedAll(chunks) == FedAll(others)
  {
    ChunksDoNotMatter(chunks);
    ChunksDoNotMatter(others);
  }
}
