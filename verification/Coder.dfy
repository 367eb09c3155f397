/** Message frames: both MessageEncode overloads of src/logic/coder.cpp, which write through an
    advancing position into a zeroed 1024-byte buffer, and the downlink layout that reads them. */
module Coder {
  import opened Bytes
  import opened Wrappers

  type U32 = x: nat | x < 0x1_0000_0000
  type U16 = x: nat | x < 0x1_0000

  /** An uplink request: ids in host order, content as received. */
  datatype Head = Head(fromId: U32, toId: U32, frameId: U16, kind: byte, retain: byte, content: seq<byte>)

  /** A message as it comes back from the cache. */
  datatype Item = Item(toId: U32, fromId: U32, frameId: U16, kind: byte, retain: byte, content: seq<byte>)

  const BUFFER_SIZE: nat := 1024
  const HEADER_SIZE: nat := 12
  // the longest text that leaves room for the header and the closing NUL
  const MAX_TEXT: nat := 1011

  /** htons and htonl, as bytes in memory. */
  function Net16(n: U16): (b: seq<byte>)
    ensures |b| == 2
  {
    [(n / 256) as byte, (n % 256) as byte]
  }

  function Net32(n: U32): (b: seq<byte>)
    ensures |b| == 4
  {
    Net16(n / 0x1_0000) + Net16(n % 0x1_0000)
  }

  function Host16(b: seq<byte>): U16
    requires |b| == 2
  {
    256 * b[0] as int + b[1] as int
  }

  function Host32(b: seq<byte>): U32
    requires |b| == 4
  {
    0x1_0000 * Host16(b[..2]) + Host16(b[2..])
  }

  /** The C string at the start of some bytes: everything before the first NUL. */
  function CString(b: seq<byte>): (t: seq<byte>)
    ensures |t| <= |b| && 0 !in t
    ensures t == b[..|t|] && (|t| < |b| ==> b[|t|] == 0)
    decreases |b|
  {
    if b == [] || b[0] == 0 then []
    else
      var t := CString(b[1..]);
      assert b[..1 + |t|] == [b[0]] + b[1..][..|t|];
      [b[0]] + t
  }

  /** A frame: addressee first, everything in network order, the text closed by a NUL. */
  function Frame(toId: U32, fromId: U32, frameId: U16, kind: byte, retain: byte, text: seq<byte>): (f: seq<byte>)
    ensures |f| == HEADER_SIZE + |text| + 1
  {
    Net32(toId) + Net32(fromId) + Net16(frameId) + [kind, retain] + text + [0]
  }

  function EncodeHead(h: Head): seq<byte> {
    Frame(h.toId, h.fromId, h.frameId, h.kind, h.retain, CString(h.content))
  }

  /** What the encoder leaves in its zeroed buffer for a text of the cache: the C string, and zeros
      as far as the text goes on behind an inner NUL. */
  function Padded(text: seq<byte>): (t: seq<byte>)
    ensures |t| == |text|
  {
    CString(text) + seq(|text| - |CString(text)|, _ => 0)
  }

  function EncodeItem(m: Item): seq<byte> {
    Frame(m.toId, m.fromId, m.frameId, m.kind, m.retain, Padded(m.content))
  }

  /** A frame fits the encoder's buffer exactly if its text has at most MAX_TEXT bytes. */
  lemma HeadFits(h: Head)
    ensures BUFFER_SIZE == 1024 && MAX_TEXT == 1011
    ensures |EncodeHead(h)| <= BUFFER_SIZE <==> |CString(h.content)| <= 1011
  {
  }

  lemma ItemFits(m: Item)
    ensures |EncodeItem(m)| <= BUFFER_SIZE <==> |m.content| <= 1011
  {
  }

  // ----- Every byte of a frame -----

  /** The first twelve bytes: two ids and the frame number, most significant byte first, type and
      retain. */
  predicate HeaderIs(f: seq<byte>, toId: U32, fromId: U32, frameId: U16, kind: byte, retain: byte) {
    && |f| >= 12
    && f[0] as int == toId / 0x100_0000 && f[1] as int == toId / 0x1_0000 % 0x100
    && f[2] as int == toId / 0x100 % 0x100 && f[3] as int == toId % 0x100
    && f[4] as int == fromId / 0x100_0000 && f[5] as int == fromId / 0x1_0000 % 0x100
    && f[6] as int == fromId / 0x100 % 0x100 && f[7] as int == fromId % 0x100
    && f[8] as int == frameId / 0x100 && f[9] as int == frameId % 0x100
    && f[10] == kind && f[11] == retain
  }

  lemma Net32Bytes(n: U32)
    ensures Net32(n)[0] as int == n / 0x100_0000 && Net32(n)[1] as int == n / 0x1_0000 % 0x100
    ensures Net32(n)[2] as int == n / 0x100 % 0x100 && Net32(n)[3] as int == n % 0x100
  {
    var hi, lo := n / 0x1_0000, n % 0x1_0000;
    assert Net32(n) == [(hi / 256) as byte, (hi % 256) as byte, (lo / 256) as byte, (lo % 256) as byte];
    Quarters(n);
  }

  /** The digits of a number to base 256, from its two halves. */
  lemma Quarters(n: nat)
    ensures n / 0x1_0000 / 256 == n / 0x100_0000
    ensures n % 0x1_0000 / 256 == n / 0x100 % 0x100 && n % 0x1_0000 % 256 == n % 0x100
  {
    var hi, lo := n / 0x1_0000, n % 0x1_0000;
    TopDigit(n, hi, lo);
    LowDigits(n, hi, lo);
  }

  lemma TopDigit(n: nat, hi: nat, lo: nat)
    requires n == 0x1_0000 * hi + lo && lo < 0x1_0000
    ensures n / 0x100_0000 == hi / 256
  {
    var a, b := hi / 256, hi % 256;
    assert n == 0x100_0000 * a + (0x1_0000 * b + lo);
  }

  lemma LowDigits(n: nat, hi: nat, lo: nat)
    requires n == 0x1_0000 * hi + lo && lo < 0x1_0000
    ensures n / 0x100 % 0x100 == lo / 256 && n % 0x100 == lo % 256
  {
    var a, b := lo / 256, lo % 256;
    assert n == 0x100 * (0x100 * hi + a) + b;
    assert n / 0x100 == 0x100 * hi + a;
  }

  lemma FrameBytes(toId: U32, fromId: U32, frameId: U16, kind: byte, retain: byte, text: seq<byte>)
    ensures HeaderIs(Frame(toId, fromId, frameId, kind, retain, text), toId, fromId, frameId, kind, retain)
    ensures Frame(toId, fromId, frameId, kind, retain, text)[12..] == text + [0]
  {
    var f := Frame(toId, fromId, frameId, kind, retain, text);
    Net32Bytes(toId);
    Net32Bytes(fromId);
    assert f == (Net32(toId) + Net32(fromId) + Net16(frameId) + [kind, retain]) + (text + [0]);
    assert f[..4] == Net32(toId) && f[4..8] == Net32(fromId) && f[8..10] == Net16(frameId);
    assert f[0] == f[..4][0] && f[1] == f[..4][1] && f[2] == f[..4][2] && f[3] == f[..4][3];
    assert f[4] == f[4..8][0] && f[5] == f[4..8][1] && f[6] == f[4..8][2] && f[7] == f[4..8][3];
  }

  /** A request's frame, byte by byte: the content up to its first NUL, or all of it, and a NUL. */
  lemma HeadBytes(h: Head)
    ensures HeaderIs(EncodeHead(h), h.toId, h.fromId, h.frameId, h.kind, h.retain)
    ensures var text := EncodeHead(h)[12..|EncodeHead(h)| - 1];
      text <= h.content && 0 !in text && (|text| < |h.content| ==> h.content[|text|] == 0)
    ensures EncodeHead(h)[|EncodeHead(h)| - 1] == 0
  {
    FrameBytes(h.toId, h.fromId, h.frameId, h.kind, h.retain, CString(h.content));
    var f := EncodeHead(h);
    assert f[12..|f| - 1] == f[12..][..|f| - 13] == CString(h.content);
    assert f[|f| - 1] == f[12..][|f| - 13];
  }

  /** The same for a message of the cache whose text is a C string. */
  lemma ItemBytes(m: Item)
    requires 0 !in m.content
    ensures HeaderIs(EncodeItem(m), m.toId, m.fromId, m.frameId, m.kind, m.retain)
    ensures EncodeItem(m)[12..] == m.content + [0]
  {
    PaddedIsStable(m.content);
    FrameBytes(m.toId, m.fromId, m.frameId, m.kind, m.retain, m.content);
  }

  // ----- The encoder of the source -----

  method Store(buf: array<byte>, pos: nat, data: seq<byte>) returns (next: nat)
    requires pos + |data| <= buf.Length
    modifies buf
    ensures next == pos + |data| && buf[..] == Write(old(buf[..]), pos, data)
  {
    forall i | 0 <= i < |data| {
      buf[pos + i] := data[i];
    }
    next := pos + |data|;
  }

  method EncodeFields(toId: U32, fromId: U32, frameId: U16, kind: byte, retain: byte, text: seq<byte>)
    returns (res: seq<byte>)
    requires |text| <= MAX_TEXT
    ensures res == Frame(toId, fromId, frameId, kind, retain, text)
  {
    var buf := new byte[BUFFER_SIZE](_ => 0);
    var pos := Store(buf, 0, Net32(toId));
    assert buf[..pos] == Net32(toId);
    pos := Store(buf, pos, Net32(fromId));
    assert buf[..pos] == Net32(toId) + Net32(fromId);
    pos := Store(buf, pos, Net16(frameId));
    assert buf[..pos] == Net32(toId) + Net32(fromId) + Net16(frameId);
    pos := Store(buf, pos, [kind, retain]);
    assert buf[..pos] == Net32(toId) + Net32(fromId) + Net16(frameId) + [kind, retain];
    pos := Store(buf, pos, text + [0]);
    res := buf[..pos];
    assert res == Net32(toId) + Net32(fromId) + Net16(frameId) + [kind, retain] + (text + [0]);
  }

  /** None where the source would leave its buffer. */
  method MessageEncodeHead(h: Head) returns (res: Option<seq<byte>>)
    ensures res == if |EncodeHead(h)| <= BUFFER_SIZE then Some(EncodeHead(h)) else None
  {
    HeadFits(h);
    if |CString(h.content)| > MAX_TEXT {
      return None;
    }
    var frame := EncodeFields(h.toId, h.fromId, h.frameId, h.kind, h.retain, CString(h.content));
    res := Some(frame);
  }

  /** The C string is copied, but the frame's length is that of the text. */
  method MessageEncodeItem(m: Item) returns (res: Option<seq<byte>>)
    ensures res == if |EncodeItem(m)| <= BUFFER_SIZE then Some(EncodeItem(m)) else None
  {
    ItemFits(m);
    if |m.content| > MAX_TEXT {
      return None;
    }
    var frame := EncodeFields(m.toId, m.fromId, m.frameId, m.kind, m.retain, Padded(m.content));
    res := Some(frame);
  }

  // ----- Reading a frame under the downlink layout -----

  function Parse(f: seq<byte>): Item
    requires |f| >= HEADER_SIZE
  {
    Item(Host32(f[..4]), Host32(f[4..8]), Host16(f[8..10]), f[10], f[11], CString(f[12..]))
  }

  lemma Net16RoundTrip(n: U16)
    ensures Host16(Net16(n)) == n
  {
  }

  lemma Net32RoundTrip(n: U32)
    ensures Host32(Net32(n)) == n
  {
    Net16RoundTrip(n / 0x1_0000);
    Net16RoundTrip(n % 0x1_0000);
    assert Net32(n)[..2] == Net16(n / 0x1_0000) && Net32(n)[2..] == Net16(n % 0x1_0000);
  }

  lemma {:induction false} CStringOfClosed(t: seq<byte>)
    requires 0 !in t
    ensures CString(t + [0]) == t
    decreases |t|
  {
    if t != [] {
      assert (t + [0])[1..] == t[1..] + [0];
      assert t[0] in t;
      CStringOfClosed(t[1..]);
    }
  }

  lemma {:induction false} CStringIsStable(t: seq<byte>)
    requires 0 !in t
    ensures CString(t) == t
    decreases |t|
  {
    if t != [] {
      assert t[0] in t;
      CStringIsStable(t[1..]);
    }
  }

  lemma PaddedIsStable(t: seq<byte>)
    requires 0 !in t
    ensures Padded(t) == t
  {
    CStringIsStable(t);
  }

  /** The receiver gets every field back, with the text cut at its first NUL. */
  lemma FrameRoundTrip(toId: U32, fromId: U32, frameId: U16, kind: byte, retain: byte, text: seq<byte>)
    requires 0 !in text
    ensures Parse(Frame(toId, fromId, frameId, kind, retain, text)) == Item(toId, fromId, frameId, kind, retain, text)
  {
    var f := Frame(toId, fromId, frameId, kind, retain, text);
    Net32RoundTrip(toId);
    Net32RoundTrip(fromId);
    Net16RoundTrip(frameId);
    CStringOfClosed(text);
    assert f[..4] == Net32(toId);
    assert f[4..8] == Net32(fromId);
    assert f[8..10] == Net16(frameId);
    assert f[12..] == text + [0];
  }

  lemma HeadRoundTrip(h: Head)
    ensures Parse(EncodeHead(h)) == Item(h.toId, h.fromId, h.frameId, h.kind, h.retain, CString(h.content))
  {
    FrameRoundTrip(h.toId, h.fromId, h.frameId, h.kind, h.retain, CString(h.content));
  }

  /** The same for a message from the cache, whose text is a C string. */
  lemma ItemRoundTrip(m: Item)
    requires 0 !in m.content
    ensures Parse(EncodeItem(m)) == m
  {
    PaddedIsStable(m.content);
    FrameRoundTrip(m.toId, m.fromId, m.frameId, m.kind, m.retain, m.content);
  }

  /** Two requests share a frame exactly when they agree in everything but what follows the
      first NUL of the content. */
  lemma FramesAreInjective(h1: Head, h2: Head)
    ensures EncodeHead(h1) == EncodeHead(h2) <==> h1.(content := CString(h1.content)) == h2.(content := CString(h2.content))
  {
    HeadRoundTrip(h1);
    HeadRoundTrip(h2);
  }

  lemma ClearSecond(front: seq<byte>, a: byte, b: byte, text: seq<byte>, end: seq<byte>)
    ensures (front + [a, b] + text + end)[|front| + 1 := 0] == front + [a, 0] + text + end
  {
  }

  /** A retry's frame is the original frame with the retain byte cleared. */
  lemma RetryFrame(h: Head, m: Item)
    requires m == Item(h.toId, h.fromId, h.frameId, h.kind, 0, CString(h.content))
    ensures EncodeItem(m) == EncodeHead(h)[11 := 0]
  {
    PaddedIsStable(m.content);
    ClearSecond(Net32(h.toId) + Net32(h.fromId) + Net16(h.frameId), h.kind, h.retain, m.content, [0]);
  }
}
