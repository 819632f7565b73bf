/** The memcached response framer: packets with a 24-byte header are cut from a byte stream that
    arrives in pieces. */
module Framers {
  import opened Bytes
  import opened Buffers

  const HEADER_LEN := 24

  /** The body length is the big-endian word at offset 8 of the header. */
  function PacketLen(s: bytes): (n: nat)
    requires |s| >= HEADER_LEN
    ensures n >= HEADER_LEN
  {
    HEADER_LEN + FromBigEndian(s[8..12])
  }

  /** The stream starts with a whole packet. */
  predicate Ready(s: bytes) {
    |s| >= HEADER_LEN && |s| >= PacketLen(s)
  }

  datatype Framing = Framing(packets: seq<bytes>, left: bytes)

  /** The packets of a stream that is there as a whole, and what is left. */
  function Frames(s: bytes): (f: Framing)
    decreases |s|
  {
    if !Ready(s) then Framing([], s)
    else
      var f := Frames(s[PacketLen(s)..]);
      Framing([s[..PacketLen(s)]] + f.packets, f.left)
  }

  /** A packet by itself. */
  predicate Whole(p: bytes) {
    |p| >= HEADER_LEN && |p| == PacketLen(p)
  }

  lemma SameHeader(a: bytes, b: bytes)
    requires |a| >= HEADER_LEN
    ensures PacketLen(a + b) == PacketLen(a)
  {
    assert (a + b)[8..12] == a[8..12];
  }

  predicate AllWhole(ps: seq<bytes>) {
    forall i :: 0 <= i < |ps| ==> Whole(ps[i])
  }

  lemma FirstWhole(s: bytes)
    requires Ready(s)
    ensures Whole(s[..PacketLen(s)])
  {
    var n := PacketLen(s);
    assert s == s[..n] + s[n..];
    SameHeader(s[..n], s[n..]);
  }

  /** Nothing is lost: the packets and the rest are the stream, every packet is whole, and the
      rest is not. */
  lemma {:induction false} FramesExact(s: bytes)
    ensures var f := Frames(s);
            Concat(f.packets) + f.left == s && AllWhole(f.packets) && !Ready(f.left)
    decreases |s|
  {
    hide Ready, PacketLen, Whole, Frames, Concat;
    FramesStep(s);
    if Ready(s) {
      var n := PacketLen(s);
      var g := Frames(s[n..]);
      FramesExact(s[n..]);
      FirstWhole(s);
      ConcatCons(s[..n], g.packets);
      assert s[..n] + Concat(g.packets) + g.left == s[..n] + (Concat(g.packets) + g.left);
      assert s == s[..n] + s[n..];
    } else {
      ConcatNone();
      assert [] + s == s;
    }
  }

  lemma ConcatNone()
    ensures Concat([]) == []
  {
  }

  lemma ConcatCons(p: bytes, ps: seq<bytes>)
    ensures Concat([p] + ps) == p + Concat(ps)
  {
    assert ([p] + ps)[1..] == ps;
  }

  lemma FramesStep(s: bytes)
    ensures Ready(s) ==>
              && HEADER_LEN <= PacketLen(s) <= |s|
              && var f := Frames(s[PacketLen(s)..]);
                 Frames(s) == Framing([s[..PacketLen(s)]] + f.packets, f.left)
    ensures !Ready(s) ==> Frames(s) == Framing([], s)
  {
  }

  /** There is only one way to cut a stream like that. */
  lemma {:induction false} FramesUnique(ps: seq<bytes>, left: bytes)
    requires AllWhole(ps) && !Ready(left)
    ensures Frames(Concat(ps) + left) == Framing(ps, left)
    decreases |ps|
  {
    hide PacketLen, Frames, Ready, Whole, Concat;
    if ps == [] {
      ConcatNone();
      assert [] + left == left;
      FramesStep(left);
    } else {
      var p, rest := ps[0], Concat(ps[1..]) + left;
      assert [p] + ps[1..] == ps;
      ConcatCons(p, ps[1..]);
      assert p + Concat(ps[1..]) + left == p + rest;
      WholeReady(p, rest);
      FramesStep(p + rest);
      assert (p + rest)[..|p|] == p && (p + rest)[|p|..] == rest;
      FramesUnique(ps[1..], left);
    }
  }

  lemma WholeReady(p: bytes, rest: bytes)
    requires Whole(p)
    ensures Ready(p + rest) && PacketLen(p + rest) == |p|
  {
    SameHeader(p, rest);
  }

  /** Framing the start of a stream and then the rest of it, together with what was left, is
      framing the stream. */
  lemma {:induction false} FramesResume(a: bytes, b: bytes)
    ensures var f := Frames(a);
            var g := Frames(f.left + b);
            Frames(a + b) == Framing(f.packets + g.packets, g.left)
    decreases |a|
  {
    hide PacketLen, Frames, Ready;
    FramesStep(a);
    if Ready(a) {
      var n := PacketLen(a);
      StillReady(a, b);
      FramesStep(a + b);
      assert (a + b)[..n] == a[..n] && (a + b)[n..] == a[n..] + b;
      FramesResume(a[n..], b);
      var t := Frames(a[n..]);
      var g := Frames(t.left + b);
      assert [a[..n]] + t.packets + g.packets == [a[..n]] + (t.packets + g.packets);
    } else {
      assert [] + Frames(a + b).packets == Frames(a + b).packets;
    }
  }

  lemma StillReady(a: bytes, b: bytes)
    requires Ready(a)
    ensures Ready(a + b) && PacketLen(a + b) == PacketLen(a)
  {
    SameHeader(a, b);
  }

  /** Reading in pieces: each piece is appended to what was left and framed. */
  function Receive(left: bytes, pieces: seq<bytes>): (f: Framing)
    decreases |pieces|
  {
    if pieces == [] then Framing([], left)
    else
      var f := Frames(left + pieces[0]);
      var g := Receive(f.left, pieces[1..]);
      Framing(f.packets + g.packets, g.left)
  }

  /** However the stream is cut into pieces, the packets and the rest are those of one read. */
  lemma {:induction false} SplitIndependent(left: bytes, pieces: seq<bytes>)
    requires !Ready(left)
    ensures Receive(left, pieces) == Frames(left + Concat(pieces))
    decreases |pieces|
  {
    hide PacketLen, Frames, Ready;
    if pieces == [] {
      FramesStep(left);
      assert left + [] == left;
    } else {
      var p, rest := pieces[0], pieces[1..];
      var f := Frames(left + p);
      FramesExact(left + p);
      SplitIndependent(f.left, rest);
      FramesResume(left + p, Concat(rest));
      assert left + p + Concat(rest) == left + Concat(pieces);
    }
  }

  // ---------- the packets of the protocol ----------

  type u16 = x: int | 0 <= x < 0x1_0000

  /** The header of a response, field by field. */
  datatype Header = Header(
    magic: byte,
    opcode: byte,
    keylen: u16,
    extlen: byte,
    dataType: byte,
    status: u16,
    bodylen: u32,
    tag: u32,
    cas: u64)

  function HeaderBytes(h: Header): (s: bytes) {
    [h.magic, h.opcode] + BigEndian(h.keylen, 2) + [h.extlen, h.dataType] + BigEndian(h.status, 2)
    + BigEndian(h.bodylen, 4) + BigEndian(h.tag, 4) + BigEndian(h.cas, 8)
  }

  datatype Packet = Packet(header: Header, body: bytes)

  /** The header says how long the body is. */
  predicate PacketOk(p: Packet) {
    p.header.bodylen == |p.body|
  }

  function PacketBytes(p: Packet): bytes {
    HeaderBytes(p.header) + p.body
  }

  lemma HeaderShape(h: Header)
    ensures |HeaderBytes(h)| == HEADER_LEN && FromBigEndian(HeaderBytes(h)[8..12]) == h.bodylen
  {
    hide BigEndian, FromBigEndian, Pow256;
    assert HeaderBytes(h)[8..12] == BigEndian(h.bodylen, 4);
    assert h.bodylen < Pow256(4) by { FourBytes(); }
    FromToBigEndian(h.bodylen, 4);
  }

  lemma FourBytes()
    ensures Pow256(1) == 256 && Pow256(2) == 0x1_0000 && Pow256(4) == U32 && Pow256(8) == U64
  {
    assert Pow256(2) == 256 * Pow256(1);
    assert Pow256(4) == 256 * Pow256(3) == 256 * (256 * Pow256(2));
    assert Pow256(8) == 256 * Pow256(7) == 256 * (256 * Pow256(6));
    assert Pow256(6) == 256 * Pow256(5) == 256 * (256 * Pow256(4));
  }

  lemma PacketIsWhole(p: Packet)
    requires PacketOk(p)
    ensures Whole(PacketBytes(p))
  {
    hide HeaderBytes, FromBigEndian;
    HeaderShape(p.header);
    SameHeader(HeaderBytes(p.header), p.body);
  }

  /** A packet of which something is missing is not ready. */
  lemma PartNotReady(p: Packet, part: bytes)
    requires PacketOk(p) && part < PacketBytes(p)
    ensures !Ready(part)
  {
    hide PacketBytes, FromBigEndian;
    PacketIsWhole(p);
    if |part| >= HEADER_LEN {
      var rest := PacketBytes(p)[|part|..];
      assert part + rest == PacketBytes(p);
      SameHeader(part, rest);
    }
  }

  function AllPacketBytes(ps: seq<Packet>): (r: seq<bytes>)
    ensures |r| == |ps|
  {
    seq(|ps|, i requires 0 <= i < |ps| => PacketBytes(ps[i]))
  }

  /** Any packets of the protocol, one after the other, and then a part of another one: exactly
      these packets are cut from the stream and exactly the part is left. */
  lemma PacketsCut(ps: seq<Packet>, next: Packet, part: bytes)
    requires (forall i :: 0 <= i < |ps| ==> PacketOk(ps[i])) && PacketOk(next) && part < PacketBytes(next)
    ensures Frames(Concat(AllPacketBytes(ps)) + part) == Framing(AllPacketBytes(ps), part)
  {
    hide PacketBytes, Frames, Concat, Whole, Ready;
    forall i | 0 <= i < |ps| ensures Whole(AllPacketBytes(ps)[i]) {
      PacketIsWhole(ps[i]);
    }
    PartNotReady(next, part);
    FramesUnique(AllPacketBytes(ps), part);
  }

  /** One packet by itself, and any part of it that is missing something. */
  lemma OnePacket(p: Packet, part: bytes)
    requires PacketOk(p) && part < PacketBytes(p)
    ensures Frames(PacketBytes(p)) == Framing([PacketBytes(p)], [])
    ensures Frames(part) == Framing([], part)
  {
    hide PacketBytes, Frames;
    assert [] < PacketBytes(p) by { PacketIsWhole(p); }
    PacketsCut([p], p, []);
    assert AllPacketBytes([p]) == [PacketBytes(p)];
    assert Concat([PacketBytes(p)]) + [] == PacketBytes(p) by {
      ConcatCons(PacketBytes(p), []);
      assert [PacketBytes(p)] + [] == [PacketBytes(p)];
    }
    PacketsCut([], p, part);
    assert AllPacketBytes([]) == [] && Concat([]) + part == part;
  }

  /** What the framer cuts out is a packet of the protocol. */
  lemma WholeIsPacket(s: bytes) returns (p: Packet)
    requires Whole(s)
    ensures PacketOk(p) && PacketBytes(p) == s
  {
    hide FromBigEndian, BigEndian, Pow256;
    FourBytes();
    var keylen := FieldAt(s, 2, 2);
    var status := FieldAt(s, 6, 2);
    var bodylen := FieldAt(s, 8, 4);
    var tag := FieldAt(s, 12, 4);
    var cas := FieldAt(s, 16, 8);
    p := Packet(Header(s[0], s[1], keylen, s[4], s[5], status, bodylen, tag, cas), s[24..]);
    FieldsJoin(s);
  }

  lemma FieldAt(s: bytes, i: nat, n: nat) returns (x: nat)
    requires i + n <= |s|
    ensures x == FromBigEndian(s[i..i + n]) && x < Pow256(n) && BigEndian(x, n) == s[i..i + n]
  {
    x := FromBigEndian(s[i..i + n]);
    ToFromBigEndian(s[i..i + n]);
  }

  lemma FieldsJoin(s: bytes)
    requires |s| >= 24
    ensures [s[0], s[1]] + s[2..4] + [s[4], s[5]] + s[6..8] + s[8..12] + s[12..16] + s[16..24] + s[24..] == s
  {
  }

  lemma BodyLen(s: bytes, header: bytes)
    requires |s| >= HEADER_LEN && header == s[..HEADER_LEN]
    ensures PacketLen(s) == HEADER_LEN + FromBigEndian(header[8..12])
  {
    assert header[8..12] == s[8..12];
  }

  class Codec {
    const input: Buffer
    var dispatched: seq<bytes>  // packets handed to OnResponsePacket

    constructor (b: Buffer)
      ensures input == b && dispatched == []
    {
      input, dispatched := b, [];
    }

    /** Handles one packet: whatever becomes of it, exactly the packet is consumed. */
    method OnResponsePacket(n: nat)
      requires input.Valid() && Ready(input.Contents()) && n == PacketLen(input.Contents())
      modifies this, input`readIndex, input`writeIndex
      ensures input.Valid()
      ensures dispatched == old(dispatched) + [old(input.Contents())[..n]]
      ensures input.Contents() == old(input.Contents())[n..]
    {
      dispatched := dispatched + [input.store[input.readIndex..input.readIndex + n]];
      assert input.store[input.readIndex..input.readIndex + n] == input.Contents()[..n];
      input.Skip(n);
    }

    method OnCodecMessage()
      requires input.Valid()
      modifies this, input`readIndex, input`writeIndex
      ensures input.Valid()
      ensures var f := Frames(old(input.Contents()));
              dispatched == old(dispatched) + f.packets && input.Contents() == f.left
    {
      hide Frames, PacketLen, FromBigEndian;
      ghost var f := Frames(input.Contents());
      while input.Length() >= HEADER_LEN
        invariant input.Valid()
        invariant var g := Frames(input.Contents());
                  dispatched + g.packets == old(dispatched) + f.packets && g.left == f.left
        decreases |input.Contents()|
      {
        ghost var s := input.Contents();
        FramesStep(s);
        var header := input.store[input.readIndex..input.readIndex + HEADER_LEN];
        assert header == s[..HEADER_LEN];
        var bodylen := FromBigEndian(header[8..12]);
        BodyLen(s, header);
        if input.Length() >= bodylen + HEADER_LEN {
          OnResponsePacket(HEADER_LEN + bodylen);
        } else {
          break;
        }
      }
      FramesStep(input.Contents());
    }

    /** One read from the connection. */
    method OnMessage(piece: bytes)
      requires input.Valid()
      modifies this, input, input.store
      ensures input.Valid() && (input.store == old(input.store) || fresh(input.store))
      ensures var f := Frames(old(input.Contents()) + piece);
              dispatched == old(dispatched) + f.packets && input.Contents() == f.left
    {
      input.Write(piece);
      OnCodecMessage();
    }

    /** Any number of reads. */
    method OnMessages(pieces: seq<bytes>)
      requires input.Valid() && !Ready(input.Contents())
      modifies this, input, input.store
      ensures input.Valid()
      ensures var f := Frames(old(input.Contents()) + Concat(pieces));
              dispatched == old(dispatched) + f.packets && input.Contents() == f.left
    {
      hide Frames;
      ghost var start := input.Contents();
      SplitIndependent(start, pieces);
      var i := 0;
      assert pieces[0..] == pieces;
      while i < |pieces|
        invariant i <= |pieces| && input.Valid()
        invariant input.store == old(input.store) || fresh(input.store)
        invariant var g := Receive(input.Contents(), pieces[i..]);
                  var f := Receive(start, pieces);
                  dispatched + g.packets == old(dispatched) + f.packets && g.left == f.left
      {
        assert pieces[i..][1..] == pieces[i + 1..];
        OnMessage(pieces[i]);
        i := i + 1;
      }
    }
  }
}
