/** How a Homa message is cut into packets. */
module HomaSegments {
  import opened Basics
  import opened Words

  /** The fields of a DATA packet that depend on the message. */
  datatype Packet = Packet(seqNo: nat, messageLength: nat, offset: nat, payload: seq<Byte>)

  /** Packets in a message of `len` bytes: all but the last are full. */
  function NumPackets(len: nat, mss: nat): (n: nat)
    requires mss > 0
    ensures n > 0 <==> len > 0
  {
    if len == 0 then 0 else if len <= mss then 1 else 1 + NumPackets(len - mss, mss)
  }

  /** Where packet `i` starts; past the last packet, the end of the message. */
  function Cut(len: nat, mss: nat, i: nat): (r: nat)
    ensures r <= len
  {
    if i == 0 then 0 else Min(Cut(len, mss, i - 1) + mss, len)
  }

  lemma {:induction false} CutMonotone(len: nat, mss: nat, i: nat, j: nat)
    requires i <= j
    ensures Cut(len, mss, i) <= Cut(len, mss, j)
  {
    if i < j { CutMonotone(len, mss, i, j - 1); }
  }

  function Payload(msg: seq<Byte>, mss: nat, i: nat): seq<Byte> {
    msg[Cut(|msg|, mss, i)..Cut(|msg|, mss, i + 1)]
  }

  /** Packet number `i` of a message; the sequence field is 16 bits wide. */
  function PacketOf(msg: seq<Byte>, mss: nat, i: nat): Packet {
    Packet(i % U16, |msg|, Cut(|msg|, mss, i), Payload(msg, mss, i))
  }

  function Packets(msg: seq<Byte>, mss: nat, i: nat, j: nat): (r: seq<Packet>)
    requires i <= j
    ensures |r| == j - i
    decreases j
  {
    if i == j then [] else Packets(msg, mss, i, j - 1) + [PacketOf(msg, mss, j - 1)]
  }

  function Payloads(ps: seq<Packet>): seq<Byte> {
    if ps == [] then [] else Payloads(ps[..|ps| - 1]) + ps[|ps| - 1].payload
  }

  /** The source's ceiling division. */
  lemma {:induction false} NumPacketsIsCeiling(len: nat, mss: nat)
    requires mss > 0
    ensures (len + mss - 1) / mss == NumPackets(len, mss)
  {
    if len == 0 {
      DivModUnique(mss - 1, mss, 0, mss - 1);
    } else if len <= mss {
      DivModUnique(len + mss - 1, mss, 1, len - 1);
    } else {
      NumPacketsIsCeiling(len - mss, mss);
      var q, r := (len - 1) / mss, (len - 1) % mss;
      assert len - 1 == mss * q + r;
      assert mss * (q + 1) == mss * q + mss;
      DivModUnique(len + mss - 1, mss, q + 1, r);
    }
  }

  lemma {:induction false} CutShift(len: nat, mss: nat, i: nat)
    requires mss <= len
    ensures Cut(len, mss, i + 1) == mss + Cut(len - mss, mss, i)
  {
    if i > 0 { CutShift(len, mss, i - 1); }
  }

  /** Exactly the packets below `NumPackets` start before the end of the message. */
  lemma {:induction false} CutsEnd(len: nat, mss: nat, i: nat)
    requires mss > 0
    ensures Cut(len, mss, i) < len <==> i < NumPackets(len, mss)
    decreases len
  {
    if len > mss && i > 0 {
      CutShift(len, mss, i - 1);
      CutsEnd(len - mss, mss, i - 1);
    } else if i > 0 {
      CutMonotone(len, mss, 1, i);
      assert Cut(len, mss, 1) == Min(mss, len);
    }
  }

  /** The source computes the start of packet `i` as a product. */
  lemma {:induction false} CutIsProduct(len: nat, mss: nat, i: nat)
    requires mss > 0 && i < NumPackets(len, mss)
    ensures Cut(len, mss, i) == i * mss
  {
    if i > 0 {
      CutsEnd(len, mss, i);
      CutsEnd(len, mss, i - 1);
      CutIsProduct(len, mss, i - 1);
      assert i * mss == (i - 1) * mss + mss;
    }
  }

  /** A message of `len` bytes with `i` packets gone needs the remaining ones. */
  lemma {:induction false} RemainingPackets(len: nat, mss: nat, i: nat)
    requires mss > 0 && i <= NumPackets(len, mss)
    ensures NumPackets(len - Cut(len, mss, i), mss) == NumPackets(len, mss) - i
    decreases len
  {
    if i > 0 {
      if len <= mss {
        assert Cut(len, mss, 1) == len;
      } else {
        CutShift(len, mss, i - 1);
        RemainingPackets(len - mss, mss, i - 1);
      }
    }
  }

  lemma {:induction false} PacketsTile(msg: seq<Byte>, mss: nat, i: nat, j: nat)
    requires i <= j
    ensures Cut(|msg|, mss, i) <= Cut(|msg|, mss, j)
    ensures Payloads(Packets(msg, mss, i, j)) == msg[Cut(|msg|, mss, i)..Cut(|msg|, mss, j)]
    decreases j
  {
    if i < j {
      PacketsTile(msg, mss, i, j - 1);
      PayloadsSnoc(Packets(msg, mss, i, j - 1), PacketOf(msg, mss, j - 1));
      SliceJoin(msg, Cut(|msg|, mss, i), Cut(|msg|, mss, j - 1), Cut(|msg|, mss, j));
    }
  }

  lemma PayloadsSnoc(ps: seq<Packet>, p: Packet)
    ensures Payloads(ps + [p]) == Payloads(ps) + p.payload
  {
    assert (ps + [p])[..|ps|] == ps;
  }

  lemma SliceJoin(s: seq<Byte>, a: nat, b: nat, c: nat)
    requires a <= b <= c <= |s|
    ensures s[a..b] + s[b..c] == s[a..c]
  {
  }

  /** One packet: at the offset its field says, never empty, full unless last. */
  lemma PacketShape(msg: seq<Byte>, mss: nat, i: nat)
    requires mss > 0 && i < NumPackets(|msg|, mss)
    ensures var p := PacketOf(msg, mss, i);
            && p.offset == i * mss
            && 0 < |p.payload| <= mss
            && (i + 1 < NumPackets(|msg|, mss) ==> |p.payload| == mss)
            && p.offset + |p.payload| <= |msg|
            && p.payload == msg[p.offset..p.offset + |p.payload|]
  {
    CutsEnd(|msg|, mss, i);
    CutsEnd(|msg|, mss, i + 1);
    CutIsProduct(|msg|, mss, i);
  }

  /** The packets of a message cover it once, without gap or overlap. */
  lemma PacketsCoverMessage(msg: seq<Byte>, mss: nat)
    requires mss > 0
    ensures Payloads(Packets(msg, mss, 0, NumPackets(|msg|, mss))) == msg
  {
    var n := NumPackets(|msg|, mss);
    PacketsTile(msg, mss, 0, n);
    CutsEnd(|msg|, mss, n);
  }

  /** The fields of packet `i` of a message of `len` bytes. */
  predicate IsPacket(p: Packet, len: nat, mss: nat, i: nat) {
    && p.seqNo == i && p.messageLength == len && p.offset == i * mss
    && |p.payload| == Min(mss, len - i * mss)
  }

  predicate Numbered(ps: seq<Packet>, len: nat, mss: nat) {
    forall i :: 0 <= i < |ps| ==> IsPacket(ps[i], len, mss, i)
  }

  lemma {:induction false} PacketsNumbered(msg: seq<Byte>, mss: nat, n: nat)
    requires mss > 0 && n <= NumPackets(|msg|, mss) <= U16
    ensures Numbered(Packets(msg, mss, 0, n), |msg|, mss)
  {
    if n > 0 {
      PacketsNumbered(msg, mss, n - 1);
      PacketFields(msg, mss, n - 1);
    }
  }

  lemma PacketFields(msg: seq<Byte>, mss: nat, i: nat)
    requires mss > 0 && i < NumPackets(|msg|, mss) <= U16
    ensures IsPacket(PacketOf(msg, mss, i), |msg|, mss, i)
  {
    CutIsProduct(|msg|, mss, i);
    assert Cut(|msg|, mss, i + 1) == Min(Cut(|msg|, mss, i) + mss, |msg|);
  }

  lemma {:induction false} PacketsAppend(msg: seq<Byte>, mss: nat, i: nat, j: nat, k: nat)
    requires i <= j <= k
    ensures Packets(msg, mss, i, j) + Packets(msg, mss, j, k) == Packets(msg, mss, i, k)
    decreases k
  {
    if j < k {
      PacketsAppend(msg, mss, i, j, k - 1);
      assert Packets(msg, mss, i, j) + Packets(msg, mss, j, k)
          == (Packets(msg, mss, i, j) + Packets(msg, mss, j, k - 1)) + [PacketOf(msg, mss, k - 1)];
    }
  }
}
