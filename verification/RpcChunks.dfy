/** Cutting a bulk transfer into packets, through a loader buffer of unrelated size. */
module RpcChunks {
  import opened Arithmetic
  import opened Bytes

  datatype Packet = Packet(offset: nat, payload: seq<byte>)

  /** Payload of a packet with `room` free bytes, cut to whole words. */
  function Full(room: nat): nat {
    room - room % 4
  }

  /** The reference: consecutive pieces of `f` bytes, the last one possibly shorter. */
  function Chunks(src: seq<byte>, offset: nat, f: nat): seq<Packet>
    requires f > 0
    decreases |src|
  {
    if src == [] then []
    else if |src| <= f then [Packet(offset, src)]
    else [Packet(offset, src[..f])] + Chunks(src[f..], offset + f, f)
  }

  function Payloads(ps: seq<Packet>): seq<byte> {
    if ps == [] then [] else ps[0].payload + Payloads(ps[1..])
  }

  /** The payloads join up to the source. */
  lemma {:induction false} ChunksJoin(src: seq<byte>, offset: nat, f: nat)
    requires f > 0
    ensures Payloads(Chunks(src, offset, f)) == src
    decreases |src|
  {
    var ps := Chunks(src, offset, f);
    if |src| > f {
      ChunksJoin(src[f..], offset + f, f);
      assert ps[1..] == Chunks(src[f..], offset + f, f);
    } else if src != [] {
      assert ps[1..] == [] && Payloads(ps) == src + Payloads([]);
    }
  }

  /** Bytes `at` to `at + f` of a source, or those up to its end. */
  function Piece(src: seq<byte>, at: nat, f: nat): seq<byte>
    requires at <= |src|
  {
    if at + f <= |src| then src[at..at + f] else src[at..]
  }

  lemma PieceShift(src: seq<byte>, at: nat, f: nat)
    requires f + at <= |src|
    ensures Piece(src[f..], at, f) == Piece(src, f + at, f)
  {
  }

  /** Packet `i` starts `i` full payloads into the transfer, and only the last one may be short. */
  lemma {:induction false} ChunkAt(src: seq<byte>, offset: nat, f: nat, i: nat)
    requires f > 0 && i < |Chunks(src, offset, f)|
    ensures var ps, at := Chunks(src, offset, f), Times(i, f);
      at < |src| && ps[i] == Packet(offset + at, Piece(src, at, f)) && (i + 1 < |ps| ==> |ps[i].payload| == f)
    decreases i
  {
    if |src| > f && i > 0 {
      hide Piece;
      ChunkAt(src[f..], offset + f, f, i - 1);
      PieceShift(src, Times(i - 1, f), f);
    }
  }

  /** What is left to do, given `cur` bytes already in the open packet. */
  function Rest(src: seq<byte>, pos: nat, cur: seq<byte>, start: nat, f: nat): seq<Packet>
    requires f > 0 && |cur| <= pos <= |src|
  {
    Chunks(cur + src[pos..], start + pos - |cur|, f)
  }

  lemma RestEnds(src: seq<byte>, start: nat, f: nat)
    requires f > 0
    ensures Rest(src, 0, [], start, f) == Chunks(src, start, f) && Rest(src, |src|, [], start, f) == []
  {
    assert [] + src[0..] == src && [] + src[|src|..] == [];
  }

  /** Filling the open packet up closes it. */
  lemma RestFull(src: seq<byte>, pos: nat, cur: seq<byte>, start: nat, f: nat, add: nat)
    requires f > 0 && |cur| <= pos && pos + add <= |src| && |cur| + add == f
    ensures Rest(src, pos, cur, start, f) ==
      [Packet(start + pos - |cur|, cur + src[pos..pos + add])] + Rest(src, pos + add, [], start, f)
  {
    var all := cur + src[pos..];
    assert all[..f] == cur + src[pos..pos + add];
    assert all[f..] == [] + src[pos + add..];
    if pos + add == |src| {
      assert all == all[..f];
    }
  }

  /** Adding less than that leaves it open. */
  lemma RestPart(src: seq<byte>, pos: nat, cur: seq<byte>, start: nat, f: nat, add: nat)
    requires f > 0 && |cur| <= pos && pos + add <= |src|
    ensures Rest(src, pos, cur, start, f) == Rest(src, pos + add, cur + src[pos..pos + add], start, f)
  {
    assert cur + src[pos..] == cur + src[pos..pos + add] + src[pos + add..];
  }

  /** The last bytes close the packet they are added to. */
  lemma RestLast(src: seq<byte>, pos: nat, cur: seq<byte>, start: nat, f: nat)
    requires f > 0 && |cur| <= pos < |src| && |cur| + |src| - pos <= f
    ensures Rest(src, pos, cur, start, f) == [Packet(start + pos - |cur|, cur + src[pos..])]
  {
  }

  /** Bytes the open packet takes next: to its last whole word, or to the end of the buffer. */
  function AddCount(room: nat, used: nat, available: nat): (add: nat)
    requires used <= room
  {
    if Full(room - used) < available then Full(room - used) else available
  }

  lemma AddCountFacts(room: nat, used: nat, available: nat, dataLen: nat)
    requires used < Full(room) && used % 4 == 0 && 0 < available <= dataLen
    requires available % 4 == 0 || available == dataLen
    ensures var add := AddCount(room, used, available);
      && 0 < add <= available && used + add <= Full(room)
      && (add % 4 == 0 || add == dataLen)
      && ((available - add) % 4 == 0 || available - add == dataLen - add)
  {
    assert Full(room - used) == Full(room) - used;
  }

  ghost predicate OpenPacket(cur: seq<byte>, pos: nat, room: nat) {
    |cur| <= pos && |cur| % 4 == 0 && |cur| < Full(room)
  }

  /** Add a piece to the open packet, and queue the packet once it is full or the data ends. */
  method AddPiece(ghost src: seq<byte>, ghost start: nat, ghost pos: nat, room: nat, cur: seq<byte>, header: nat,
                  piece: seq<byte>, dataLen: nat, queued: seq<Packet>)
    returns (cur': seq<byte>, open: bool, queued': seq<Packet>)
    requires OpenPacket(cur, pos, room) && pos + dataLen == |src| && header == start + pos - |cur|
    requires 0 < |piece| <= dataLen && piece == src[pos..pos + |piece|]
    requires |cur| + |piece| <= Full(room) && (|piece| % 4 == 0 || |piece| == dataLen)
    ensures OpenPacket(cur', pos + |piece|, room) && (!open || |piece| == dataLen ==> cur' == [])
    ensures open ==> header == start + pos + |piece| - |cur'|
    ensures queued' + Rest(src, pos + |piece|, cur', start, Full(room)) ==
      queued + Rest(src, pos, cur, start, Full(room))
  {
    hide Rest;
    ghost var f := Full(room);
    if room - |cur| - |piece| < 4 || |piece| == dataLen {
      ghost var p := [Packet(header, cur + piece)];
      if |cur| + |piece| == f {
        RestFull(src, pos, cur, start, f, |piece|);
        Assoc(queued, p, Rest(src, pos + |piece|, [], start, f));
      } else {
        assert piece == src[pos..];
        RestLast(src, pos, cur, start, f);
        RestEnds(src, start, f);
        assert queued + p + [] == queued + p;
      }
      return [], false, queued + [Packet(header, cur + piece)];
    }
    RestPart(src, pos, cur, start, f, |piece|);
    return cur + piece, true, queued;
  }

  /** The loader buffer: `remaining` unused bytes from position `at` on. */
  datatype Loader = Loader(buffer: seq<byte>, at: nat, remaining: nat)

  /** The unused bytes are the next ones of the source, in whole words unless they are the last. */
  ghost predicate Loaded(src: seq<byte>, pos: nat, l: Loader) {
    && l.at + l.remaining == |l.buffer| && pos + l.remaining <= |src|
    && (l.remaining % 4 == 0 || pos + l.remaining == |src|)
    && l.buffer[l.at..] == src[pos..pos + l.remaining]
  }

  lemma LoaderStart(src: seq<byte>, l: Loader)
    requires l == Loader([], 0, 0) || l == Loader(src, 0, |src|)
    ensures Loaded(src, 0, l)
  {
  }

  lemma LoadedFacts(src: seq<byte>, pos: nat, l: Loader)
    requires Loaded(src, pos, l)
    ensures l.at + l.remaining == |l.buffer| && pos + l.remaining <= |src|
    ensures l.remaining % 4 == 0 || l.remaining == |src| - pos
  {
  }

  /** Fetch the next part of the source. */
  method Reload(src: seq<byte>, ghost pos: nat, dataLen: nat, n: nat) returns (l: Loader)
    requires pos + dataLen == |src| && 0 < n <= dataLen && (n % 4 == 0 || n == dataLen)
    ensures Loaded(src, pos, l) && l.remaining == n
  {
    l := Loader(src[|src| - dataLen..|src| - dataLen + n], 0, n);
  }

  lemma TakePiece(src: seq<byte>, pos: nat, l: Loader, add: nat)
    requires Loaded(src, pos, l) && add <= l.remaining && (add % 4 == 0 || add == l.remaining)
    ensures l.buffer[l.at..l.at + add] == src[pos..pos + add]
    ensures Loaded(src, pos + add, Loader(l.buffer, l.at + add, l.remaining - add))
  {
    var window := l.buffer[l.at..];
    assert l.buffer[l.at..l.at + add] == window[..add] && l.buffer[l.at + add..] == window[add..];
  }

  /**
   * Queue a whole transfer. Whatever the size of the loader buffer, the packets are the reference
   * chunks. With `faulty`, a loader error or a missing acknowledgement may stop after some of them.
   */
  method DataQueueAutoLoad(src: seq<byte>, start: nat, bufferLen: nat, room: nat, loader: bool, faulty: bool)
    returns (ok: bool, queued: seq<Packet>)
    requires room >= 4
    requires if loader then 0 < bufferLen && bufferLen % 4 == 0 else bufferLen == |src|
    ensures start % 4 != 0 ==> !ok && queued == []
    ensures start % 4 == 0 && !faulty ==> ok
    ensures start % 4 == 0 ==>
      if ok then queued == Chunks(src, start, Full(room)) else queued <= Chunks(src, start, Full(room))
  {
    hide Chunks, Rest, AddCount, Loaded;
    queued := [];
    if start % 4 != 0 {
      return false, [];
    }
    ghost var f, pos: nat := Full(room), 0;
    var dataLen: nat, offset, open := |src|, start, false;
    var cur: seq<byte>, header := [], 0;
    var l := Loader(if loader then [] else src, 0, if loader then 0 else bufferLen);
    LoaderStart(src, l);
    RestEnds(src, start, f);
    while dataLen > 0
      invariant pos + dataLen == |src| && offset == start + pos && (dataLen == 0 || !open ==> cur == [])
      invariant Loaded(src, pos, l)
      invariant OpenPacket(cur, pos, room) && (open ==> header == offset - |cur|)
      invariant queued + Rest(src, pos, cur, start, f) == Chunks(src, start, f)
      decreases dataLen
    {
      if l.remaining == 0 {
        var loadFails: bool := *;
        if faulty && loadFails {
          return false, queued;
        }
        l := Reload(src, pos, dataLen, if bufferLen < dataLen then bufferLen else dataLen);
      }
      if !open {
        var ackMissing: bool := *;
        if faulty && ackMissing {
          return false, queued;
        }
        open, cur, header := true, [], offset;
      }
      var add := AddCount(room, |cur|, l.remaining);
      LoadedFacts(src, pos, l);
      AddCountFacts(room, |cur|, l.remaining, dataLen);
      var piece := l.buffer[l.at..l.at + add];
      TakePiece(src, pos, l, add);
      cur, open, queued := AddPiece(src, start, pos, room, cur, header, piece, dataLen, queued);
      l := Loader(l.buffer, l.at + add, l.remaining - add);
      offset := offset + add;
      dataLen := dataLen - add;
      pos := pos + add;
    }
    ok := true;
  }
}
