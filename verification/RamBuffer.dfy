/** RAM buffering in front of a data logger: blocks are queued as header plus bytes, then replayed. */
module RamBuffer {
  import opened Arithmetic

  /** One block handed to the logger. */
  datatype Entry = Entry(blockType: byte, block: seq<byte>)

  /** Blocks hold at least their two header bytes and have a 16-bit length. */
  ghost predicate ValidEntry(e: Entry) {
    2 <= |e.block| < U16
  }

  const HEADER := 3

  /** Packed header (type, little-endian length) followed by the block. */
  function Encode(e: Entry): (r: seq<byte>)
    requires |e.block| < U16
    ensures |r| == HEADER + |e.block|
  {
    [e.blockType, |e.block| % 256, |e.block| / 256] + e.block
  }

  function EncodeAll(es: seq<Entry>): seq<byte>
    requires forall i :: 0 <= i < |es| ==> |es[i].block| < U16
  {
    if es == [] then [] else Encode(es[0]) + EncodeAll(es[1..])
  }

  lemma {:induction false} EncodeAppend(es: seq<Entry>, e: Entry)
    requires forall i :: 0 <= i < |es| ==> |es[i].block| < U16
    requires |e.block| < U16
    ensures EncodeAll(es + [e]) == EncodeAll(es) + Encode(e)
    decreases |es|
  {
    if es == [] {
      assert EncodeAll([e]) == Encode(e) + EncodeAll([]);
    } else {
      assert (es + [e])[1..] == es[1..] + [e];
      EncodeAppend(es[1..], e);
      assert EncodeAll(es + [e]) == Encode(es[0]) + (EncodeAll(es[1..]) + Encode(e));
    }
  }

  lemma SubSlice(s: seq<byte>, a: nat, b: nat, i: nat, j: nat)
    requires a <= b <= |s| && i <= j <= b - a
    ensures s[a..b][i..j] == s[a + i..a + j]
  {
    assert forall k :: 0 <= k < j - i ==> s[a..b][i..j][k] == s[a + i + k];
  }

  class Buffered {
    const data: array<byte>
    var offset: nat
    /** Wrap count the logger currently stamps into blocks. */
    var wrap: byte
    /** Every block passed on to the backend, in order. */
    var attempts: seq<Entry>
    ghost var pending: seq<Entry>

    ghost predicate Valid()
      reads this, data
    {
      && offset <= data.Length
      && (forall i :: 0 <= i < |pending| ==> ValidEntry(pending[i]))
      && data[..offset] == EncodeAll(pending)
    }

    constructor (size: nat)
      ensures Valid() && fresh(data) && attempts == [] && pending == [] && data.Length == size
    {
      data := new byte[size];
      offset, wrap, attempts, pending := 0, 0, [], [];
    }

    /** Pass a block on; the logger then stamps its header in place. */
    method WriteFromBuffer(blockType: byte, start: nat, len: nat)
      requires 2 <= len && start + len <= data.Length
      modifies `attempts, `wrap, data
      ensures attempts == old(attempts) + [Entry(blockType, old(data[start..start + len]))]
      ensures forall i :: 0 <= i < data.Length && !(start <= i < start + 2) ==> data[i] == old(data[i])
    {
      attempts := attempts + [Entry(blockType, data[start..start + len])];
      data[start] := wrap;
      data[start + 1] := blockType;
      var next: byte :| true;
      wrap := next;
    }

    /** Replay the entry whose header starts at `at`; the bytes behind it stay as they are. */
    method FlushOne(at: nat, ghost e: Entry, ghost rest: seq<byte>) returns (next: nat)
      requires at <= offset <= data.Length && ValidEntry(e) && data[at..offset] == Encode(e) + rest
      modifies `attempts, `wrap, data
      ensures attempts == old(attempts) + [e]
      ensures at < next <= offset && data[next..offset] == rest
    {
      ghost var s := data[at..offset];
      HeaderAt(s, e, rest);
      var blockType, len := data[at], Le16(data[at + 1], data[at + 2]);
      var start := at + HEADER;
      next := start + len;
      SubSlice(data[..], at, offset, HEADER, HEADER + len);
      SubSlice(data[..], at, offset, HEADER + len, offset - at);
      assert rest == s[HEADER + len..] == data[next..offset];
      WriteFromBuffer(blockType, start, len);
    }

    /** Replay everything that is queued, by parsing the stored headers. */
    method Flush()
      requires Valid()
      modifies `offset, `attempts, `wrap, `pending, data
      ensures Valid() && offset == 0 && pending == []
      ensures attempts == old(attempts) + old(pending)
    {
      var at := 0;
      ghost var done := 0;
      while at < offset
        invariant at <= offset <= data.Length && done <= |pending|
        invariant offset == old(offset) && pending == old(pending)
        invariant forall i :: 0 <= i < |pending| ==> ValidEntry(pending[i])
        invariant data[at..offset] == EncodeAll(pending[done..])
        invariant attempts == old(attempts) + pending[..done]
        decreases offset - at
      {
        ghost var rest := pending[done..];
        at := FlushOne(at, pending[done], EncodeAll(rest[1..]));
        assert rest[1..] == pending[done + 1..];
        done := done + 1;
      }
      assert pending[..done] == pending;
      offset := 0;
      pending := [];
    }

    /** Queue the block if it fits, otherwise flush and pass it on directly. */
    method Write(e: Entry)
      requires Valid() && ValidEntry(e)
      modifies `offset, `attempts, `wrap, `pending, data
      ensures Valid()
      ensures attempts + pending == old(attempts) + old(pending) + [e]
      ensures old(data.Length - offset > HEADER + |e.block|) ==> attempts == old(attempts)
    {
      var space := data.Length - offset;
      if space > HEADER + |e.block| {
        ghost var was := data[..offset];
        var bytes := Encode(e);
        forall i | 0 <= i < |bytes| {
          data[offset + i] := bytes[i];
        }
        EncodeAppend(pending, e);
        assert data[..offset + |bytes|] == was + bytes;
        offset := offset + |bytes|;
        pending := pending + [e];
        return;
      }
      if offset != 0 {
        Flush();
      }
      if offset == 0 {
        EmptyEncoding(pending);
      }
      attempts := attempts + [e];
    }
  }

  /** The stored header gives back the type and the exact extent of the block. */
  lemma HeaderAt(s: seq<byte>, e: Entry, rest: seq<byte>)
    requires ValidEntry(e) && s == Encode(e) + rest
    ensures HEADER <= |s| && s[0] == e.blockType
    ensures var len := Le16(s[1], s[2]); len == |e.block| && HEADER + len <= |s|
    ensures s[HEADER..HEADER + |e.block|] == e.block && s[HEADER + |e.block|..] == rest
  {
  }

  lemma EmptyEncoding(es: seq<Entry>)
    requires forall i :: 0 <= i < |es| ==> |es[i].block| < U16
    ensures EncodeAll(es) == [] <==> es == []
  {
  }

  /** Result of a run of submissions and flushes on the buffer's contents. */
  datatype Op = Submit(e: Entry) | FlushAll

  function Submitted(ops: seq<Op>): seq<Entry> {
    if ops == [] then [] else (if ops[0].Submit? then [ops[0].e] else []) + Submitted(ops[1..])
  }

  /** Any run: the backend calls made so far, then the queue, are exactly the submissions in order. */
  method RunOps(b: Buffered, ops: seq<Op>)
    requires b.Valid()
    requires forall i :: 0 <= i < |ops| && ops[i].Submit? ==> ValidEntry(ops[i].e)
    modifies b, b.data
    ensures b.Valid()
    ensures b.attempts + b.pending == old(b.attempts) + old(b.pending) + Submitted(ops)
  {
    for i := 0 to |ops|
      invariant b.Valid()
      invariant b.attempts + b.pending + Submitted(ops[i..]) == old(b.attempts) + old(b.pending) + Submitted(ops)
    {
      ghost var before := b.attempts + b.pending;
      assert ops[i..][1..] == ops[i + 1..];
      match ops[i]
      case Submit(e) => b.Write(e);
      case FlushAll => b.Flush();
      assert b.attempts + b.pending + Submitted(ops[i + 1..]) == before + Submitted(ops[i..]);
    }
  }
}
