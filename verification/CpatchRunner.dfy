/** The patch interpreter: reads the patch file through a small buffer and appends to the output. */
module CpatchRunner {
  import opened Arithmetic
  import opened Bytes
  import opened Options
  import opened Cpatch

  const BUFFER_SIZE := 64

  /** Running checksum of a byte string, for any byte-wise update step. */
  function Checksum(step: (nat, byte) -> nat, crc: nat, data: seq<byte>): nat
    decreases |data|
  {
    if data == [] then crc else Checksum(step, step(crc, data[0]), data[1..])
  }

  /** Expected lengths and output checksum, from the patch header. */
  datatype Header = Header(patchLength: nat, outputLength: nat, outputCrc: nat)

  datatype Family = NoFamily | CopyFamily | WriteFamily | PatchFamily | AddrFamily

  /** Copying may be done in pieces. */
  lemma CopySplit(env: Env, m: Machine, n: nat, k: nat)
    requires 0 < k <= n && |env.input| < U32
    ensures Copy(env, m, n) == match Copy(env, m, k) case None => None case Some(m1) => Copy(env, m1, n - k)
  {
    if m.addr + n <= |env.input| {
      var a, b := env.input[m.addr..m.addr + k], env.input[m.addr + k..m.addr + n];
      SliceParts(env.input, m.addr, m.addr + k, m.addr + n);
      Assoc(m.out, a, b);
    }
  }

  lemma SliceParts(s: seq<byte>, a: nat, b: nat, c: nat)
    requires a <= b <= c <= |s|
    ensures s[a..c] == s[a..b] + s[b..c]
  {
  }

  /** Writing may be done in pieces. */
  lemma PutSplit(env: Env, m: Machine, p: seq<byte>, n: nat, k: nat)
    requires 0 < k <= n
    ensures PutFrom(env, m, p, n) ==
      match PutFrom(env, m, p, k) case None => None case Some(m1) => PutFrom(env, m1, Drop(p, k), n - k)
  {
    if n <= |p| {
      var a, b := p[..k], p[k..][..n - k];
      Parted(p, n, k);
      Assoc(m.out, a, b);
    }
  }

  lemma Parted(p: seq<byte>, n: nat, k: nat)
    requires k <= n <= |p|
    ensures p[..n] == p[..k] + p[k..][..n - k]
  {
  }

  lemma DropNone(p: seq<byte>)
    ensures Drop(p, 0) == p
  {
  }

  lemma DropDrop(p: seq<byte>, a: nat, b: nat)
    ensures Drop(Drop(p, a), b) == Drop(p, a + b)
  {
  }

  /** One round of the interpreter. */
  lemma InterpretRound(env: Env, m: Machine, p: seq<byte>, left: int)
    requires left > 0
    ensures Interpret(env, m, p, left) ==
      match Fetch(p, m.addr)
      case None => None
      case Some((op, k)) =>
        match RunOp(env, m, op, Drop(p, k))
        case None => None
        case Some((m1, used)) => Interpret(env, m1, Drop(p, k + used), left - k - used)
  {
    hide Fetch, RunOp;
  }

  lemma InterpretEnd(env: Env, m: Machine, p: seq<byte>, left: int)
    requires left <= 0
    ensures Interpret(env, m, p, left) == Some(m)
  {
  }

  class Runner {
    const env: Env
    /** Contents of the patch file behind its header. */
    const patch: seq<byte>
    var pending: Family
    var operationCount: nat
    var inputOffset: nat
    var patchOffset: nat
    var output: seq<byte>

    ghost predicate Valid() {
      |env.input| < U32
    }

    ghost function State(): Machine
      reads this
    {
      Machine(inputOffset, output)
    }

    ghost function Rest(): seq<byte>
      reads `patchOffset
    {
      Drop(patch, patchOffset)
    }

    constructor (env: Env, patch: seq<byte>)
      requires |env.input| < U32
      ensures Valid() && this.env == env && this.patch == patch
      ensures State() == Machine(0, []) && Rest() == patch && patchOffset == 0
    {
      this.env, this.patch := env, patch;
      pending, operationCount, inputOffset, patchOffset, output := NoFamily, 0, 0, 0, [];
    }

    /** Read from the patch file; the position moves even when the read fails. */
    method Read(n: nat) returns (ok: bool, data: seq<byte>)
      modifies `patchOffset
      ensures patchOffset == old(patchOffset) + n && Rest() == Drop(old(Rest()), n)
      ensures ok <==> n <= |old(Rest())| && patchOffset <= |patch|
      ensures ok ==> data == old(Rest())[..n]
    {
      ok := patchOffset + n <= |patch|;
      data := if ok then patch[patchOffset..patchOffset + n] else [];
      patchOffset := patchOffset + n;
    }

    /** Copy `operationCount` bytes of the input, one buffer at a time. */
    method DoCopy() returns (ok: bool)
      requires Valid()
      modifies `operationCount, `inputOffset, `output
      ensures var r := Copy(env, old(State()), old(operationCount));
        (ok <==> r.Some?) && (ok ==> State() == r.value)
    {
      ghost var start, total := State(), operationCount;
      while operationCount > 0
        invariant Copy(env, start, total) == Copy(env, State(), operationCount)
      {
        var len := if operationCount < BUFFER_SIZE then operationCount else BUFFER_SIZE;
        CopySplit(env, State(), operationCount, len);
        if inputOffset + len > |env.input| || |output| + len > env.room {
          return false;
        }
        output := output + env.input[inputOffset..inputOffset + len];
        inputOffset := (inputOffset + len) % U32;
        operationCount := operationCount - len;
      }
      return true;
    }

    /** Write `operationCount` bytes of the patch file, one buffer at a time. */
    method DoWrite() returns (ok: bool)
      requires Valid()
      modifies `operationCount, `inputOffset, `patchOffset, `output
      ensures var r := PutFrom(env, old(State()), old(Rest()), old(operationCount));
        (ok <==> r.Some?) &&
        (ok ==> State() == r.value && patchOffset == old(patchOffset) + old(operationCount))
    {
      ghost var start, total, file := State(), operationCount, Rest();
      while operationCount > 0
        invariant PutFrom(env, start, file, total) == PutFrom(env, State(), Rest(), operationCount)
        invariant patchOffset + operationCount == old(patchOffset) + total
      {
        var len := if operationCount < BUFFER_SIZE then operationCount else BUFFER_SIZE;
        PutSplit(env, State(), Rest(), operationCount, len);
        var got, data := Read(len);
        if !got || |output| + len > env.room {
          return false;
        }
        output := output + data;
        inputOffset := (inputOffset + len) % U32;
        operationCount := operationCount - len;
      }
      return true;
    }

    /** The write half of a pair, after `used` bytes of lengths. */
    method WriteHalf(ghost used: nat) returns (ok: bool)
      requires Valid() && operationCount > 0
      modifies `operationCount, `inputOffset, `patchOffset, `output
      ensures ok ==> patchOffset > old(patchOffset) && |Rest()| < |old(Rest())|
      ensures NestedPut(env, old(State()), old(Rest()), old(operationCount), used) ==
        if ok then After(Nested(env, State(), Rest()), used + patchOffset - old(patchOffset)) else None
    {
      hide Put, Nested;
      ghost var n, p := operationCount, Rest();
      ok := DoWrite();
      if ok {
        assert Rest() == p[n..];
      }
    }

    /** One copy/write pair. A length byte that cannot be read keeps its previous value. */
    method CpatchRound() returns (ok: bool, done: bool)
      requires Valid()
      modifies `operationCount, `inputOffset, `patchOffset, `output
      ensures !ok ==> Nested(env, old(State()), old(Rest())) == None
      ensures ok ==> patchOffset >= old(patchOffset)
      ensures ok && done ==>
        Nested(env, old(State()), old(Rest())) == Some((State(), patchOffset - old(patchOffset)))
      ensures ok && !done ==>
        Nested(env, old(State()), old(Rest())) == After(Nested(env, State(), Rest()), patchOffset - old(patchOffset))
      ensures ok && !done ==> |Rest()| < |old(Rest())|
    {
      hide Copy, PutFrom, NestedPut;
      ghost var p := Rest();
      var len := env.stale;
      var got, data := Read(1);
      if got {
        len := data[0];
      }
      if len == 0 {
        return true, true;
      }
      operationCount := len % 128;
      ok := DoCopy();
      if !ok {
        return false, false;
      }
      ghost var used := 1;
      if len >= 128 {
        operationCount := 1;
      } else {
        got, data := Read(1);
        DropDrop(p, 1, 1);
        used := 2;
        if got {
          len := data[0];
        }
        if len == 0 {
          return true, true;
        }
        operationCount := len;
      }
      ok := WriteHalf(used);
      done := false;
    }

    /** Nested copy/write pairs up to the terminating zero. */
    method DoCpatch() returns (ok: bool)
      requires Valid()
      modifies `operationCount, `inputOffset, `patchOffset, `output
      ensures var r := Nested(env, old(State()), old(Rest()));
        (ok <==> r.Some?) &&
        (ok ==> State() == r.value.0 && patchOffset == old(patchOffset) + r.value.1)
    {
      hide Nested;
      var done := false;
      while !done
        invariant patchOffset >= old(patchOffset)
        invariant Nested(env, old(State()), old(Rest())) ==
          if done then Some((State(), patchOffset - old(patchOffset)))
          else After(Nested(env, State(), Rest()), patchOffset - old(patchOffset))
        decreases !done, |Rest()|
      {
        ok, done := CpatchRound();
        if !ok {
          return;
        }
      }
      return true;
    }

    /** The operation that the fetched fields stand for. */
    ghost function Pending(): Option<Op>
      reads this
    {
      match pending
      case CopyFamily => Some(CopyOp(operationCount))
      case WriteFamily => Some(WriteOp(operationCount))
      case AddrFamily => Some(AddrOp(operationCount))
      case PatchFamily => Some(PatchOp)
      case NoFamily => None
    }

    /** Read the next opcode and its arguments. */
    method OpcodeFetch() returns (ok: bool)
      requires Valid()
      modifies `pending, `operationCount, `patchOffset
      ensures var r := Fetch(old(Rest()), inputOffset);
        (ok <==> r.Some?) &&
        (ok ==> Pending() == Some(r.value.0) && patchOffset == old(patchOffset) + r.value.1)
    {
      var data;
      ok, data := Read(1);
      if !ok {
        return;
      }
      var code, low := data[0] / 16, data[0] % 16;
      var k := ArgBytes(code);
      if k > 0 {
        ok, data := Read(k);
        if !ok {
          return;
        }
      } else {
        data := [];
      }
      assert data == old(Rest())[1..1 + k];
      var op := Decode(code, low, Le(data), inputOffset);
      match op {
        case None => ok := false;
        case Some(CopyOp(n)) => pending, operationCount := CopyFamily, n;
        case Some(WriteOp(n)) => pending, operationCount := WriteFamily, n;
        case Some(AddrOp(a)) => pending, operationCount := AddrFamily, a;
        case Some(PatchOp) => pending := PatchFamily;
      }
    }

    /** Run the fetched operation. */
    method OpcodeRun() returns (ok: bool)
      requires Valid() && Pending().Some?
      modifies `operationCount, `inputOffset, `patchOffset, `output
      ensures var r := RunOp(env, old(State()), old(Pending()).value, old(Rest()));
        (ok <==> r.Some?) &&
        (ok ==> State() == r.value.0 && patchOffset == old(patchOffset) + r.value.1)
    {
      ok := true;
      match pending {
        case AddrFamily => inputOffset := operationCount;
        case CopyFamily =>
          if operationCount == 0 {
            return false;
          }
          ok := DoCopy();
        case WriteFamily =>
          if operationCount == 0 {
            return false;
          }
          ok := DoWrite();
        case PatchFamily => ok := DoCpatch();
        case NoFamily => ok := false;
      }
    }

    /** Fetch and run one operation. */
    method Round(ghost left: int) returns (ok: bool)
      requires Valid() && left > 0
      modifies this
      ensures var r := Interpret(env, old(State()), old(Rest()), left);
        if ok then
          var read := patchOffset - old(patchOffset);
          read > 0 && r == Interpret(env, State(), Rest(), left - read)
        else r == None
    {
      hide Fetch, RunOp, Interpret;
      ghost var at := patchOffset;
      InterpretRound(env, State(), Rest(), left);
      ok := OpcodeFetch();
      if ok {
        DropDrop(patch, at, patchOffset - at);
        ok := OpcodeRun();
        if ok {
          DropDrop(patch, at, patchOffset - at);
        }
      }
    }

    /** Run operations until the announced length of the patch has been used. Every round moves forward. */
    method Rounds(length: nat) returns (ok: bool)
      requires Valid() && patchOffset == 0
      modifies this
      ensures var r := Interpret(env, old(State()), patch, length);
        (ok <==> r.Some?) && (ok ==> State() == r.value)
    {
      hide Interpret, Drop;
      DropNone(patch);
      ghost var whole := Interpret(env, State(), patch, length);
      while patchOffset < length
        invariant whole == Interpret(env, State(), Rest(), length - patchOffset)
        decreases length - patchOffset
      {
        ok := Round(length - patchOffset);
        if !ok {
          return;
        }
      }
      InterpretEnd(env, State(), Rest(), length - patchOffset);
      ok := true;
    }

    /**
     * Apply a whole patch. It succeeds exactly when the interpreter does and the output has the
     * announced length and checksum.
     */
    method PatchApply(header: Header, step: (nat, byte) -> nat) returns (ok: bool)
      requires Valid() && patchOffset == 0 && State() == Machine(0, [])
      modifies this
      ensures var r := Interpret(env, Machine(0, []), patch, header.patchLength);
        && (ok <==> r.Some? && |r.value.out| == header.outputLength &&
                    Checksum(step, 0, r.value.out) == header.outputCrc)
        && (ok ==> output == r.value.out)
    {
      hide Checksum, Interpret;
      ok := Rounds(header.patchLength);
      if ok {
        ok := |output| == header.outputLength && Checksum(step, 0, output) == header.outputCrc;
      }
    }
  }
}
