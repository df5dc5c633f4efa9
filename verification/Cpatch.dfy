/** Meaning of a binary patch: a program of copy, write, address and nested patch instructions. */
module Cpatch {
  import opened Arithmetic
  import opened Bytes
  import opened Options

  /** Read position in the input file and output produced so far. */
  datatype Machine = Machine(addr: nat, out: seq<byte>)

  /** Input file and room for the output. `stale` is the value of a byte that was never read. */
  datatype Env = Env(input: seq<byte>, room: nat, stale: byte)

  // ----- Instruction semantics -----

  /** Copy `n` bytes of the input file to the output. */
  function Copy(env: Env, m: Machine, n: nat): Option<Machine> {
    if n == 0 then Some(m)
    else if m.addr + n <= |env.input| && |m.out| + n <= env.room then
      Some(Machine((m.addr + n) % U32, m.out + env.input[m.addr..m.addr + n]))
    else None
  }

  /** Write literal bytes; the input position moves along with them. */
  function Put(env: Env, m: Machine, data: seq<byte>): Option<Machine> {
    if data == [] then Some(m)
    else if |m.out| + |data| <= env.room then Some(Machine((m.addr + |data|) % U32, m.out + data))
    else None
  }

  /** One step of a nested patch: copy, then write. The short form writes a single byte. */
  datatype Pair = Pair(copy: nat, data: seq<byte>, short: bool)

  datatype Width = U4 | U12 | U20 | U32Wide

  /** `pad` is the unused low nibble of an opcode that carries no data in it. */
  datatype Instr =
    | CopyI(width: Width, n: nat, pad: nat)
    | WriteI(width: Width, data: seq<byte>, pad: nat)
    | ShiftS8(d: nat, pad: nat)
    | ShiftS16(d: nat, pad: nat)
    | SetAddr(a: nat, pad: nat)
    | PatchI(pairs: seq<Pair>, lastCopy: nat, pad: nat)

  function Signed(v: int, range: int): int {
    if v < range / 2 then v else v - range
  }

  function ExecPair(env: Env, m: Machine, q: Pair): Option<Machine> {
    match Copy(env, m, q.copy)
    case None => None
    case Some(m1) => Put(env, m1, q.data)
  }

  /** The pairs of a nested patch in turn, then a possible last copy. */
  function ExecPairs(env: Env, m: Machine, pairs: seq<Pair>, lastCopy: nat): Option<Machine>
    decreases |pairs|
  {
    if pairs == [] then Copy(env, m, lastCopy) else
      match ExecPair(env, m, pairs[0])
      case None => None
      case Some(m1) => ExecPairs(env, m1, pairs[1..], lastCopy)
  }

  function Exec(env: Env, m: Machine, i: Instr): Option<Machine> {
    match i
    case CopyI(_, n, _) => if n == 0 then None else Copy(env, m, n)
    case WriteI(_, data, _) => if data == [] then None else Put(env, m, data)
    case ShiftS8(d, _) => Some(m.(addr := (m.addr + Signed(d, 256)) % U32))
    case ShiftS16(d, _) => Some(m.(addr := (m.addr + Signed(d, U16)) % U32))
    case SetAddr(a, _) => Some(m.(addr := a % U32))
    case PatchI(pairs, lastCopy, _) =>
      ExecPairs(env, m, pairs, lastCopy)
  }

  function ExecAll(env: Env, m: Machine, prog: seq<Instr>): Option<Machine>
    decreases |prog|
  {
    if prog == [] then Some(m) else
      match Exec(env, m, prog[0])
      case None => None
      case Some(m1) => ExecAll(env, m1, prog[1..])
  }

  // ----- Byte encoding of instructions -----

  function Limit(w: Width): nat {
    match w case U4 => 16 case U12 => 0x1000 case U20 => 0x10_0000 case U32Wide => U32
  }

  ghost predicate ValidPair(p: Pair) {
    && p.copy < 128
    && if p.short then |p.data| == 1 else p.copy > 0 && 0 < |p.data| < 256
  }

  ghost predicate ValidInstr(i: Instr) {
    && i.pad < 16
    && match i
       case CopyI(w, n, _) => n < Limit(w)
       case WriteI(w, data, _) => |data| < Limit(w)
       case ShiftS8(d, _) => d < 256
       case ShiftS16(d, _) => d < U16
       case SetAddr(a, _) => a < U32
       case PatchI(pairs, lastCopy, _) => lastCopy < 128 && forall j :: 0 <= j < |pairs| ==> ValidPair(pairs[j])
  }

  /** Opcode and length for the copy family (`op` 0) and the write family (`op` 4). */
  function Length(op: nat, w: Width, n: nat, pad: nat): (r: seq<byte>)
    requires op <= 4 && n < Limit(w) && pad < 16
  {
    match w
    case U4 => [op * 16 + n]
    case U12 => [(op + 1) * 16 + n / 256, n % 256]
    case U20 => [(op + 2) * 16 + n / U16] + ToLe(n % U16, 2)
    case U32Wide => [(op + 3) * 16 + pad] + ToLe(n, 4)
  }

  function AssemblePair(p: Pair): seq<byte>
    requires ValidPair(p)
  {
    if p.short then [128 + p.copy] + p.data else [p.copy, |p.data|] + p.data
  }

  function AssemblePairs(pairs: seq<Pair>): seq<byte>
    requires forall j :: 0 <= j < |pairs| ==> ValidPair(pairs[j])
  {
    if pairs == [] then [] else AssemblePair(pairs[0]) + AssemblePairs(pairs[1..])
  }

  /** Opcode byte and arguments. */
  function Head(i: Instr): (r: seq<byte>)
    requires ValidInstr(i)
    ensures |r| > 0
  {
    match i
    case CopyI(w, n, pad) => Length(0, w, n, pad)
    case WriteI(w, data, pad) => Length(4, w, |data|, pad)
    case ShiftS8(d, pad) => [8 * 16 + pad, d]
    case ShiftS16(d, pad) => [9 * 16 + pad] + ToLe(d, 2)
    case SetAddr(a, pad) => [10 * 16 + pad] + ToLe(a, 4)
    case PatchI(_, _, pad) => [11 * 16 + pad]
  }

  /** A nested patch ends at a zero, either of a copy length or of a write length. */
  function Terminator(lastCopy: nat): seq<byte>
    requires lastCopy < 128
  {
    if lastCopy == 0 then [0] else [lastCopy, 0]
  }

  /** Bytes that belong to the instruction but are read while it runs. */
  function Body(i: Instr): seq<byte>
    requires ValidInstr(i)
  {
    match i
    case WriteI(_, data, _) => data
    case PatchI(pairs, lastCopy, _) => AssemblePairs(pairs) + Terminator(lastCopy)
    case _ => []
  }

  function Assemble(i: Instr): (r: seq<byte>)
    requires ValidInstr(i)
    ensures |r| > 0
  {
    Head(i) + Body(i)
  }

  function AssembleAll(prog: seq<Instr>): seq<byte>
    requires forall j :: 0 <= j < |prog| ==> ValidInstr(prog[j])
  {
    if prog == [] then [] else Assemble(prog[0]) + AssembleAll(prog[1..])
  }

  // ----- The byte interpreter, reading from the rest of the patch file -----

  datatype Op = CopyOp(n: nat) | WriteOp(n: nat) | AddrOp(a: nat) | PatchOp

  /** What is left after reading `n` bytes; reading past the end leaves nothing. */
  function Drop(p: seq<byte>, n: nat): seq<byte> {
    if n <= |p| then p[n..] else []
  }

  /** Bytes that follow the opcode byte, by opcode. */
  function ArgBytes(code: nat): nat {
    if code == 1 || code == 5 || code == 8 then 1
    else if code == 2 || code == 6 || code == 9 then 2
    else if code == 3 || code == 7 || code == 10 then 4
    else 0
  }

  /** Length of a copy or write: the low nibble, its extension by the argument, or the argument alone. */
  function LengthOf(code: nat, data: nat, arg: nat): nat {
    if code % 4 == 0 then data
    else if code % 4 == 1 then data * 256 + arg
    else if code % 4 == 2 then data * U16 + arg
    else arg
  }

  /** Meaning of an opcode byte and its argument bytes. */
  function Decode(code: nat, data: nat, arg: nat, addr: nat): Option<Op> {
    var len := LengthOf(code, data, arg);
    if code < 4 then Some(CopyOp(len))
    else if code < 8 then Some(WriteOp(len))
    else if code == 8 then Some(AddrOp((addr + Signed(arg, 256)) % U32))
    else if code == 9 then Some(AddrOp((addr + Signed(arg, U16)) % U32))
    else if code == 10 then Some(AddrOp(arg))
    else if code == 11 then Some(PatchOp)
    else None
  }

  /** Next operation and the number of bytes it was read from. */
  function Fetch(p: seq<byte>, addr: nat): (r: Option<(Op, nat)>)
    ensures r.Some? ==> r.value.1 >= 1
  {
    if p == [] then None else
      var code, data := p[0] / 16, p[0] % 16;
      var k := ArgBytes(code);
      if |p| < 1 + k then None else
        match Decode(code, data, Le(p[1..1 + k]), addr)
        case None => None
        case Some(op) => Some((op, 1 + k))
  }

  /** Literal bytes taken from the patch file. */
  function PutFrom(env: Env, m: Machine, p: seq<byte>, n: nat): Option<Machine> {
    if n <= |p| then Put(env, m, p[..n]) else None
  }

  /** Copy/write pairs until a zero length byte; a length byte that cannot be read is stale. */
  function Nested(env: Env, m: Machine, p: seq<byte>): Option<(Machine, nat)>
    decreases |p|, 1
  {
    var len: int := if p == [] then env.stale else p[0];
    if len == 0 then Some((m, 1)) else
      match Copy(env, m, len % 128)
      case None => None
      case Some(m1) =>
        if len >= 128 then NestedPut(env, m1, Drop(p, 1), 1, 1)
        else
          var n: int := if |p| < 2 then len else p[1];
          if n == 0 then Some((m1, 2)) else NestedPut(env, m1, Drop(p, 2), n, 2)
  }

  /** The write half of a pair, then the pairs behind it. `used` bytes were read before. */
  function NestedPut(env: Env, m: Machine, p: seq<byte>, n: nat, used: nat): Option<(Machine, nat)>
    requires n > 0
    decreases |p|, 0
  {
    match PutFrom(env, m, p, n)
    case None => None
    case Some(m1) =>
      match Nested(env, m1, p[n..])
      case None => None
      case Some((m2, k)) => Some((m2, used + n + k))
  }

  /** Operation fetched before `p`: the new machine and the further bytes it used. */
  function RunOp(env: Env, m: Machine, op: Op, p: seq<byte>): Option<(Machine, nat)> {
    match op
    case AddrOp(a) => Some((m.(addr := a), 0))
    case CopyOp(n) =>
      if n == 0 then None else
        (match Copy(env, m, n) case None => None case Some(m1) => Some((m1, 0)))
    case WriteOp(n) =>
      if n == 0 then None else
        (match PutFrom(env, m, p, n) case None => None case Some(m1) => Some((m1, n)))
    case PatchOp => Nested(env, m, p)
  }

  /** Run until `left` bytes of the patch have been used. Every operation uses at least one. */
  function Interpret(env: Env, m: Machine, p: seq<byte>, left: int): Option<Machine>
    decreases left
  {
    if left <= 0 then Some(m) else
      match Fetch(p, m.addr)
      case None => None
      case Some((op, k)) =>
        match RunOp(env, m, op, Drop(p, k))
        case None => None
        case Some((m1, used)) => Interpret(env, m1, Drop(p, k + used), left - k - used)
  }

  // ----- The interpreter agrees with the instruction semantics -----

  function OpOf(i: Instr, addr: nat): Op {
    match i
    case CopyI(_, n, _) => CopyOp(n)
    case WriteI(_, data, _) => WriteOp(|data|)
    case ShiftS8(d, _) => AddrOp((addr + Signed(d, 256)) % U32)
    case ShiftS16(d, _) => AddrOp((addr + Signed(d, U16)) % U32)
    case SetAddr(a, _) => AddrOp(a)
    case PatchI(_, _, _) => PatchOp
  }

  /** Reading the argument bytes behind an opcode byte. */
  lemma FetchArgs(op: byte, args: seq<byte>, rest: seq<byte>, addr: nat)
    requires |args| == ArgBytes(op / 16)
    ensures Fetch([op] + args + rest, addr) ==
      match Decode(op / 16, op % 16, Le(args), addr)
      case None => None
      case Some(o) => Some((o, 1 + |args|))
  {
    var p := [op] + args + rest;
    assert p[1..1 + |args|] == args;
  }

  lemma LeOne(b: byte)
    ensures Le([b]) == b
  {
    assert Le([b]) == b as int + 256 * Le([b][1..]);
  }

  lemma LengthDecodes(op: nat, w: Width, n: nat, pad: nat, addr: nat, rest: seq<byte>)
    requires (op == 0 || op == 4) && n < Limit(w) && pad < 16
    ensures var h := Length(op, w, n, pad);
      Fetch(h + rest, addr) == Some((if op == 0 then CopyOp(n) else WriteOp(n), |h|))
  {
    hide Fetch, Le, ToLe;
    Powers();
    match w
    case U4 =>
      assert [op * 16 + n] + [] == [op * 16 + n];
      FetchArgs(op * 16 + n, [], rest, addr);
    case U12 =>
      FetchArgs((op + 1) * 16 + n / 256, [n % 256], rest, addr);
      assert [(op + 1) * 16 + n / 256] + [n % 256] == Length(op, w, n, pad);
      LeOne(n % 256);
    case U20 =>
      FetchArgs((op + 2) * 16 + n / U16, ToLe(n % U16, 2), rest, addr);
      LeOfToLe(n % U16, 2);
    case U32Wide =>
      FetchArgs((op + 3) * 16 + pad, ToLe(n, 4), rest, addr);
      LeOfToLe(n, 4);
  }

  lemma HeadDecodes(i: Instr, addr: nat, rest: seq<byte>)
    requires ValidInstr(i)
    ensures Fetch(Head(i) + rest, addr) == Some((OpOf(i, addr), |Head(i)|))
  {
    hide Fetch, Length;
    Powers();
    match i
    case CopyI(w, n, pad) => LengthDecodes(0, w, n, pad, addr, rest);
    case WriteI(w, data, pad) => LengthDecodes(4, w, |data|, pad, addr, rest);
    case ShiftS8(d, pad) =>
      FetchArgs(8 * 16 + pad, [d], rest, addr);
      assert [8 * 16 + pad] + [d] == [8 * 16 + pad, d];
      LeOne(d);
    case ShiftS16(d, pad) =>
      FetchArgs(9 * 16 + pad, ToLe(d, 2), rest, addr);
      LeOfToLe(d, 2);
    case SetAddr(a, pad) =>
      FetchArgs(10 * 16 + pad, ToLe(a, 4), rest, addr);
      LeOfToLe(a, 4);
    case PatchI(_, _, pad) =>
      FetchArgs(11 * 16 + pad, [], rest, addr);
      assert [11 * 16 + pad] + [] == [11 * 16 + pad];
  }

  /** Result of an instruction together with the number of body bytes it read. */
  function Used(r: Option<Machine>, n: nat): Option<(Machine, nat)> {
    match r case None => None case Some(m) => Some((m, n))
  }

  /** A result whose bytes are preceded by `n` others. */
  function After(r: Option<(Machine, nat)>, n: nat): Option<(Machine, nat)> {
    match r case None => None case Some((m, k)) => Some((m, n + k))
  }

  /** Effect of one encoded pair on the nested interpreter. */
  lemma PairRuns(env: Env, m: Machine, q: Pair, tail: seq<byte>)
    requires ValidPair(q)
    ensures Nested(env, m, AssemblePair(q) + tail) ==
      match ExecPair(env, m, q)
      case None => None
      case Some(m1) => After(Nested(env, m1, tail), |AssemblePair(q)|)
  {
    hide Copy, Put, NestedPut;
    var p, k := AssemblePair(q) + tail, |AssemblePair(q)| - |q.data|;
    assert Drop(p, k) == q.data + tail && p[0] == AssemblePair(q)[0];
    assert !q.short ==> p[1] == |q.data|;
    var r := Copy(env, m, q.copy);
    if r.Some? {
      PairPuts(env, r.value, q.data, tail, k);
    }
  }

  /** The write half of a pair. */
  lemma PairPuts(env: Env, m: Machine, data: seq<byte>, tail: seq<byte>, used: nat)
    requires data != []
    ensures NestedPut(env, m, data + tail, |data|, used) ==
      match Put(env, m, data)
      case None => None
      case Some(m1) => After(Nested(env, m1, tail), used + |data|)
  {
    hide Put, Nested;
    Parts(data, tail);
  }

  lemma {:induction false} NestedRuns(env: Env, m: Machine, pairs: seq<Pair>, lastCopy: nat, rest: seq<byte>)
    requires lastCopy < 128 && forall j :: 0 <= j < |pairs| ==> ValidPair(pairs[j])
    ensures var p := AssemblePairs(pairs) + Terminator(lastCopy);
      Nested(env, m, p + rest) == Used(ExecPairs(env, m, pairs, lastCopy), |p|)
    decreases |pairs|
  {
    hide ExecPair, AssemblePair, Put;
    var end := Terminator(lastCopy);
    if pairs == [] {
      assert [] + end == end;
    } else {
      var q, tail := AssemblePair(pairs[0]), AssemblePairs(pairs[1..]);
      Assoc(q, tail, end);
      Assoc(q, tail + end, rest);
      PairRuns(env, m, pairs[0], tail + end + rest);
      var r := ExecPair(env, m, pairs[0]);
      if r.Some? {
        NestedRuns(env, r.value, pairs[1..], lastCopy, rest);
      }
    }
  }

  lemma BodyRuns(env: Env, m: Machine, i: Instr, rest: seq<byte>)
    requires ValidInstr(i)
    ensures RunOp(env, m, OpOf(i, m.addr), Body(i) + rest) == Used(Exec(env, m, i), |Body(i)|)
  {
    match i
    case WriteI(_, data, _) => assert (data + rest)[..|data|] == data;
    case PatchI(pairs, lastCopy, pad) => NestedRuns(env, m, pairs, lastCopy, rest);
    case _ =>
  }

  /** Effect of one encoded instruction on the interpreter. */
  lemma InstrRuns(env: Env, m: Machine, i: Instr, tail: seq<byte>, left: nat)
    requires ValidInstr(i)
    ensures Interpret(env, m, Assemble(i) + tail, |Assemble(i)| + left) ==
      match Exec(env, m, i)
      case None => None
      case Some(m1) => Interpret(env, m1, tail, left)
  {
    hide Fetch, RunOp, Exec, Head, Body;
    var h, b := Head(i), Body(i);
    Assoc(h, b, tail);
    HeadDecodes(i, m.addr, b + tail);
    Parts(h, b + tail);
    BodyRuns(env, m, i, tail);
    Parts(h + b, tail);
  }

  /** Interpreting the bytes of any program has the effect of its instructions, one after another. */
  lemma {:induction false} InterpretsProgram(env: Env, m: Machine, prog: seq<Instr>, rest: seq<byte>)
    requires forall j :: 0 <= j < |prog| ==> ValidInstr(prog[j])
    ensures Interpret(env, m, AssembleAll(prog) + rest, |AssembleAll(prog)|) == ExecAll(env, m, prog)
    decreases |prog|
  {
    hide Fetch, RunOp, Exec, Assemble;
    if prog != [] {
      var i, tail := Assemble(prog[0]), AssembleAll(prog[1..]);
      Assoc(i, tail, rest);
      InstrRuns(env, m, prog[0], tail + rest, |tail|);
      var r := Exec(env, m, prog[0]);
      if r.Some? {
        InterpretsProgram(env, r.value, prog[1..], rest);
      }
    }
  }
}
