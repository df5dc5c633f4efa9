/** Every run of the patch interpreter that stays inside the patch is a run of some program. */
module CpatchDisassembly {
  import opened Arithmetic
  import opened Bytes
  import opened Options
  import opened Cpatch

  lemma OneByte(args: seq<byte>)
    requires |args| == 1
    ensures Le(args) == args[0] && args == [args[0]]
  {
    assert Le(args) == args[0] as int + 256 * Le(args[1..]);
  }

  /** The argument bytes that were read are the encoding of the argument. */
  lemma ArgsBack(args: seq<byte>)
    ensures ToLe(Le(args), |args|) == args
    ensures |args| == 2 ==> Le(args) < U16
    ensures |args| == 4 ==> Le(args) < U32
  {
    Powers();
    LeBound(args);
    ToLeOfLe(args);
  }

  /** The length bytes of a copy or write are the encoding of the length they were read as. */
  lemma LengthBytes(op: nat, code: nat, low: nat, args: seq<byte>) returns (w: Width, pad: nat)
    requires (op == 0 || op == 4) && op <= code < op + 4 && low < 16 && |args| == ArgBytes(code)
    ensures var n := LengthOf(code, low, Le(args));
      n < Limit(w) && pad < 16 && Length(op, w, n, pad) == [code * 16 + low] + args
  {
    hide Le, ToLe;
    ArgsBack(args);
    var n := LengthOf(code, low, Le(args));
    pad := low;
    if code == op {
      w := U4;
    } else if code == op + 1 {
      w := U12;
      OneByte(args);
      DivModUnique(low, args[0], 256);
    } else if code == op + 2 {
      w := U20;
      DivModUnique(low, Le(args), U16);
    } else {
      w := U32Wide;
    }
  }

  ghost predicate ValidPairs(pairs: seq<Pair>) {
    forall j :: 0 <= j < |pairs| ==> ValidPair(pairs[j])
  }

  /** A nested patch that starts with its terminator, or is cut off in it. */
  predicate Ends(p: seq<byte>)
    requires p != []
  {
    p[0] == 0 || (p[0] < 128 && (|p| < 2 || p[1] == 0))
  }

  /** The pair at the start of a nested patch that goes on behind it. */
  lemma PairBack(env: Env, m: Machine, p: seq<byte>) returns (q: Pair)
    requires Nested(env, m, p).Some? && p != [] && !Ends(p)
    ensures ValidPair(q) && AssemblePair(q) <= p && |AssemblePair(q)| > 0 && ExecPair(env, m, q).Some?
    ensures var a := AssemblePair(q);
      Nested(env, m, p) == After(Nested(env, ExecPair(env, m, q).value, p[|a|..]), |a|)
  {
    hide Copy, Put;
    var copy: nat, used: nat := p[0] % 128, if p[0] >= 128 then 1 else 2;
    var n: nat := if p[0] >= 128 then 1 else p[1];
    q := Pair(copy, p[used..used + n], p[0] >= 128);
    PairBytes(p, used, n);
    Parts(AssemblePair(q), p[used + n..]);
    PairRuns(env, m, q, p[used + n..]);
  }

  lemma PairBytes(p: seq<byte>, used: nat, n: nat)
    requires 1 <= used <= 2 && used + n <= |p|
    ensures used == 1 ==> [p[0]] + p[used..used + n] + p[used + n..] == p
    ensures used == 2 ==> [p[0], p[1]] + p[used..used + n] + p[used + n..] == p
  {
  }

  lemma Chain(p: seq<byte>, a: nat, b: nat)
    requires a <= |p| && b <= |p| - a
    ensures p[..a] + p[a..][..b] == p[..a + b]
  {
  }

  /** The end of a nested patch. */
  lemma EndBack(env: Env, m: Machine, p: seq<byte>) returns (lastCopy: nat)
    requires Nested(env, m, p).Some? && p != [] && Ends(p)
    ensures lastCopy < 128 && Nested(env, m, p).value.1 <= |p|
    ensures Terminator(lastCopy) == p[..Nested(env, m, p).value.1]
    ensures Copy(env, m, lastCopy) == Some(Nested(env, m, p).value.0)
  {
    lastCopy := p[0];
    if p[0] != 0 && |p| > 1 {
      assert p[..2] == [p[0], 0];
    }
  }

  lemma NoPairs(env: Env, m: Machine, lastCopy: nat)
    ensures ExecPairs(env, m, [], lastCopy) == Copy(env, m, lastCopy) && AssemblePairs([]) == []
  {
  }

  lemma MorePairs(env: Env, m: Machine, q: Pair, rest: seq<Pair>, lastCopy: nat)
    requires ValidPair(q) && ValidPairs(rest) && ExecPair(env, m, q).Some?
    ensures ValidPairs([q] + rest) && AssemblePairs([q] + rest) == AssemblePair(q) + AssemblePairs(rest)
    ensures ExecPairs(env, m, [q] + rest, lastCopy) == ExecPairs(env, ExecPair(env, m, q).value, rest, lastCopy)
  {
    hide ExecPair, AssemblePair, ValidPair;
    assert ([q] + rest)[1..] == rest;
  }

  lemma Splice(p: seq<byte>, a: seq<byte>, b: seq<byte>, t: seq<byte>, k: nat)
    requires a <= p && |a| + k <= |p| && b + t == p[|a|..][..k]
    ensures (a + b) + t == p[..|a| + k]
  {
    Assoc(a, b, t);
    Chain(p, |a|, k);
  }

  /** A nested patch that ends inside the bytes is made of pairs and a terminator. */
  lemma {:induction false} NestedBack(env: Env, m: Machine, p: seq<byte>) returns (pairs: seq<Pair>, lastCopy: nat)
    requires Nested(env, m, p).Some? && Nested(env, m, p).value.1 <= |p|
    ensures lastCopy < 128 && ValidPairs(pairs)
    ensures AssemblePairs(pairs) + Terminator(lastCopy) == p[..Nested(env, m, p).value.1]
    ensures ExecPairs(env, m, pairs, lastCopy) == Some(Nested(env, m, p).value.0)
    decreases |p|
  {
    NestedReads(env, m, p);
    hide Nested, Copy, ExecPair, ExecPairs, AssemblePair, AssemblePairs, Terminator, ValidPair;
    if Ends(p) {
      lastCopy := EndBack(env, m, p);
      pairs := [];
      NoPairs(env, m, lastCopy);
      assert [] + Terminator(lastCopy) == Terminator(lastCopy);
    } else {
      var q := PairBack(env, m, p);
      var a, m1 := AssemblePair(q), ExecPair(env, m, q).value;
      var r := Nested(env, m1, p[|a|..]);
      assert r.Some? && Nested(env, m, p) == Some((r.value.0, |a| + r.value.1));
      var rest, end := NestedBack(env, m1, p[|a|..]);
      MorePairs(env, m, q, rest, end);
      Splice(p, a, AssemblePairs(rest), Terminator(end), r.value.1);
      pairs, lastCopy := [q] + rest, end;
    }
  }

  lemma NestedReads(env: Env, m: Machine, p: seq<byte>)
    requires Nested(env, m, p).Some?
    ensures Nested(env, m, p).value.1 > 0
  {
  }

  /** Opcode and arguments of everything but a write or a nested patch. */
  lemma HeadBack(p: seq<byte>, addr: nat) returns (i: Instr)
    requires Fetch(p, addr).Some? && !Fetch(p, addr).value.0.WriteOp? && !Fetch(p, addr).value.0.PatchOp?
    ensures ValidInstr(i) && Head(i) == p[..Fetch(p, addr).value.1] && Body(i) == []
    ensures OpOf(i, addr) == Fetch(p, addr).value.0
  {
    hide Le, ToLe, LengthOf;
    var code, low := p[0] / 16, p[0] % 16;
    var args := p[1..1 + ArgBytes(code)];
    assert p[..1 + ArgBytes(code)] == [p[0]] + args;
    ArgsBack(args);
    if code < 4 {
      var w, pad := LengthBytes(0, code, low, args);
      i := CopyI(w, LengthOf(code, low, Le(args)), pad);
    } else if code == 8 {
      OneByte(args);
      i := ShiftS8(Le(args), low);
    } else if code == 9 {
      i := ShiftS16(Le(args), low);
    } else {
      i := SetAddr(Le(args), low);
    }
  }

  lemma WriteBack(p: seq<byte>, addr: nat) returns (i: Instr)
    requires Fetch(p, addr).Some? && Fetch(p, addr).value.0.WriteOp?
    requires Fetch(p, addr).value.1 + Fetch(p, addr).value.0.n <= |p|
    ensures var (op, k) := Fetch(p, addr).value;
      ValidInstr(i) && i.WriteI? && Head(i) == p[..k] && i.data == p[k..k + op.n]
  {
    hide Le, ToLe, LengthOf;
    var code, low := p[0] / 16, p[0] % 16;
    var k := 1 + ArgBytes(code);
    var args := p[1..k];
    assert p[..k] == [p[0]] + args;
    var w, pad := LengthBytes(4, code, low, args);
    i := WriteI(w, p[k..k + LengthOf(code, low, Le(args))], pad);
  }

  lemma PatchBack(p: seq<byte>, addr: nat, pairs: seq<Pair>, lastCopy: nat) returns (i: Instr)
    requires Fetch(p, addr).Some? && Fetch(p, addr).value.0.PatchOp? && lastCopy < 128 && ValidPairs(pairs)
    ensures ValidInstr(i) && i.PatchI? && i.pairs == pairs && i.lastCopy == lastCopy
    ensures Head(i) == p[..Fetch(p, addr).value.1]
  {
    i := PatchI(pairs, lastCopy, p[0] % 16);
  }

  /** An instruction behind whose head the bytes of its body follow. */
  lemma Joined(i: Instr, p: seq<byte>, k: nat, used: nat)
    requires ValidInstr(i) && k + used <= |p| && Head(i) == p[..k] && Body(i) == p[k..][..used]
    ensures Assemble(i) == p[..k + used]
  {
    hide Head, Body;
    Chain(p, k, used);
  }

  /** An operation that runs inside the bytes is an instruction. */
  lemma InstrBack(env: Env, m: Machine, p: seq<byte>) returns (i: Instr)
    requires Fetch(p, m.addr).Some?
    requires var (op, k) := Fetch(p, m.addr).value;
      RunOp(env, m, op, Drop(p, k)).Some? && k + RunOp(env, m, op, Drop(p, k)).value.1 <= |p|
    ensures var (op, k) := Fetch(p, m.addr).value;
      var (m1, used) := RunOp(env, m, op, Drop(p, k)).value;
      ValidInstr(i) && Assemble(i) == p[..k + used] && Exec(env, m, i) == Some(m1)
  {
    hide Fetch, Head, Assemble, Nested, AssemblePairs, ExecPairs, Put, Copy;
    var (op, k) := Fetch(p, m.addr).value;
    var used := RunOp(env, m, op, Drop(p, k)).value.1;
    if op.PatchOp? {
      var pairs, lastCopy := NestedBack(env, m, p[k..]);
      i := PatchBack(p, m.addr, pairs, lastCopy);
    } else if op.WriteOp? {
      i := WriteBack(p, m.addr);
    } else {
      i := HeadBack(p, m.addr);
    }
    Joined(i, p, k, used);
  }

  ghost predicate ValidProgram(prog: seq<Instr>) {
    forall j :: 0 <= j < |prog| ==> ValidInstr(prog[j])
  }

  lemma Cons(env: Env, m: Machine, i: Instr, rest: seq<Instr>)
    requires ValidInstr(i) && ValidProgram(rest) && Exec(env, m, i).Some?
    ensures ValidProgram([i] + rest) && AssembleAll([i] + rest) == Assemble(i) + AssembleAll(rest)
    ensures ExecAll(env, m, [i] + rest) == ExecAll(env, Exec(env, m, i).value, rest)
  {
    hide Exec, Assemble, ValidInstr;
    assert ([i] + rest)[1..] == rest;
  }

  /** Bytes of the patch that a run reads. */
  function Extent(env: Env, m: Machine, p: seq<byte>, left: int): nat
    decreases left
  {
    if left <= 0 then 0 else
      match Fetch(p, m.addr)
      case None => 0
      case Some((op, k)) =>
        match RunOp(env, m, op, Drop(p, k))
        case None => 0
        case Some((m1, used)) => k + used + Extent(env, m1, Drop(p, k + used), left - k - used)
  }

  /** One round of a successful run. */
  lemma Round(env: Env, m: Machine, p: seq<byte>, left: int) returns (m1: Machine, n: nat)
    requires left > 0 && Interpret(env, m, p, left).Some?
    ensures Fetch(p, m.addr).Some? && n > 0
    ensures var (op, k) := Fetch(p, m.addr).value;
      RunOp(env, m, op, Drop(p, k)).Some? && RunOp(env, m, op, Drop(p, k)).value.0 == m1 &&
      n == k + RunOp(env, m, op, Drop(p, k)).value.1
    ensures Interpret(env, m, p, left) == Interpret(env, m1, Drop(p, n), left - n)
    ensures Extent(env, m, p, left) == n + Extent(env, m1, Drop(p, n), left - n)
  {
    hide Fetch, RunOp;
    var (op, k) := Fetch(p, m.addr).value;
    var r := RunOp(env, m, op, Drop(p, k)).value;
    m1, n := r.0, k + r.1;
  }

  lemma NoProgram(env: Env, m: Machine, p: seq<byte>, left: int)
    requires left <= 0
    ensures Interpret(env, m, p, left) == ExecAll(env, m, []) && AssembleAll([]) == p[..Extent(env, m, p, left)]
  {
  }

  /** A successful run that stays inside the patch is the run of a program, whose bytes it read. */
  lemma {:induction false} Disassembles(env: Env, m: Machine, p: seq<byte>, left: int) returns (prog: seq<Instr>)
    requires Interpret(env, m, p, left).Some? && Extent(env, m, p, left) <= |p|
    ensures ValidProgram(prog)
    ensures AssembleAll(prog) == p[..Extent(env, m, p, left)]
    ensures ExecAll(env, m, prog) == Interpret(env, m, p, left)
    decreases left
  {
    hide Fetch, RunOp, Exec, Assemble, AssembleAll, ExecAll, ValidInstr, Interpret, Extent;
    if left <= 0 {
      NoProgram(env, m, p, left);
      return [];
    }
    var m1, n := Round(env, m, p, left);
    var i := InstrBack(env, m, p);
    var rest := Disassembles(env, m1, p[n..], left - n);
    prog := [i] + rest;
    Cons(env, m, i, rest);
    Chain(p, n, Extent(env, m1, p[n..], left - n));
  }

  // ----- Running past the end -----

  /** A nested patch can end beyond its bytes only by one, and only if the byte it cannot read looks like a zero. */
  lemma {:induction false} NestedExtent(env: Env, m: Machine, p: seq<byte>)
    requires Nested(env, m, p).Some?
    ensures var k := Nested(env, m, p).value.1; k <= |p| || (k == |p| + 1 && env.stale == 0)
    decreases |p|
  {
    if p != [] && !Ends(p) {
      var q := PairBack(env, m, p);
      var a := AssemblePair(q);
      var m1 := ExecPair(env, m, q).value;
      hide Nested, AssemblePair, ExecPair;
      assert Nested(env, m1, p[|a|..]).Some?;
      NestedExtent(env, m1, p[|a|..]);
    } else if p != [] {
      var lastCopy := EndBack(env, m, p);
    }
  }

  lemma NoRound(env: Env, m: Machine, p: seq<byte>, left: int)
    requires left <= 0
    ensures Interpret(env, m, p, left) == Some(m) && Extent(env, m, p, left) == 0
  {
  }

  /** The bytes are a program, then a nested patch without its terminator; both are run within `left` bytes. */
  ghost predicate Dangling(env: Env, m: Machine, p: seq<byte>, left: int, prog: seq<Instr>, pairs: seq<Pair>, pad: nat)
  {
    && ValidProgram(prog) && ValidPairs(pairs) && pad < 16
    && p == AssembleAll(prog) + ([11 * 16 + pad] + AssemblePairs(pairs))
    && |AssembleAll(prog)| < left <= |p| + 1
    && ExecAll(env, m, prog).Some? && ExecPairs(env, ExecAll(env, m, prog).value, pairs, 0).Some?
  }

  ghost predicate Unterminated(env: Env, m: Machine, p: seq<byte>, left: int) {
    exists prog, pairs, pad: nat :: Dangling(env, m, p, left, prog, pairs, pad)
  }

  /** Pairs that are not terminated end with a length byte that cannot be read, taken for a zero. */
  lemma {:induction false} OpenRuns(env: Env, m: Machine, pairs: seq<Pair>)
    requires ValidPairs(pairs) && env.stale == 0
    ensures Nested(env, m, AssemblePairs(pairs)) == Used(ExecPairs(env, m, pairs, 0), |AssemblePairs(pairs)| + 1)
    decreases |pairs|
  {
    hide ExecPair, AssemblePair;
    if pairs != [] {
      PairRuns(env, m, pairs[0], AssemblePairs(pairs[1..]));
      var r := ExecPair(env, m, pairs[0]);
      if r.Some? {
        hide Nested, ValidPair, Copy;
        OpenRuns(env, r.value, pairs[1..]);
      }
    }
  }

  lemma NothingOpen(env: Env, m: Machine)
    requires Nested(env, m, []).Some? && Nested(env, m, []).value.1 > 0
    ensures AssemblePairs([]) == [] && ExecPairs(env, m, [], 0).Some?
  {
  }

  /** A nested patch that ends beyond its bytes is made of pairs only. */
  lemma {:induction false} OpenBack(env: Env, m: Machine, p: seq<byte>) returns (pairs: seq<Pair>)
    requires Nested(env, m, p).Some? && Nested(env, m, p).value.1 > |p|
    ensures ValidPairs(pairs) && AssemblePairs(pairs) == p
    ensures ExecPairs(env, m, pairs, 0).Some?
    decreases |p|
  {
    hide Nested, Copy, ExecPair, ExecPairs, AssemblePair, AssemblePairs, ValidPair;
    if p == [] {
      pairs := [];
      NothingOpen(env, m);
    } else {
      assert !Ends(p) by {
        if Ends(p) {
          var lastCopy := EndBack(env, m, p);
        }
      }
      var q := PairBack(env, m, p);
      var a, m1 := AssemblePair(q), ExecPair(env, m, q).value;
      assert Nested(env, m1, p[|a|..]).Some?;
      var rest := OpenBack(env, m1, p[|a|..]);
      MorePairs(env, m, q, rest, 0);
      pairs := [q] + rest;
    }
  }

  /** The rounds of a run over the bytes of a program, in front of more bytes. */
  lemma {:induction false} ProgramFirst(env: Env, m: Machine, prog: seq<Instr>, tail: seq<byte>, left: nat)
    requires ValidProgram(prog) && ExecAll(env, m, prog).Some?
    ensures var a, m1 := AssembleAll(prog), ExecAll(env, m, prog).value;
      && Interpret(env, m, a + tail, |a| + left) == Interpret(env, m1, tail, left)
      && Extent(env, m, a + tail, |a| + left) == |a| + Extent(env, m1, tail, left)
    decreases |prog|
  {
    hide Exec, Assemble, ValidInstr, Interpret, Extent;
    if prog == [] {
      assert [] + tail == tail;
    } else {
      var i, rest := Assemble(prog[0]), AssembleAll(prog[1..]);
      var m1 := Exec(env, m, prog[0]).value;
      Assoc(i, rest, tail);
      InstrRuns(env, m, prog[0], rest + tail, |rest| + left);
      InstrExtent(env, m, prog[0], rest + tail, |rest| + left);
      ProgramFirst(env, m1, prog[1..], tail, left);
    }
  }

  lemma InstrExtent(env: Env, m: Machine, i: Instr, tail: seq<byte>, left: nat)
    requires ValidInstr(i) && Exec(env, m, i).Some?
    ensures var a := Assemble(i);
      Extent(env, m, a + tail, |a| + left) == |a| + Extent(env, Exec(env, m, i).value, tail, left)
  {
    hide Fetch, RunOp, Exec, Head, Body;
    var h, b := Head(i), Body(i);
    Assoc(h, b, tail);
    HeadDecodes(i, m.addr, b + tail);
    Parts(h, b + tail);
    BodyRuns(env, m, i, tail);
    Parts(h + b, tail);
  }

  /** A nested patch without terminator at the end of the patch. */
  lemma OpenRound(env: Env, m: Machine, pairs: seq<Pair>, pad: nat, left: int)
    requires ValidPairs(pairs) && pad < 16 && env.stale == 0 && ExecPairs(env, m, pairs, 0).Some?
    requires 0 < left <= |AssemblePairs(pairs)| + 2
    ensures var p := [11 * 16 + pad] + AssemblePairs(pairs);
      Interpret(env, m, p, left).Some? && Extent(env, m, p, left) == |p| + 1
  {
    hide ExecPairs, AssemblePairs, Nested, ValidPair;
    var b := AssemblePairs(pairs);
    var p := [11 * 16 + pad] + b;
    FetchArgs(11 * 16 + pad, [], b, m.addr);
    assert [11 * 16 + pad] + [] == [11 * 16 + pad];
    hide Fetch;
    assert Drop(p, 1) == b;
    OpenRuns(env, m, pairs);
    assert RunOp(env, m, PatchOp, b) == Nested(env, m, b);
  }

  /** One round that leaves the patch is a nested patch without terminator. */
  lemma LastRound(env: Env, m: Machine, p: seq<byte>) returns (pairs: seq<Pair>, pad: nat)
    requires Fetch(p, m.addr).Some?
    requires var (op, k) := Fetch(p, m.addr).value;
      RunOp(env, m, op, Drop(p, k)).Some? && k + RunOp(env, m, op, Drop(p, k)).value.1 > |p|
    ensures ValidPairs(pairs) && pad < 16 && p == [11 * 16 + pad] + AssemblePairs(pairs) && env.stale == 0
    ensures var (op, k) := Fetch(p, m.addr).value; k + RunOp(env, m, op, Drop(p, k)).value.1 == |p| + 1
    ensures ExecPairs(env, m, pairs, 0).Some?
  {
    hide Nested, Copy, Put, AssemblePairs, ExecPairs, ValidPairs;
    var (op, k) := Fetch(p, m.addr).value;
    assert op.PatchOp?;
    pad := p[0] % 16;
    NestedExtent(env, m, Drop(p, k));
    pairs := OpenBack(env, m, Drop(p, k));
  }

  lemma Nothing(env: Env, m: Machine, left: int)
    requires Interpret(env, m, [], left).Some?
    ensures left <= 0
  {
  }

  /** A successful run that leaves the patch. */
  lemma {:induction false} LeavesBack(env: Env, m: Machine, p: seq<byte>, left: int)
    returns (prog: seq<Instr>, pairs: seq<Pair>, pad: nat)
    requires Interpret(env, m, p, left).Some? && Extent(env, m, p, left) > |p|
    ensures Dangling(env, m, p, left, prog, pairs, pad) && env.stale == 0
    decreases left
  {
    hide Fetch, RunOp, Exec, Assemble, ValidInstr, Interpret, Extent, Dangling;
    assert left > 0 by {
      if left <= 0 {
        NoRound(env, m, p, left);
      }
    }
    var m1, n := Round(env, m, p, left);
    if n <= |p| {
      var i := InstrBack(env, m, p);
      var rest: seq<Instr>;
      rest, pairs, pad := LeavesBack(env, m1, p[n..], left - n);
      prog := [i] + rest;
      DanglingCons(env, m, p, left, i, rest, pairs, pad);
    } else {
      pairs, pad := LastRound(env, m, p);
      Nothing(env, m1, left - n);
      prog := [];
      DanglingLast(env, m, p, left, pairs, pad);
    }
  }

  lemma DanglingCons(env: Env, m: Machine, p: seq<byte>, left: int, i: Instr, rest: seq<Instr>, pairs: seq<Pair>,
      pad: nat)
    requires ValidInstr(i) && Assemble(i) <= p && Exec(env, m, i).Some?
    requires Dangling(env, Exec(env, m, i).value, p[|Assemble(i)|..], left - |Assemble(i)|, rest, pairs, pad)
    ensures Dangling(env, m, p, left, [i] + rest, pairs, pad)
  {
    hide Exec, Assemble, AssembleAll, ExecAll, ExecPairs, AssemblePairs, ValidInstr, ValidPair;
    Cons(env, m, i, rest);
    Assoc(Assemble(i), AssembleAll(rest), [11 * 16 + pad] + AssemblePairs(pairs));
  }

  lemma DanglingLast(env: Env, m: Machine, p: seq<byte>, left: int, pairs: seq<Pair>, pad: nat)
    requires ValidPairs(pairs) && pad < 16 && p == [11 * 16 + pad] + AssemblePairs(pairs) && 0 < left <= |p| + 1
    requires ExecPairs(env, m, pairs, 0).Some?
    ensures Dangling(env, m, p, left, [], pairs, pad)
  {
    hide ExecPairs, AssemblePairs, ValidPair;
    assert [] + p == p;
  }

  /**
   * A successful run leaves the patch if and only if the bytes are a program and a nested patch that is not
   * terminated, and the byte read behind them was zero before. It then leaves it by that one byte.
   */
  lemma LeavesExact(env: Env, m: Machine, p: seq<byte>, left: int)
    ensures (Interpret(env, m, p, left).Some? && Extent(env, m, p, left) > |p|) <==>
            (env.stale == 0 && Unterminated(env, m, p, left))
    ensures Interpret(env, m, p, left).Some? ==> Extent(env, m, p, left) <= |p| + 1
  {
    hide Interpret, Extent, Dangling;
    if Interpret(env, m, p, left).Some? && Extent(env, m, p, left) > |p| {
      var prog, pairs, pad := LeavesBack(env, m, p, left);
      LeavesBy(env, m, p, left, prog, pairs, pad);
    }
    if env.stale == 0 && Unterminated(env, m, p, left) {
      var prog, pairs, pad: nat :| Dangling(env, m, p, left, prog, pairs, pad);
      LeavesBy(env, m, p, left, prog, pairs, pad);
    }
  }

  /** Such a patch is run to its end and one byte beyond. */
  lemma LeavesBy(env: Env, m: Machine, p: seq<byte>, left: int, prog: seq<Instr>, pairs: seq<Pair>, pad: nat)
    requires env.stale == 0 && Dangling(env, m, p, left, prog, pairs, pad)
    ensures Interpret(env, m, p, left).Some? && Extent(env, m, p, left) == |p| + 1
  {
    hide Interpret, Extent, ExecAll, ExecPairs, AssembleAll, AssemblePairs, ValidInstr, ValidPair;
    var a, b := AssembleAll(prog), [11 * 16 + pad] + AssemblePairs(pairs);
    ProgramFirst(env, m, prog, b, left - |a|);
    OpenRound(env, ExecAll(env, m, prog).value, pairs, pad, left - |a|);
  }

  /** With any other value of that byte a successful run stays inside, whatever length was announced. */
  lemma StaysInside(env: Env, m: Machine, p: seq<byte>, left: int)
    requires Interpret(env, m, p, left).Some? && env.stale != 0
    ensures Extent(env, m, p, left) <= |p|
  {
    hide Interpret, Extent, Unterminated;
    LeavesExact(env, m, p, left);
  }

  /** Shortest patch whose run leaves it: the opcode of a nested patch alone. */
  lemma LeavesExample(env: Env, m: Machine)
    requires env.stale == 0
    ensures Interpret(env, m, [0xB0], 1) == Some(m) && Extent(env, m, [0xB0], 1) == 2
  {
    OpenRound(env, m, [], 0, 1);
    assert [0xB0] + AssemblePairs([]) == [0xB0];
    FetchArgs(0xB0, [], [], m.addr);
    assert [0xB0] + [] + [] == [0xB0];
  }

  /** Whatever the stale byte is, a successful run stays inside if and only if the patch is not cut off like that. */
  lemma StaysInsideExact(env: Env, m: Machine, p: seq<byte>, left: int)
    ensures (forall stale: byte :: StaysIn(env.(stale := stale), m, p, left)) <==>
            !Unterminated(env.(stale := 0), m, p, left)
  {
    hide Interpret, Extent, Unterminated;
    forall stale: byte ensures StaysIn(env.(stale := stale), m, p, left) <==>
        !(stale == 0 && Unterminated(env.(stale := 0), m, p, left))
    {
      LeavesExact(env.(stale := stale), m, p, left);
    }
    assert StaysIn(env.(stale := 0), m, p, left) <==> !Unterminated(env.(stale := 0), m, p, left);
  }

  ghost predicate StaysIn(env: Env, m: Machine, p: seq<byte>, left: int) {
    Interpret(env, m, p, left).Some? ==> Extent(env, m, p, left) <= |p|
  }

  // ----- The announced length -----

  /** The bytes are the program `prog`, which runs. */
  ghost predicate IsProgram(env: Env, m: Machine, bytes: seq<byte>, prog: seq<Instr>) {
    ValidProgram(prog) && AssembleAll(prog) == bytes && ExecAll(env, m, prog).Some?
  }

  /** A successful run reads exactly the announced bytes if and only if they are a program that runs. */
  lemma AnnouncedExact(env: Env, m: Machine, p: seq<byte>, left: nat)
    requires left <= |p|
    ensures (Interpret(env, m, p, left).Some? && Extent(env, m, p, left) == left) <==>
            (exists prog :: IsProgram(env, m, p[..left], prog))
  {
    hide Interpret, Extent, ExecAll, AssembleAll, ValidProgram;
    if Interpret(env, m, p, left).Some? && Extent(env, m, p, left) == left {
      var prog := Disassembles(env, m, p, left);
      assert IsProgram(env, m, p[..left], prog);
    }
    if exists prog :: IsProgram(env, m, p[..left], prog) {
      var prog :| IsProgram(env, m, p[..left], prog);
      ProgramRead(env, m, p, left, prog);
    }
  }

  lemma ProgramRead(env: Env, m: Machine, p: seq<byte>, left: nat, prog: seq<Instr>)
    requires left <= |p| && IsProgram(env, m, p[..left], prog)
    ensures Interpret(env, m, p, left).Some? && Extent(env, m, p, left) == left
  {
    hide Interpret, Extent, ExecAll, AssembleAll, ValidInstr;
    assert p[..left] + p[left..] == p;
    ProgramFirst(env, m, prog, p[left..], 0);
    NoRound(env, ExecAll(env, m, prog).value, p[left..], 0);
  }

  /** A write of one byte, announced as one byte: the literal is read behind the announced end. */
  lemma ReadsOn(env: Env, m: Machine, x: byte)
    requires |m.out| < env.room
    ensures Interpret(env, m, [0x41, x], 1).Some? && Extent(env, m, [0x41, x], 1) == 2
  {
    var i := WriteI(U4, [x], 0);
    assert Assemble(i) == [0x41, x] && [0x41, x] + [] == [0x41, x];
    HeadDecodes(i, m.addr, [x]);
    BodyRuns(env, m, i, []);
    assert [x] + [] == [x] && [0x41] + [x] == [0x41, x];
    hide Fetch, RunOp;
    assert Drop([0x41, x], 1) == [x];
  }
}
