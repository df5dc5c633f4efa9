/** Little-endian numbers in byte buffers. */
module Bytes {
  import opened Arithmetic

  function Le(s: seq<byte>): nat {
    if s == [] then 0 else s[0] as int + 256 * Le(s[1..])
  }

  function ToLe(v: nat, n: nat): (r: seq<byte>)
    ensures |r| == n
  {
    if n == 0 then [] else [v % 256] + ToLe(v / 256, n - 1)
  }

  function Pow256(n: nat): nat {
    if n == 0 then 1 else 256 * Pow256(n - 1)
  }

  lemma {:induction false} LeBound(s: seq<byte>)
    ensures Le(s) < Pow256(|s|)
    decreases |s|
  {
    if s != [] {
      LeBound(s[1..]);
    }
  }

  lemma {:induction false} ToLeOfLe(s: seq<byte>)
    ensures ToLe(Le(s), |s|) == s
    decreases |s|
  {
    if s != [] {
      ToLeOfLe(s[1..]);
      DivModUnique(Le(s[1..]), s[0], 256);
      assert Le(s) == Le(s[1..]) * 256 + s[0];
    }
  }

  lemma {:induction false} LeOfToLe(v: nat, n: nat)
    requires v < Pow256(n)
    ensures Le(ToLe(v, n)) == v
    decreases n
  {
    if n > 0 {
      LeOfToLe(v / 256, n - 1);
      assert ToLe(v, n)[1..] == ToLe(v / 256, n - 1);
    }
  }

  lemma Powers()
    ensures Pow256(1) == 256 && Pow256(2) == U16 && Pow256(4) == U32
  {
    assert Pow256(1) == 256 * Pow256(0);
    assert Pow256(3) == 256 * Pow256(2);
  }

  lemma Assoc<T>(a: seq<T>, b: seq<T>, c: seq<T>)
    ensures (a + b) + c == a + (b + c)
  {
  }

  /** Taking apart a concatenation. */
  lemma Parts<T>(a: seq<T>, b: seq<T>)
    ensures (a + b)[..|a|] == a && (a + b)[|a|..] == b
  {
  }
}
