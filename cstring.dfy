/** memset (Kernel/string.c): memory is an array of bytes and the pointer
    `s` an index into it. */
module CString {

  /** The `uint8_t` a C `int` is stored as: its value modulo 256. */
  function Byte(c: int): (b: bv8)
    ensures b as int == c % 256
  {
    (c % 256) as bv8
  }

  /** `n` copies of `b`. */
  function Repeat(b: bv8, n: nat): (r: seq<bv8>)
    ensures |r| == n && forall k :: 0 <= k < n ==> r[k] == b
  {
    if n == 0 then [] else [b] + Repeat(b, n - 1)
  }

  /** Memory `m` with the `n` bytes from `s` replaced by `b`. */
  function Filled(m: seq<bv8>, s: nat, n: nat, b: bv8): (r: seq<bv8>)
    requires s + n <= |m|
    ensures |r| == |m|
  {
    m[..s] + Repeat(b, n) + m[s + n..]
  }

  /** Exactly the bytes of [s, s+n) hold `b`; all others are unchanged. */
  lemma FilledBytes(m: seq<bv8>, s: nat, n: nat, b: bv8)
    requires s + n <= |m|
    ensures forall k :: 0 <= k < |m| ==> Filled(m, s, n, b)[k] == if s <= k < s + n then b else m[k]
  {
    var r := Filled(m, s, n, b);
    forall k | 0 <= k < |m|
      ensures r[k] == if s <= k < s + n then b else m[k]
    {
      if k < s {
        assert r[k] == m[..s][k];
      } else if k < s + n {
        assert r[k] == Repeat(b, n)[k - s];
      } else {
        assert r[k] == m[s + n..][k - s - n];
      }
    }
  }

  /** A count of zero changes nothing. */
  lemma FillNothing(m: seq<bv8>, s: nat, b: bv8)
    requires s <= |m|
    ensures Filled(m, s, 0, b) == m
  {
    assert m[..s] + [] + m[s..] == m;
  }

  /** Filling twice with the same byte is filling once. */
  lemma FillIdempotent(m: seq<bv8>, s: nat, n: nat, b: bv8)
    requires s + n <= |m|
    ensures Filled(Filled(m, s, n, b), s, n, b) == Filled(m, s, n, b)
  {
    FilledBytes(m, s, n, b);
    FilledBytes(Filled(m, s, n, b), s, n, b);
  }

  /** memset (lines 11-21): returns `s`, and memory is `Filled`. */
  method Memset(mem: array<bv8>, s: nat, c: int, n: nat) returns (r: nat)
    requires s + n <= mem.Length
    modifies mem
    ensures r == s
    ensures mem[..] == Filled(old(mem[..]), s, n, Byte(c))
  {
    ghost var m := mem[..];
    var p := s;
    var left := n;
    while left > 0
      invariant s <= p <= s + n && left == s + n - p
      invariant forall k :: 0 <= k < mem.Length ==> mem[k] == if s <= k < p then Byte(c) else m[k]
    {
      mem[p] := Byte(c);
      p := p + 1;
      left := left - 1;
    }
    FilledBytes(m, s, n, Byte(c));
    assert mem[..] == Filled(m, s, n, Byte(c));
    r := s;
  }
}
