/** Bytes, flat memory and little-endian structure layouts. */
module Bytes {

  type byte = x: nat | x < 256

  /** The number of values of a 64-bit `UINTN`, `UINT64` or physical address. */
  const WORD: nat := 0x1_0000_0000_0000_0000

  /** `n` bytes of memory from address `a`; memory past its end reads as zero. */
  function Peek(mem: seq<byte>, a: nat, n: nat): (r: seq<byte>)
    ensures |r| == n
  {
    seq(n, i requires 0 <= i < n => if a + i < |mem| then mem[a + i] else 0)
  }

  /** Memory after `data` is stored at `a`; bytes past the end of memory are dropped. */
  function Poke(mem: seq<byte>, a: nat, data: seq<byte>): (r: seq<byte>)
    ensures |r| == |mem|
  {
    seq(|mem|, i requires 0 <= i < |mem| => if a <= i < a + |data| then data[i - a] else mem[i])
  }

  /** Memory after the `n` bytes from `a` are set to `v`. */
  function Fill(mem: seq<byte>, a: nat, n: nat, v: byte): (r: seq<byte>)
    ensures |r| == |mem|
  {
    seq(|mem|, i requires 0 <= i < |mem| => if a <= i < a + n then v else mem[i])
  }

  /** Two memories that agree on a range read the same there. */
  lemma PeekSame(mem: seq<byte>, mem': seq<byte>, a: nat, n: nat)
    requires |mem| == |mem'|
    requires forall i :: a <= i < a + n && i < |mem| ==> mem[i] == mem'[i]
    ensures Peek(mem, a, n) == Peek(mem', a, n)
  {
  }

  /** Reading a part of a range that was read is reading that part of memory. */
  lemma PeekPeek(mem: seq<byte>, a: nat, n: nat, b: nat, k: nat)
    requires b + k <= n
    ensures Peek(Peek(mem, a, n), b, k) == Peek(mem, a + b, k)
  {
  }

  lemma PeekPoke(mem: seq<byte>, a: nat, data: seq<byte>)
    requires a + |data| <= |mem|
    ensures Peek(Poke(mem, a, data), a, |data|) == data
  {
  }

  // ------------------------------------------------------------------ little-endian numbers

  function Pow256(w: nat): (r: nat)
    ensures r > 0
  {
    if w == 0 then 1 else 256 * Pow256(w - 1)
  }

  lemma Widths()
    ensures Pow256(1) == 0x100 && Pow256(2) == 0x1_0000
    ensures Pow256(4) == 0x1_0000_0000 && Pow256(8) == WORD
  {
  }

  function FromLE(s: seq<byte>): (v: nat)
    ensures v < Pow256(|s|)
  {
    if s == [] then 0 else s[0] + 256 * FromLE(s[1..])
  }

  function ToLE(v: nat, w: nat): (s: seq<byte>)
    ensures |s| == w
  {
    if w == 0 then [] else [v % 256] + ToLE(v / 256, w - 1)
  }

  lemma {:induction false} FromToLE(v: nat, w: nat)
    requires v < Pow256(w)
    ensures FromLE(ToLE(v, w)) == v
  {
    if w == 0 {
    } else {
      FromToLE(v / 256, w - 1);
      assert ToLE(v, w)[1..] == ToLE(v / 256, w - 1);
    }
  }

  lemma {:induction false} ToFromLE(s: seq<byte>)
    ensures ToLE(FromLE(s), |s|) == s
  {
    if s == [] {
    } else {
      ToFromLE(s[1..]);
      assert FromLE(s) % 256 == s[0] && FromLE(s) / 256 == FromLE(s[1..]);
    }
  }

  // ------------------------------------------------------------------ structure layouts

  /** A C structure without padding, as the byte widths of its fields in order. */
  type Layout = seq<nat>

  function SizeOf(ws: Layout): nat {
    if ws == [] then 0 else ws[0] + SizeOf(ws[1..])
  }

  ghost predicate InRange(ws: Layout, fs: seq<nat>) {
    |fs| == |ws| && forall i :: 0 <= i < |ws| ==> fs[i] < Pow256(ws[i])
  }

  function Pack(ws: Layout, fs: seq<nat>): (bs: seq<byte>)
    requires |fs| == |ws|
    ensures |bs| == SizeOf(ws)
  {
    if ws == [] then [] else ToLE(fs[0], ws[0]) + Pack(ws[1..], fs[1..])
  }

  function Unpack(ws: Layout, bs: seq<byte>): (fs: seq<nat>)
    requires |bs| == SizeOf(ws)
    ensures InRange(ws, fs)
  {
    if ws == [] then [] else [FromLE(bs[..ws[0]])] + Unpack(ws[1..], bs[ws[0]..])
  }

  lemma {:induction false} UnpackPack(ws: Layout, fs: seq<nat>)
    requires InRange(ws, fs)
    ensures Unpack(ws, Pack(ws, fs)) == fs
  {
    if ws == [] {
    } else {
      var bs := Pack(ws, fs);
      assert bs[..ws[0]] == ToLE(fs[0], ws[0]) && bs[ws[0]..] == Pack(ws[1..], fs[1..]);
      FromToLE(fs[0], ws[0]);
      UnpackPack(ws[1..], fs[1..]);
    }
  }

  lemma {:induction false} PackUnpack(ws: Layout, bs: seq<byte>)
    requires |bs| == SizeOf(ws)
    ensures Pack(ws, Unpack(ws, bs)) == bs
  {
    hide FromLE, ToLE;
    if ws == [] {
    } else {
      assert bs == bs[..ws[0]] + bs[ws[0]..];
      ToFromLE(bs[..ws[0]]);
      PackUnpack(ws[1..], bs[ws[0]..]);
    }
  }
}
