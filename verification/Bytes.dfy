/** Little-endian 64-bit words in byte strings. */
module Bytes {
  import opened Arithmetic
  import opened Sequences

  type Byte = x: int | 0 <= x < 256

  const TWO64: nat := 0x1_0000_0000_0000_0000
  const TWO63: nat := 0x8000_0000_0000_0000

  function Pow256(n: nat): (p: nat)
    ensures p > 0
  {
    if n == 0 then 1 else 256 * Pow256(n - 1)
  }

  lemma WordRange()
    ensures Pow256(8) == TWO64
  {
    assert Pow256(4) == 0x1_0000_0000;
    assert Pow256(5) == 256 * Pow256(4) && Pow256(6) == 256 * Pow256(5) && Pow256(7) == 256 * Pow256(6);
  }

  function EncodeLE(v: nat, n: nat): (b: seq<Byte>)
    ensures |b| == n
  {
    if n == 0 then [] else [v % 256] + EncodeLE(v / 256, n - 1)
  }

  function DecodeLE(b: seq<Byte>): (v: nat)
    ensures v < Pow256(|b|)
  {
    if b == [] then 0 else b[0] + 256 * DecodeLE(b[1..])
  }

  /** The powers in numbers. */
  lemma PowersOf256()
    ensures Pow256(0) == 1 && Pow256(1) == 0x100 && Pow256(2) == 0x1_0000 && Pow256(3) == 0x100_0000
    ensures Pow256(4) == 0x1_0000_0000 && Pow256(5) == 0x100_0000_0000 && Pow256(6) == 0x1_0000_0000_0000
    ensures Pow256(7) == 0x100_0000_0000_0000 && Pow256(8) == TWO64
  {
    assert Pow256(2) == 0x1_0000;
    assert Pow256(4) == 0x1_0000_0000;
    assert Pow256(6) == 0x1_0000_0000_0000;
  }

  /** Byte i counts the 256^i: the least significant byte comes first. */
  lemma {:induction false} EncodeAt(v: nat, n: nat, i: nat)
    requires i < n
    ensures EncodeLE(v, n)[i] == (v / Pow256(i)) % 256
  {
    if i > 0 {
      EncodeAt(v / 256, n - 1, i - 1);
      DivTwice(v, 256, Pow256(i - 1));
    }
  }

  lemma {:induction false} DecodeEncodeLE(v: nat, n: nat)
    requires v < Pow256(n)
    ensures DecodeLE(EncodeLE(v, n)) == v
  {
    if n > 0 {
      DecodeEncodeLE(v / 256, n - 1);
      assert EncodeLE(v, n)[1..] == EncodeLE(v / 256, n - 1);
    }
  }

  lemma {:induction false} EncodeDecodeLE(b: seq<Byte>)
    ensures EncodeLE(DecodeLE(b), |b|) == b
  {
    if b != [] {
      EncodeDecodeLE(b[1..]);
      LowDigit(b[0], DecodeLE(b[1..]));
      TakeDrop(b, 1);
    }
  }

  lemma LowDigit(d: nat, rest: nat)
    requires d < 256
    ensures (d + 256 * rest) % 256 == d && (d + 256 * rest) / 256 == rest
  {
  }

  // ----- words -----------------------------------------------------------------

  /** Every number fits an unsigned 64-bit word. */
  ghost predicate Fit(ws: seq<nat>) {
    forall i :: 0 <= i < |ws| ==> ws[i] < TWO64
  }

  function EncodeWords(ws: seq<nat>): (b: seq<Byte>)
    ensures |b| == 8 * |ws|
  {
    if ws == [] then [] else EncodeWords(ws[..|ws| - 1]) + EncodeLE(ws[|ws| - 1], 8)
  }

  function DecodeWords(b: seq<Byte>): (ws: seq<nat>)
    requires |b| % 8 == 0
    ensures |ws| == |b| / 8 && Fit(ws)
  {
    if b == [] then [] else
      WordRange();
      DecodeWords(b[..|b| - 8]) + [DecodeLE(b[|b| - 8..])]
  }

  lemma {:induction false} DecodeEncodeWords(ws: seq<nat>)
    requires Fit(ws)
    ensures DecodeWords(EncodeWords(ws)) == ws
  {
    if ws != [] {
      var n := |ws| - 1;
      WordRange();
      DecodeEncodeWords(ws[..n]);
      DecodeEncodeLE(ws[n], 8);
      var b := EncodeWords(ws);
      assert b[..|b| - 8] == EncodeWords(ws[..n]) && b[|b| - 8..] == EncodeLE(ws[n], 8);
    }
  }

  lemma EncodeSnoc(ws: seq<nat>, w: nat)
    ensures EncodeWords(ws + [w]) == EncodeWords(ws) + EncodeLE(w, 8)
  {
    hide EncodeLE;
    assert (ws + [w])[..|ws|] == ws;
  }

  lemma {:induction false} EncodeDecodeWords(b: seq<Byte>)
    requires |b| % 8 == 0
    ensures EncodeWords(DecodeWords(b)) == b
  {
    if b != [] {
      hide EncodeWords, EncodeLE, DecodeLE;
      var head, tail := b[..|b| - 8], b[|b| - 8..];
      EncodeDecodeWords(head);
      EncodeDecodeLE(tail);
      EncodeSnoc(DecodeWords(head), DecodeLE(tail));
      TakeDrop(b, |b| - 8);
    }
  }

  lemma {:induction false} EncodeConcat(a: seq<nat>, b: seq<nat>)
    ensures EncodeWords(a + b) == EncodeWords(a) + EncodeWords(b)
  {
    if b == [] {
      assert a + b == a;
    } else {
      hide EncodeLE;
      var n := |b| - 1;
      EncodeConcat(a, b[..n]);
      var init, last := b[..n], EncodeLE(b[n], 8);
      assert EncodeWords(a + b) == EncodeWords(a + init) + last by {
        assert (a + b)[..|a + b| - 1] == a + init;
      }
      Associate(EncodeWords(a), EncodeWords(init), last);
    }
  }

  lemma Middle<T>(a: seq<T>, b: seq<T>, c: seq<T>)
    ensures (a + b + c)[|a|..|a| + |b|] == b
  {
  }

  lemma EncodeThree(x: seq<nat>, y: seq<nat>, z: seq<nat>)
    ensures EncodeWords(x + y + z) == EncodeWords(x) + EncodeWords(y) + EncodeWords(z)
  {
    hide EncodeWords;
    EncodeConcat(x + y, z);
    EncodeConcat(x, y);
  }

  /** Word i starts at byte 8i. */
  lemma EncodeSlice(ws: seq<nat>, i: nat, j: nat)
    requires i <= j <= |ws|
    ensures EncodeWords(ws)[8 * i..8 * j] == EncodeWords(ws[i..j])
  {
    hide EncodeWords;
    var x, y, z := ws[..i], ws[i..j], ws[j..];
    var a, b, c := EncodeWords(x), EncodeWords(y), EncodeWords(z);
    SplitThree(ws, i, j);
    EncodeThree(x, y, z);
    Middle(a, b, c);
    assert 8 * i == |a| && 8 * j == |a| + |b|;
  }

  /** Byte i of word j, least significant first, at its place. */
  lemma WordByte(ws: seq<nat>, j: nat, i: nat)
    requires j < |ws| && i < 8
    ensures EncodeWords(ws)[8 * j + i] == (ws[j] / Pow256(i)) % 256
  {
    hide EncodeLE, EncodeWords, Pow256;
    EncodeAt(ws[j], 8, i);
    OneWord(ws[j]);
    assert ws[j..j + 1] == [ws[j]];
    EncodeSlice(ws, j, j + 1);
    SliceAt(EncodeWords(ws), 8 * j, 8 * (j + 1), i);
  }

  lemma OneWord(w: nat)
    ensures EncodeWords([w]) == EncodeLE(w, 8)
  {
    EncodeSnoc([], w);
    assert [] + [w] == [w] && EncodeWords([]) == [];
  }
}
