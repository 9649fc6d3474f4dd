/** Byte strings as the store's files, buffers and disks see them. */
module Bytes {
  import opened Arithmetic

  type byte = x: int | 0 <= x < 256

  const U32 := 0x1_0000_0000
  const U64 := 0x1_0000_0000_0000_0000

  function Min(a: int, b: int): int {
    if a <= b then a else b
  }

  function Zeros(n: nat): seq<byte> {
    seq(n, _ => 0)
  }

  /** Byte j of a file; every byte past its end counts as zero. */
  function At(file: seq<byte>, j: nat): byte {
    if j < |file| then file[j] else 0
  }

  /** What `fallocate` leaves: the file, zero-extended to at least n bytes. */
  function Grow(file: seq<byte>, n: nat): (grown: seq<byte>)
    ensures |grown| >= n && |grown| >= |file|
    ensures forall j: nat :: At(grown, j) == At(file, j)
  {
    if n <= |file| then file else file + Zeros(n - |file|)
  }

  /** What `pwrite` leaves: data laid at off, a gap before it filled with zeros. */
  function WriteAt(file: seq<byte>, off: nat, data: seq<byte>): (after: seq<byte>)
    ensures |after| >= |file|
    ensures forall j: nat ::
      At(after, j) == if off <= j < off + |data| then data[j - off] else At(file, j)
  {
    if data == [] then file
    else
      var wide := Grow(file, off + |data|);
      wide[..off] + data + wide[off + |data|..]
  }

  lemma WriteAtTwice(file: seq<byte>, off: nat, a: seq<byte>, b: seq<byte>)
    ensures WriteAt(WriteAt(file, off, a), off + |a|, b) == WriteAt(file, off, a + b)
  {
    var once := WriteAt(file, off, a);
    var twice := WriteAt(once, off + |a|, b);
    var whole := WriteAt(file, off, a + b);
    if a == [] {
      assert a + b == b;
    } else if b == [] {
      assert a + b == a;
    } else {
      assert |twice| == |whole|;
      forall j: nat | j < |whole| ensures twice[j] == whole[j] {
        assert At(twice, j) == At(whole, j);
      }
    }
  }

  /** The flat disk with data laid at a position. */
  function Overlay(disk: seq<byte>, at: nat, data: seq<byte>): (after: seq<byte>)
    requires at + |data| <= |disk|
    ensures |after| == |disk|
    ensures forall p :: 0 <= p < |disk| ==>
      after[p] == if at <= p < at + |data| then data[p - at] else disk[p]
  {
    disk[..at] + data + disk[at + |data|..]
  }

  lemma OverlayTwice(disk: seq<byte>, at: nat, a: seq<byte>, b: seq<byte>)
    requires at + |a| + |b| <= |disk|
    ensures Overlay(Overlay(disk, at, a), at + |a|, b) == Overlay(disk, at, a + b)
  {
  }

  /** The disk shows the data at a position. */
  ghost predicate Holds(disk: seq<byte>, at: nat, data: seq<byte>) {
    at + |data| <= |disk| && data == disk[at..at + |data|]
  }

  /** Bitwise or of the n low bits. */
  function OrBits(a: nat, b: nat, n: nat): (r: nat) {
    if n == 0 then 0
    else (if a % 2 == 1 || b % 2 == 1 then 1 else 0) + 2 * OrBits(a / 2, b / 2, n - 1)
  }

  function Pow2(n: nat): (p: nat)
    ensures p > 0
  {
    if n == 0 then 1 else 2 * Pow2(n - 1)
  }

  lemma {:induction false} OrBitsBelow(a: nat, b: nat, n: nat)
    ensures OrBits(a, b, n) < Pow2(n)
  {
    if n > 0 {
      OrBitsBelow(a / 2, b / 2, n - 1);
    }
  }

  function Or(a: byte, b: byte): byte {
    OrBitsBelow(a, b, 8);
    assert Pow2(8) == 256 by {
      assert Pow2(4) == 16;
    }
    OrBits(a, b, 8)
  }

  /** Bit k of a natural number. */
  predicate Bit(a: nat, k: nat) {
    if k == 0 then a % 2 == 1 else Bit(a / 2, k - 1)
  }

  lemma {:induction false} OrBitsMeaning(a: nat, b: nat, n: nat, k: nat)
    requires k < n
    ensures Bit(OrBits(a, b, n), k) == (Bit(a, k) || Bit(b, k))
  {
    var rest := OrBits(a / 2, b / 2, n - 1);
    assert OrBits(a, b, n) / 2 == rest;
    if k > 0 {
      OrBitsMeaning(a / 2, b / 2, n - 1, k - 1);
    }
  }

  /** Bit k of a byte or-ed with another, as `|=` has it. */
  lemma OrMeaning(a: byte, b: byte, k: nat)
    requires k < 8
    ensures Bit(Or(a, b), k) <==> Bit(a, k) || Bit(b, k)
  {
    OrBitsMeaning(a, b, 8, k);
  }

  lemma {:induction false} BitIs(a: nat, k: nat)
    ensures Bit(a, k) <==> a / Pow2(k) % 2 == 1
  {
    if k > 0 {
      BitIs(a / 2, k - 1);
      var p := Pow2(k - 1);
      assert a / 2 / p == a / (2 * p) by {
        HalfThenDivide(a, p);
      }
    }
  }

  lemma HalfThenDivide(a: nat, p: nat)
    requires p > 0
    ensures a / 2 / p == a / (2 * p)
  {
    var h := a / 2;
    DivMod(h, p);
    var q, r := h / p, h % p;
    assert a == q * (2 * p) + (2 * r + a % 2) by {
      assert q * (2 * p) == 2 * (q * p);
    }
    DivModOf(q, 2 * r + a % 2, 2 * p);
  }

  /** A number of n bits is known from them. */
  lemma {:induction false} BitsDetermine(a: nat, b: nat, n: nat)
    requires a < Pow2(n) && b < Pow2(n)
    requires forall k: nat :: k < n ==> (Bit(a, k) <==> Bit(b, k))
    ensures a == b
  {
    if n > 0 {
      assert Bit(a, 0) <==> Bit(b, 0);
      forall k: nat | k < n - 1 ensures Bit(a / 2, k) <==> Bit(b / 2, k) {
        assert Bit(a, k + 1) <==> Bit(b, k + 1);
      }
      BitsDetermine(a / 2, b / 2, n - 1);
    }
  }

  function OrSeq(a: seq<byte>, b: seq<byte>): (r: seq<byte>)
    requires |a| == |b|
    ensures |r| == |a|
  {
    seq(|a|, i requires 0 <= i < |a| => Or(a[i], b[i]))
  }
}
