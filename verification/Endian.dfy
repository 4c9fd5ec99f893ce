/** Big-endian fields written into a byte buffer in place, and read back. */
module Endian {
  import opened Blocks

  // The byte that is left after shifting right by k bytes.
  function ByteAt(v: nat, k: nat): Byte {
    if k == 0 then v % 256 else ByteAt(v / 256, k - 1)
  }

  // Number of values of a field of w bytes.
  function Span(w: nat): (r: nat)
    ensures r > 0
  {
    if w == 0 then 1 else 256 * Span(w - 1)
  }

  // The big-endian representation in w bytes.
  function Big(v: nat, w: nat): (r: Bytes)
    ensures |r| == w
  {
    if w == 0 then [] else Big(v / 256, w - 1) + [v % 256]
  }

  function FromBig(s: Bytes): nat {
    if s == [] then 0 else 256 * FromBig(s[..|s| - 1]) + s[|s| - 1]
  }

  lemma {:induction false} BigBytes(v: nat, w: nat, i: nat)
    requires i < w
    ensures Big(v, w)[i] == ByteAt(v, w - 1 - i)
  {
    if i < w - 1 { BigBytes(v / 256, w - 1, i); }
  }

  // Reading a field back gives the value modulo the width of the field.
  lemma {:induction false} RoundTrip(v: nat, w: nat)
    ensures FromBig(Big(v, w)) == v % Span(w)
  {
    if w > 0 {
      RoundTrip(v / 256, w - 1);
      var s := Big(v, w);
      assert s[..w - 1] == Big(v / 256, w - 1);
      ModuloOfWider(v, Span(w - 1));
    }
  }

  lemma ModuloOfWider(v: nat, m: nat)
    requires m > 0
    ensures 256 * (v / 256 % m) + v % 256 == v % (256 * m)
  {
    var q, r := v / 256 / m, 256 * (v / 256 % m) + v % 256;
    assert v / 256 == m * q + v / 256 % m;
    assert 256 * (m * q) == (256 * m) * q;
    assert v == (256 * m) * q + r;
    assert v / 256 % m <= m - 1;
    DivisionExact(256 * m, q, r);
  }

  // Every byte string is the representation of the value read from it.
  lemma {:induction false} RoundTripBack(s: Bytes)
    ensures FromBig(s) < Span(|s|) && Big(FromBig(s), |s|) == s
  {
    if s != [] {
      var front, last := s[..|s| - 1], s[|s| - 1];
      RoundTripBack(front);
      assert FromBig(s) / 256 == FromBig(front) && FromBig(s) % 256 == last;
    }
  }

  // The first byte is the most significant one.
  lemma {:induction false} FirstByteLeads(s: Bytes)
    requires s != []
    ensures s[0] * Span(|s| - 1) <= FromBig(s) < (s[0] as int + 1) * Span(|s| - 1)
  {
    if |s| > 1 {
      var front, last := s[..|s| - 1], s[|s| - 1];
      FirstByteLeads(front);
      var m := Span(|s| - 2);
      assert s[0] * (256 * m) == 256 * (s[0] * m);
      assert (s[0] as int + 1) * (256 * m) == 256 * ((s[0] as int + 1) * m);
    } else {
      assert FromBig(s[..0]) == 0;
    }
  }

  method ToBe16(out: array<Byte>, at: nat, v: nat)
    requires at + 2 <= out.Length && v < 0x1_0000
    modifies out
    ensures out[..] == Splice(old(out[..]), at, Big(v, 2))
  {
    BigBytes(v, 2, 0);
    BigBytes(v, 2, 1);
    out[at] := ByteAt(v, 1);
    out[at + 1] := ByteAt(v, 0);
  }

  method ToBe32(out: array<Byte>, at: nat, v: nat)
    requires at + 4 <= out.Length && v < 0x1_0000_0000
    modifies out
    ensures out[..] == Splice(old(out[..]), at, Big(v, 4))
  {
    forall i: nat | i < 4 ensures Big(v, 4)[i] == ByteAt(v, 3 - i) { BigBytes(v, 4, i); }
    out[at] := ByteAt(v, 3);
    out[at + 1] := ByteAt(v, 2);
    out[at + 2] := ByteAt(v, 1);
    out[at + 3] := ByteAt(v, 0);
  }

  method ToBe64(out: array<Byte>, at: nat, v: nat)
    requires at + 8 <= out.Length && v < 0x1_0000_0000_0000_0000
    modifies out
    ensures out[..] == Splice(old(out[..]), at, Big(v, 8))
  {
    forall i: nat | i < 8 ensures Big(v, 8)[i] == ByteAt(v, 7 - i) { BigBytes(v, 8, i); }
    out[at] := ByteAt(v, 7);
    out[at + 1] := ByteAt(v, 6);
    out[at + 2] := ByteAt(v, 5);
    out[at + 3] := ByteAt(v, 4);
    out[at + 4] := ByteAt(v, 3);
    out[at + 5] := ByteAt(v, 2);
    out[at + 6] := ByteAt(v, 1);
    out[at + 7] := ByteAt(v, 0);
  }

  // A byte shifted left by k bytes.
  function Shifted(b: Byte, k: nat): nat {
    b as nat * Span(k)
  }

  // The readers combine shifted bytes; as these do not overlap, "or" is addition.
  function FromBe16(s: Bytes): nat
    requires |s| >= 2
  {
    Shifted(s[0], 1) + Shifted(s[1], 0)
  }

  function FromBe32(s: Bytes): nat
    requires |s| >= 4
  {
    Shifted(s[0], 3) + Shifted(s[1], 2) + Shifted(s[2], 1) + Shifted(s[3], 0)
  }

  function FromBe64(s: Bytes): nat
    requires |s| >= 8
  {
    Shifted(s[0], 7) + Shifted(s[1], 6) + Shifted(s[2], 5) + Shifted(s[3], 4)
      + Shifted(s[4], 3) + Shifted(s[5], 2) + Shifted(s[6], 1) + Shifted(s[7], 0)
  }

  lemma FromBigStep(s: Bytes, k: nat)
    requires k < |s|
    ensures FromBig(s[..k + 1]) == 256 * FromBig(s[..k]) + s[k]
  {
    assert s[..k + 1][..k] == s[..k];
  }

  lemma Widths()
    ensures Span(0) == 1 && Span(1) == 256 && Span(2) == 0x1_0000 && Span(3) == 0x100_0000
    ensures Span(4) == 0x1_0000_0000 && Span(5) == 0x100_0000_0000
    ensures Span(6) == 0x1_0000_0000_0000 && Span(7) == 0x100_0000_0000_0000
    ensures Span(8) == 0x1_0000_0000_0000_0000
  {
  }

  lemma ReadsBig(s: Bytes)
    ensures |s| == 2 ==> FromBe16(s) == FromBig(s)
    ensures |s| == 4 ==> FromBe32(s) == FromBig(s)
    ensures |s| == 8 ==> FromBe64(s) == FromBig(s)
  {
    Widths();
    assert s[..|s|] == s && s[..0] == [];
    forall k: nat | k < |s| ensures FromBig(s[..k + 1]) == 256 * FromBig(s[..k]) + s[k] { FromBigStep(s, k); }
  }

  lemma SmallModulo(v: nat, m: nat)
    requires v < m
    ensures v % m == v
  {
  }

  // Each reader undoes its writer, for every value of its width.
  lemma ReadersReadBack(v: nat)
    ensures v < 0x1_0000 ==> FromBe16(Big(v, 2)) == v
    ensures v < 0x1_0000_0000 ==> FromBe32(Big(v, 4)) == v
    ensures v < 0x1_0000_0000_0000_0000 ==> FromBe64(Big(v, 8)) == v
  {
    Widths();
    forall w | w == 2 || w == 4 || w == 8
      ensures v < Span(w) ==> FromBig(Big(v, w)) == v
    {
      RoundTrip(v, w);
      if v < Span(w) { SmallModulo(v, Span(w)); }
    }
    ReadsBig(Big(v, 2));
    ReadsBig(Big(v, 4));
    ReadsBig(Big(v, 8));
  }
}
