/** Machine integers as bytes, in both byte orders, and records of little-endian fields. */
module Bytes {

  newtype byte = x: int | 0 <= x < 256

  type u8 = x: nat | x < 0x100
  type u16 = x: nat | x < 0x1_0000
  type u32 = x: nat | x < 0x1_0000_0000
  type u64 = x: nat | x < 0x1_0000_0000_0000_0000

  /** The number of values of `n` bytes. */
  function Limit(n: nat): (l: nat)
    ensures l > 0
  {
    if n == 0 then 1 else 256 * Limit(n - 1)
  }

  lemma LowByte(q: nat, r: nat)
    requires r < 256
    ensures (256 * q + r) / 256 == q && (256 * q + r) % 256 == r
  {
  }

  function Little(n: nat, x: nat): (bs: seq<byte>)
    ensures |bs| == n
  {
    if n == 0 then [] else [(x % 256) as byte] + Little(n - 1, x / 256)
  }

  function FromLittle(bs: seq<byte>): (x: nat)
    ensures x < Limit(|bs|)
  {
    if |bs| == 0 then 0 else bs[0] as nat + 256 * FromLittle(bs[1..])
  }

  lemma {:induction false} LittleRoundTrip(n: nat, x: nat)
    requires x < Limit(n)
    ensures FromLittle(Little(n, x)) == x
  {
    if n > 0 {
      LittleRoundTrip(n - 1, x / 256);
      assert Little(n, x)[1..] == Little(n - 1, x / 256);
    }
  }

  lemma {:induction false} FromLittleRoundTrip(bs: seq<byte>)
    ensures Little(|bs|, FromLittle(bs)) == bs
  {
    if |bs| > 0 {
      FromLittleRoundTrip(bs[1..]);
      LowByte(FromLittle(bs[1..]), bs[0] as nat);
    }
  }

  function Big(n: nat, x: nat): (bs: seq<byte>)
    ensures |bs| == n
  {
    if n == 0 then [] else Big(n - 1, x / 256) + [(x % 256) as byte]
  }

  function FromBig(bs: seq<byte>): (x: nat)
    ensures x < Limit(|bs|)
  {
    if |bs| == 0 then 0 else 256 * FromBig(bs[..|bs| - 1]) + bs[|bs| - 1] as nat
  }

  lemma {:induction false} BigRoundTrip(n: nat, x: nat)
    requires x < Limit(n)
    ensures FromBig(Big(n, x)) == x
  {
    if n > 0 {
      BigRoundTrip(n - 1, x / 256);
      assert Big(n, x)[..n - 1] == Big(n - 1, x / 256);
    }
  }

  lemma QuotientTwice(x: nat, l: nat)
    requires l > 0
    ensures x / 256 / l == x / (256 * l)
  {
    var q, r := x / 256 / l, x / 256 % l;
    var rest := 256 * r + x % 256;
    assert x / 256 == q * l + r;
    assert x == (256 * l) * q + rest;
    assert rest < 256 * l by {
      assert r + 1 <= l;
    }
    QuotientIs(x, 256 * l, q, rest);
  }

  lemma QuotientIs(x: nat, d: nat, q: nat, rest: nat)
    requires rest < d && x == d * q + rest
    ensures x / d == q
  {
    TimesMore(d, x / d, q);
    TimesMore(d, q, x / d);
  }

  lemma {:induction false} TimesMore(d: nat, a: nat, b: nat)
    ensures a < b ==> d * b >= d * a + d
  {
    if a < b {
      TimesMore(d, a, b - 1);
      assert d * b == d * (b - 1) + d;
    }
  }

  /** Least significant byte first, and most significant byte first. */
  lemma {:induction false} LittleByte(n: nat, x: nat, i: nat)
    requires i < n
    ensures Little(n, x)[i] as nat == x / Limit(i) % 256
  {
    if i > 0 {
      LittleByte(n - 1, x / 256, i - 1);
      QuotientTwice(x, Limit(i - 1));
    }
  }

  lemma {:induction false} BigByte(n: nat, x: nat, i: nat)
    requires i < n
    ensures Big(n, x)[i] as nat == x / Limit(n - 1 - i) % 256
  {
    if i < n - 1 {
      BigByte(n - 1, x / 256, i);
      QuotientTwice(x, Limit(n - 2 - i));
    }
  }

  /** A four-byte word in either order, byte by byte. */
  lemma WordBytes(x: nat)
    requires x < 0x1_0000_0000
    ensures var bs := Little(4, x);
            && bs[0] as nat == x % 256 && bs[1] as nat == x / 0x100 % 256
            && bs[2] as nat == x / 0x1_0000 % 256 && bs[3] as nat == x / 0x100_0000
    ensures var bs := Big(4, x);
            && bs[0] as nat == x / 0x100_0000 && bs[1] as nat == x / 0x1_0000 % 256
            && bs[2] as nat == x / 0x100 % 256 && bs[3] as nat == x % 256
  {
    hide Little, Big;
    LimitWidths();
    LittleByte(4, x, 0);
    LittleByte(4, x, 1);
    LittleByte(4, x, 2);
    LittleByte(4, x, 3);
    BigByte(4, x, 0);
    BigByte(4, x, 1);
    BigByte(4, x, 2);
    BigByte(4, x, 3);
  }

  /** And back. */
  lemma BigWord(bs: seq<byte>)
    requires |bs| == 4
    ensures FromBig(bs) ==
            0x100_0000 * (bs[0] as nat) + 0x1_0000 * (bs[1] as nat) + 0x100 * (bs[2] as nat) + bs[3] as nat
  {
    assert bs[..3][..2] == bs[..2] && bs[..2][..1] == bs[..1] && bs[..1][..0] == [];
    assert FromBig(bs[..1]) == bs[0] as nat;
    assert FromBig(bs[..2]) == 0x100 * (bs[0] as nat) + bs[1] as nat;
    assert FromBig(bs[..3]) == 0x1_0000 * (bs[0] as nat) + 0x100 * (bs[1] as nat) + bs[2] as nat;
  }

  lemma LimitWidths()
    ensures Limit(0) == 1 && Limit(1) == 0x100 && Limit(2) == 0x1_0000 && Limit(3) == 0x100_0000
    ensures Limit(4) == 0x1_0000_0000
    ensures Limit(8) == 0x1_0000_0000_0000_0000
  {
    assert Limit(3) == 0x100_0000;
    assert Limit(5) == 0x100_0000_0000;
    assert Limit(6) == 0x1_0000_0000_0000;
    assert Limit(7) == 0x100_0000_0000_0000;
  }

  /** The size of a record whose fields have the given widths. */
  function Width(widths: seq<nat>): nat {
    if |widths| == 0 then 0 else widths[0] + Width(widths[1..])
  }

  ghost predicate FieldsFit(widths: seq<nat>, values: seq<nat>) {
    |values| == |widths| && forall i :: 0 <= i < |widths| ==> values[i] < Limit(widths[i])
  }

  function EncodeFields(widths: seq<nat>, values: seq<nat>): (bs: seq<byte>)
    requires |values| == |widths|
    ensures |bs| == Width(widths)
  {
    if |widths| == 0 then [] else Little(widths[0], values[0]) + EncodeFields(widths[1..], values[1..])
  }

  function DecodeFields(widths: seq<nat>, bs: seq<byte>): (values: seq<nat>)
    requires |bs| == Width(widths)
    ensures FieldsFit(widths, values)
  {
    if |widths| == 0 then []
    else [FromLittle(bs[..widths[0]])] + DecodeFields(widths[1..], bs[widths[0]..])
  }

  lemma {:induction false} FieldsRoundTrip(widths: seq<nat>, values: seq<nat>)
    requires FieldsFit(widths, values)
    ensures DecodeFields(widths, EncodeFields(widths, values)) == values
  {
    if |widths| > 0 {
      LittleRoundTrip(widths[0], values[0]);
      FieldsRoundTrip(widths[1..], values[1..]);
      var first := Little(widths[0], values[0]);
      assert EncodeFields(widths, values)[..widths[0]] == first;
      assert EncodeFields(widths, values)[widths[0]..] == EncodeFields(widths[1..], values[1..]);
    }
  }

  lemma {:induction false} RecordRoundTrip(widths: seq<nat>, bs: seq<byte>)
    requires |bs| == Width(widths)
    ensures EncodeFields(widths, DecodeFields(widths, bs)) == bs
  {
    if |widths| > 0 {
      FromLittleRoundTrip(bs[..widths[0]]);
      RecordRoundTrip(widths[1..], bs[widths[0]..]);
    }
  }
}
