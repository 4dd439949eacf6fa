/** The 8-bit shift register that scrambles the list: POLYSHIFT8, started at POLYINIT8. */
module Lfsr {

  const INIT: bv8 := 0xff

  /** `(x << 1) ^ (uint8)(((int8)x >> 7) & 0x1d)`: the arithmetic shift copies the top bit everywhere. */
  function Shift(x: bv8): bv8 {
    (x << 1) ^ ((if x & 0x80 != 0 then 0xff else 0) & 0x1d)
  }

  function Iterate(n: nat, x: bv8): bv8 {
    if n == 0 then x else Shift(Iterate(n - 1, x))
  }

  lemma ShiftInjective(x: bv8, y: bv8)
    requires Shift(x) == Shift(y)
    ensures x == y
  {
  }

  lemma {:induction false} IterateSum(m: nat, n: nat, x: bv8)
    ensures Iterate(m + n, x) == Iterate(m, Iterate(n, x))
  {
    if m > 0 {
      IterateSum(m - 1, n, x);
    }
  }

  lemma {:induction false} IterateInjective(n: nat, x: bv8, y: bv8)
    requires Iterate(n, x) == Iterate(n, y)
    ensures x == y
  {
    if n > 0 {
      ShiftInjective(Iterate(n - 1, x), Iterate(n - 1, y));
      IterateInjective(n - 1, x, y);
    }
  }

  lemma {:induction false} IterateNonzero(n: nat)
    ensures Iterate(n, INIT) != 0
  {
    if n > 0 {
      IterateNonzero(n - 1);
    }
  }

  function Five(x: bv8): bv8 {
    Shift(Shift(Shift(Shift(Shift(x)))))
  }

  /** The five values after `x` do not include the start. */
  predicate Away(x: bv8) {
    && Shift(x) != INIT
    && Shift(Shift(x)) != INIT
    && Shift(Shift(Shift(x))) != INIT
    && Shift(Shift(Shift(Shift(x)))) != INIT
    && Five(x) != INIT
  }

  lemma FiveMore(n: nat, x: bv8)
    requires Iterate(n, INIT) == x
    ensures Iterate(n + 5, INIT) == Five(x)
    ensures Away(x) ==> forall k :: n < k <= n + 5 ==> Iterate(k, INIT) != INIT
  {
    assert Iterate(n + 1, INIT) == Shift(x);
    assert Iterate(n + 2, INIT) == Shift(Shift(x));
    assert Iterate(n + 3, INIT) == Shift(Shift(Shift(x)));
    assert Iterate(n + 4, INIT) == Shift(Shift(Shift(Shift(x))));
    assert Iterate(n + 5, INIT) == Five(x);
  }

  lemma Orbit50()
    ensures Iterate(50, INIT) == 0x24
    ensures forall k :: 0 < k <= 50 ==> Iterate(k, INIT) != INIT
  {
    FiveMore(0, 0xff);
    FiveMore(5, 0x96);
    FiveMore(10, 0x37);
    FiveMore(15, 0xae);
    FiveMore(20, 0x64);
    FiveMore(25, 0x1c);
    FiveMore(30, 0xa7);
    FiveMore(35, 0x59);
    FiveMore(40, 0xef);
    FiveMore(45, 0xac);
  }

  lemma Orbit100()
    ensures Iterate(100, INIT) == 0xb4
    ensures forall k :: 0 < k <= 100 ==> Iterate(k, INIT) != INIT
  {
    Orbit50();
    FiveMore(50, 0x24);
    FiveMore(55, 0xf4);
    FiveMore(60, 0xeb);
    FiveMore(65, 0x2c);
    FiveMore(70, 0xe9);
    FiveMore(75, 0x6c);
    FiveMore(80, 0x1);
    FiveMore(85, 0x20);
    FiveMore(90, 0x74);
    FiveMore(95, 0x26);
  }

  lemma Orbit150()
    ensures Iterate(150, INIT) == 0x5e
    ensures forall k :: 0 < k <= 150 ==> Iterate(k, INIT) != INIT
  {
    Orbit100();
    FiveMore(100, 0xb4);
    FiveMore(105, 0x3);
    FiveMore(110, 0x60);
    FiveMore(115, 0x9c);
    FiveMore(120, 0x6a);
    FiveMore(125, 0xc1);
    FiveMore(130, 0x5);
    FiveMore(135, 0xa0);
    FiveMore(140, 0xb9);
    FiveMore(145, 0xbe);
  }

  lemma Orbit200()
    ensures Iterate(200, INIT) == 0x3b
    ensures forall k :: 0 < k <= 200 ==> Iterate(k, INIT) != INIT
  {
    Orbit150();
    FiveMore(150, 0x5e);
    FiveMore(155, 0xf);
    FiveMore(160, 0xfd);
    FiveMore(165, 0xd6);
    FiveMore(170, 0xdf);
    FiveMore(175, 0xe2);
    FiveMore(180, 0x11);
    FiveMore(185, 0x1a);
    FiveMore(190, 0x67);
    FiveMore(195, 0x7c);
  }

  lemma Orbit250()
    ensures Iterate(250, INIT) == 0xd7
    ensures forall k :: 0 < k <= 250 ==> Iterate(k, INIT) != INIT
  {
    Orbit200();
    FiveMore(200, 0x3b);
    FiveMore(205, 0x33);
    FiveMore(210, 0x2e);
    FiveMore(215, 0xa9);
    FiveMore(220, 0x84);
    FiveMore(225, 0x4d);
    FiveMore(230, 0x55);
    FiveMore(235, 0x72);
    FiveMore(240, 0xe6);
    FiveMore(245, 0x91);
  }

  /** The register returns to its start after 255 shifts and not before. */
  lemma Period()
    ensures Iterate(255, INIT) == INIT
    ensures forall k :: 0 < k < 255 ==> Iterate(k, INIT) != INIT
  {
    Orbit250();
    var x := Iterate(250, INIT);
    FiveMore(250, x);
    assert Iterate(251, INIT) == Shift(x);
    assert Iterate(252, INIT) == Shift(Shift(x));
    assert Iterate(253, INIT) == Shift(Shift(Shift(x)));
    assert Iterate(254, INIT) == Shift(Shift(Shift(Shift(x))));
  }

  /** So its first 255 values are distinct. */
  lemma DistinctShifts(i: nat, j: nat)
    requires i < j < 255
    ensures Iterate(i, INIT) != Iterate(j, INIT)
  {
    Period();
    IterateSum(i, j - i, INIT);
    if Iterate(i, INIT) == Iterate(j, INIT) {
      IterateInjective(i, INIT, Iterate(j - i, INIT));
    }
  }

  /** Entry `i` of the table `mixedup`: zero, then the values of the register. */
  function Mixed(i: nat): (x: nat)
    requires i < 256
    ensures x < 256
  {
    if i == 0 then 0 else Iterate(i - 1, INIT) as nat
  }

  lemma MixedInjective(i: nat, j: nat)
    requires i < j < 256
    ensures Mixed(i) != Mixed(j)
  {
    IterateNonzero(j - 1);
    if i > 0 {
      DistinctShifts(i - 1, j - 1);
    }
  }

  /** A shift drops the top bit, and if it was set turns the bits of the polynomial. */
  lemma ShiftIs(x: bv8)
    ensures x < 0x80 ==> Shift(x) == x << 1
    ensures x >= 0x80 ==> Shift(x) == (x << 1) ^ 0x1d
  {
  }

  /** The table of the comment: 0, then 0xff, and each later entry the shift of the one before. */
  ghost predicate IsTable(table: seq<nat>) {
    && |table| == 256 && (forall i :: 0 <= i < 256 ==> table[i] < 256)
    && table[0] == 0 && table[1] == 0xff
    && (forall i :: 1 <= i < 255 ==> table[i + 1] == Shift(table[i] as bv8) as nat)
  }

  lemma MixedNext(i: nat)
    requires 1 <= i < 255
    ensures Mixed(1) == 0xff && Mixed(i + 1) == Shift(Mixed(i) as bv8) as nat
  {
    assert Iterate(0, INIT) == INIT;
    SameByte(Iterate(i - 1, INIT));
  }

  lemma MixedIsTable(table: seq<nat>)
    requires |table| == 256 && forall j: nat :: j < 256 ==> table[j] == Mixed(j)
    ensures IsTable(table)
  {
    hide Mixed;
    MixedNext(1);
    MixedZero();
    forall i | 1 <= i < 255 ensures table[i + 1] == Shift(table[i] as bv8) as nat {
      MixedNext(i);
    }
  }

  lemma MixedZero()
    ensures Mixed(0) == 0
  {
  }

  lemma SameByte(x: bv8)
    ensures (x as nat) as bv8 == x
  {
  }

  lemma {:induction false} TableIsMixed(table: seq<nat>, i: nat)
    requires IsTable(table) && i < 256
    ensures table[i] == Mixed(i)
  {
    if i > 1 {
      TableIsMixed(table, i - 1);
      MixedNext(i - 1);
    } else if i == 1 {
      MixedNext(1);
    }
  }

  lemma FirstShifts()
    ensures Iterate(1, INIT) == 0xe3 && Iterate(2, INIT) == 0xdb
  {
    assert Iterate(1, INIT) == Shift(0xff);
  }

  lemma LastShifts()
    ensures Iterate(252, INIT) == 0x7b && Iterate(253, INIT) == 0xf6 && Iterate(254, INIT) == 0xf1
  {
    Orbit250();
    assert Iterate(251, INIT) == Shift(0xd7);
    assert Iterate(252, INIT) == Shift(Shift(0xd7));
  }

  /** Its first and its last values are those that the comment gives. */
  lemma TableValues(table: seq<nat>)
    requires IsTable(table)
    ensures table[..4] == [0, 0xff, 0xe3, 0xdb]
    ensures table[253..] == [0x7b, 0xf6, 0xf1]
  {
    hide Iterate, Mixed;
    FirstShifts();
    LastShifts();
    MixedIs(2, 0xe3);
    MixedIs(3, 0xdb);
    MixedIs(253, 0x7b);
    MixedIs(254, 0xf6);
    MixedIs(255, 0xf1);
    TableIsMixed(table, 2);
    TableIsMixed(table, 3);
    TableIsMixed(table, 253);
    TableIsMixed(table, 254);
    TableIsMixed(table, 255);
  }

  lemma MixedIs(i: nat, x: bv8)
    requires 1 <= i < 256 && Iterate(i - 1, INIT) == x
    ensures Mixed(i) == x as nat
  {
  }
}
