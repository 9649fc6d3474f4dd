/** What cutting long paths short does to the naming of one volume's objects. */
module Truncation {
  import opened Arithmetic
  import opened Bytes
  import opened Naming

  /** A data path after its base. */
  function Suffix(oid: seq<byte>): (s: string)
    requires |oid| == OID_LEN
    ensures |s| == 41
  {
    "/" + HexByte(oid[11]) + "/" + HexByte(oid[10]) + "/node=" + OidToStr(oid) + "." + Data.Extension()
  }

  /** How many characters of the suffix a path of MAX_PATH - 1 characters has room for. */
  function Visible(root: string, volume: string): (v: nat)
    ensures v <= 41
  {
    var b := |root| + |volume| + 8;
    if b + 41 < MAX_PATH then 41 else if b >= MAX_PATH then 0 else MAX_PATH - 1 - b
  }

  lemma SamePathIff(root: string, volume: string, a: seq<byte>, b: seq<byte>)
    requires |a| == OID_LEN && |b| == OID_LEN
    ensures var v := Visible(root, volume);
            DataPath(root, volume, a) == DataPath(root, volume, b) <==> Suffix(a)[..v] == Suffix(b)[..v]
  {
    hide Suffix;
    hide DataBase;
    var v, base := Visible(root, volume), DataBase(root, volume);
    SuffixOfPath(root, volume, a);
    SuffixOfPath(root, volume, b);
    hide FullDataPath;
    if |base| < MAX_PATH {
      CutAfter(base, Suffix(a), v);
      CutAfter(base, Suffix(b), v);
      SameFrontOff(base, Suffix(a)[..v], Suffix(b)[..v]);
    } else {
      assert (base + Suffix(a))[..MAX_PATH - 1] == base[..MAX_PATH - 1] == (base + Suffix(b))[..MAX_PATH - 1];
    }
  }

  lemma SuffixOfPath(root: string, volume: string, oid: seq<byte>)
    requires |oid| == OID_LEN
    ensures FullDataPath(root, volume, oid) == DataBase(root, volume) + Suffix(oid)
  {
    hide OidToStr;
    hide HexByte;
    hide DataBase;
  }

  lemma CutAfter(base: string, s: string, v: nat)
    requires |s| == 41 && |base| < MAX_PATH && v == if |base| + 41 < MAX_PATH then 41 else MAX_PATH - 1 - |base|
    ensures Truncate(base + s) == base + s[..v]
  {
  }

  lemma SameFrontOff(front: string, s: string, t: string)
    ensures front + s == front + t <==> s == t
  {
    assert (front + s)[|front|..] == s;
    assert (front + t)[|front|..] == t;
  }

  /** The byte whose hexadecimal text the suffix shows at a position, if any, and which of its digits. */
  function ByteShown(x: nat): (k: nat)
    ensures k <= OID_LEN
  {
    if 1 <= x < 3 then 11 else if 4 <= x < 6 then 10 else if 12 <= x < 36 then (x - 12) / 2 else OID_LEN
  }

  function Half(b: byte, high: bool): (d: nat)
    ensures d < 16
  {
    if high then b / 16 else b % 16
  }

  predicate HighDigit(x: nat) {
    x == 1 || x == 4 || (x >= 12 && x % 2 == 0)
  }

  lemma SuffixAt(oid: seq<byte>, x: nat)
    requires |oid| == OID_LEN && x < 41
    ensures ByteShown(x) < OID_LEN ==> Suffix(oid)[x] == Digit(Half(oid[ByteShown(x)], HighDigit(x)))
    ensures ByteShown(x) == OID_LEN ==> Suffix(oid)[x] == "/--/--/node=------------------------.data"[x]
  {
    var hex, tail := OidToStr(oid), "." + Data.Extension();
    var head := "/" + HexByte(oid[11]) + "/" + HexByte(oid[10]) + "/node=";
    assert Suffix(oid) == head + hex + tail && |head| == 12 && |hex| == 24;
    hide Suffix;
    hide OidToStr;
    if 12 <= x < 36 {
      var k := (x - 12) / 2;
      OidToStrAt(oid, k);
      assert Suffix(oid)[x] == hex[x - 12] == hex[2 * k..2 * k + 2][x - 12 - 2 * k];
    }
  }

  lemma DigitInjective(a: nat, b: nat)
    requires a < 16 && b < 16
    ensures Digit(a) == Digit(b) <==> a == b
  {
    DigitRoundTrip(a);
    DigitRoundTrip(b);
  }

  /** What the visible part shows of the counter: its bytes 11, 10, 8 and 9, in this order, digit by digit. */
  predicate Agree(v: nat, a: seq<byte>, b: seq<byte>)
    requires |a| == OID_LEN && |b| == OID_LEN
  {
    && (v >= 2 ==> a[11] / 16 == b[11] / 16) && (v >= 3 ==> a[11] % 16 == b[11] % 16)
    && (v >= 5 ==> a[10] / 16 == b[10] / 16) && (v >= 6 ==> a[10] % 16 == b[10] % 16)
    && (v >= 29 ==> a[8] / 16 == b[8] / 16) && (v >= 30 ==> a[8] % 16 == b[8] % 16)
    && (v >= 31 ==> a[9] / 16 == b[9] / 16) && (v >= 32 ==> a[9] % 16 == b[9] % 16)
  }

  /** Two suffixes show the same at one position. */
  ghost predicate SameAt(a: seq<byte>, b: seq<byte>, x: nat)
    requires |a| == OID_LEN && |b| == OID_LEN && x < 41
  {
    Suffix(a)[x] == Suffix(b)[x]
  }

  lemma SameAtIff(a: seq<byte>, b: seq<byte>, x: nat)
    requires |a| == OID_LEN && |b| == OID_LEN && x < 41
    ensures SameAt(a, b, x) <==>
      (ByteShown(x) < OID_LEN ==> Half(a[ByteShown(x)], HighDigit(x)) == Half(b[ByteShown(x)], HighDigit(x)))
  {
    SuffixAt(a, x);
    SuffixAt(b, x);
    hide Suffix;
    hide Digit;
    if ByteShown(x) < OID_LEN {
      DigitInjective(Half(a[ByteShown(x)], HighDigit(x)), Half(b[ByteShown(x)], HighDigit(x)));
    }
  }

  lemma AgreeIff(a: seq<byte>, b: seq<byte>, v: nat)
    requires |a| == OID_LEN && |b| == OID_LEN && a[..8] == b[..8] && v <= 41
    ensures Suffix(a)[..v] == Suffix(b)[..v] <==> Agree(v, a, b)
  {
    hide Suffix;
    if Agree(v, a, b) {
      forall x | 0 <= x < v ensures Suffix(a)[..v][x] == Suffix(b)[..v][x] {
        SameAtIff(a, b, x);
        assert forall k :: 0 <= k < 8 ==> a[..8][k] == a[k] && b[..8][k] == b[k];
      }
    }
    if Suffix(a)[..v] == Suffix(b)[..v] {
      forall x | 0 <= x < v ensures SameAt(a, b, x) {
        assert Suffix(a)[..v][x] == Suffix(b)[..v][x];
      }
      AgreeFrom(a, b, v);
    }
  }

  lemma AgreeFrom(a: seq<byte>, b: seq<byte>, v: nat)
    requires |a| == OID_LEN && |b| == OID_LEN && v <= 41
    requires forall x :: 0 <= x < v ==> SameAt(a, b, x)
    ensures Agree(v, a, b)
  {
    hide SameAt;
    SameAtIff(a, b, 1);
    SameAtIff(a, b, 2);
    SameAtIff(a, b, 4);
    SameAtIff(a, b, 5);
    SameAtIff(a, b, 28);
    SameAtIff(a, b, 29);
    SameAtIff(a, b, 30);
    SameAtIff(a, b, 31);
  }

  /**
   * What a path still shows of the counter: its value modulo `unit`, and modulo `groups` its quotient by
   * `rows` units.
   */
  datatype Window = Window(unit: nat, rows: nat, groups: nat) {
    predicate Valid() {
      unit > 0 && rows > 0 && groups > 0 && (groups == 1 <==> rows == 1)
    }

    function Row(): nat {
      rows * unit
    }

    predicate Same(m: nat, n: nat)
      requires Valid()
    {
      MulPositive(rows, unit);
      m % unit == n % unit && m / Row() % groups == n / Row() % groups
    }
  }

  lemma MulPositive(a: nat, b: nat)
    requires a > 0 && b > 0
    ensures a * b > 0
  {
    RowsApart(0, a, b);
  }

  /** The window left by v characters: level directories, then OID bytes 8 and 9, digit by digit. */
  function WindowOf(v: nat): (w: Window)
    ensures w.Valid()
  {
    if v < 2 then Window(1, 1, 1)
    else if v < 3 then Window(1, 16, 16)
    else if v < 5 then Window(0x100, 1, 1)
    else if v < 6 then Window(0x100, 16, 16)
    else if v < 29 then Window(0x1_0000, 1, 1)
    else if v < 30 then Window(0x1_0000, 0x1000, 16)
    else if v < 31 then Window(0x1_0000, 0x100, 0x100)
    else if v < 32 then Window(0x1_0000, 16, 0x1000)
    else Window(U32, 1, 1)
  }

  /** The least number of objects two of which cannot be told apart, for a counter that starts at c. */
  function AliasFrom(w: Window, c: nat): nat
    requires w.Valid()
  {
    MulPositive(w.rows, w.unit);
    if w.rows == 1 || c % w.Row() + w.unit < w.Row() then w.unit + 1 else 2 * w.unit - c % w.unit + 1
  }

  /** A counter in the last row of its group: what remains to the next group is what remains in the row. */
  lemma LastRow(c: nat, u: nat, r: nat, g: nat)
    requires u > 0 && r > 1 && g > 0 && g == r * u && c % g + u >= g
    ensures u <= g && c % u < u
    ensures c == c / g * g + g - u + c % u
  {
    DivMod(c, g);
    var q, e := c / g, c % g - (g - u);
    assert g == (r - 1) * u + u;
    assert q * g == (q * r) * u;
    assert c == (q * r + (r - 1)) * u + e by {
      assert (q * r + (r - 1)) * u == (q * r) * u + (r - 1) * u;
    }
    DivModOf(q * r + (r - 1), e, u);
  }

  lemma SameRemainder(x: nat, y: nat, u: nat)
    requires u > 0 && x < y && x % u == y % u
    ensures y - x >= u && (y - x < 2 * u ==> y - x == u)
  {
    DivMod(x, u);
    DivMod(y, u);
    var d := y / u - x / u;
    assert y - x == d * u;
    if d <= 0 {
      MulSign(-d, u);
    } else if d > 1 {
      MulSign(d - 2, u);
    }
  }

  /** No two objects before that number look the same. */
  lemma NoEarlierAlias(w: Window, c: nat, i: nat, j: nat)
    requires w.Valid() && i < j && w.Same(c + i, c + j)
    ensures j + 1 >= AliasFrom(w, c)
  {
    MulPositive(w.rows, w.unit);
    SameRemainder(c + i, c + j, w.unit);
    if w.rows > 1 && c % w.Row() + w.unit >= w.Row() && j < 2 * w.unit - c % w.unit {
      LastRow(c, w.unit, w.rows, w.Row());
      LeavesGroup(c, i, w.unit, w.Row(), w.groups);
    }
  }

  lemma LeavesGroup(c: nat, i: nat, u: nat, g: nat, k: nat)
    requires 0 < u <= g && k > 1 && c == c / g * g + g - u + c % u && c % u < u && i < u - c % u
    ensures (c + i) / g % k != (c + i + u) / g % k
  {
    OutOfGroup(c / g, g, u, c % u, i);
    NextDiffers(c / g, k);
  }

  /** From the last row of group q, one unit further is in group q + 1. */
  lemma OutOfGroup(q: nat, g: nat, u: nat, l: nat, i: nat)
    requires u <= g && l + i < u
    ensures var x := q * g + g - u + l + i;
            x / g == q && (x + u) / g == q + 1
  {
    assert (q + 1) * g == q * g + g;
    DivModOf(q, g - u + l + i, g);
    DivModOf(q + 1, l + i, g);
  }

  lemma NextDiffers(q: nat, k: nat)
    requires k > 1
    ensures q % k != (q + 1) % k
  {
    if q % k == (q + 1) % k {
      SameRemainder(q, q + 1, k);
    }
  }

  lemma EarlyPair(w: Window, c: nat)
    requires w.Valid() && w.Row() > 0 && (w.rows == 1 || c % w.Row() + w.unit < w.Row())
    ensures w.Same(c, c + w.unit)
  {
    SameAfterUnit(c, w.unit);
    if w.rows > 1 {
      DivMod(c, w.Row());
      DivModOf(c / w.Row(), c % w.Row() + w.unit, w.Row());
    }
  }

  /** The first two rows of the next group. */
  lemma LatePair(c: nat, u: nat, r: nat, g: nat)
    requires u > 0 && r > 1 && g > 0 && g == r * u && c % g + u >= g
    ensures c % u < u
    ensures var i, j := c + u - c % u, c + 2 * u - c % u;
            i % u == j % u && i / g == j / g
  {
    LastRow(c, u, r, g);
    var q := c / g + 1;
    assert q * g == c / g * g + g;
    RowsApart(1, r, u);
    DivModOf(q, 0, g);
    DivModOf(q, u, g);
    SameAfterUnit(q * g, u);
  }

  /** And there are two that look the same below every greater number. */
  lemma AliasPair(w: Window, c: nat) returns (i: nat, j: nat)
    requires w.Valid()
    ensures i < j && j + 1 == AliasFrom(w, c) && w.Same(c + i, c + j)
  {
    MulPositive(w.rows, w.unit);
    if w.rows == 1 || c % w.Row() + w.unit < w.Row() {
      i, j := 0, w.unit;
      EarlyPair(w, c);
    } else {
      LatePair(c, w.unit, w.rows, w.Row());
      i, j := w.unit - c % w.unit, 2 * w.unit - c % w.unit;
    }
  }

  lemma SameAfterUnit(x: nat, u: nat)
    requires u > 0
    ensures (x + u) % u == x % u
  {
    DivMod(x, u);
    assert (x / u + 1) * u == x / u * u + u;
    DivModOf(x / u + 1, x % u, u);
  }

  /** The hexadecimal digit of a number at a place, 1, 16, 256 and so on. */
  function DigitAt(m: nat, place: nat): (d: nat)
    requires place > 0
  {
    m / place % 16
  }

  /** A row of rows: the quotient by the whole is the quotient of the quotient. */
  lemma RowsInRows(p: nat, t: nat, f: nat, r: nat, k: nat)
    requires t < f && r < k
    ensures f * k > 0
    ensures ((p * f + t) * k + r) / (f * k) == p && ((p * f + t) * k + r) % (f * k) == t * k + r
  {
    RowsApart(t, f, k);
    assert (p * f + t) * k == p * (f * k) + t * k;
    DivModOf(p, t * k + r, f * k);
  }

  lemma SplitRemainder(x: nat, k: nat, f: nat)
    requires k > 0 && f > 0
    ensures f * k > 0 && x % (f * k) == x / k % f * k + x % k && x / (f * k) == x / k / f
  {
    DivMod(x, k);
    DivMod(x / k, f);
    RowsInRows(x / k / f, x / k % f, f, x % k, k);
  }

  lemma RemainderOfRemainder(x: nat, k: nat, f: nat)
    requires k > 0 && f > 0
    ensures f * k > 0 && x % (f * k) % k == x % k && x % (f * k) / k == x / k % f
  {
    SplitRemainder(x, k, f);
    DivModOf(x / k % f, x % k, k);
  }

  /** Byte k of a counter shows its digits at two places. */
  lemma BytesShowDigits(m: nat)
    requires m < U32
    ensures WordByte(m, 0) / 16 == DigitAt(m, 16) && WordByte(m, 0) % 16 == DigitAt(m, 1)
    ensures WordByte(m, 1) / 16 == DigitAt(m, 0x1000) && WordByte(m, 1) % 16 == DigitAt(m, 0x100)
    ensures WordByte(m, 2) / 16 == DigitAt(m, 0x10_0000) && WordByte(m, 2) % 16 == DigitAt(m, 0x1_0000)
    ensures WordByte(m, 3) / 16 == DigitAt(m, 0x1000_0000) && WordByte(m, 3) % 16 == DigitAt(m, 0x100_0000)
  {
    RemainderOfRemainder(m, 16, 16);
    RemainderOfRemainder(m / 0x100, 16, 16);
    RemainderOfRemainder(m / 0x1_0000, 16, 16);
    RemainderOfRemainder(m / 0x100_0000, 16, 16);
    SplitRemainder(m, 0x100, 16);
    SplitRemainder(m, 0x1_0000, 16);
    SplitRemainder(m, 0x100_0000, 16);
  }

  /** One digit more is a sixteen times greater modulus. */
  lemma DigitMore(x: nat, y: nat, k: nat)
    requires k > 0
    ensures x % (16 * k) == y % (16 * k) <==> x % k == y % k && DigitAt(x, k) == DigitAt(y, k)
  {
    SplitRemainder(x, k, 16);
    SplitRemainder(y, k, 16);
    DivModOf(x / k % 16, x % k, k);
    DivModOf(y / k % 16, y % k, k);
  }

  lemma DigitFurther(x: nat, k: nat, place: nat)
    requires k > 0 && place > 0
    ensures place * k > 0 && DigitAt(x / k, place) == DigitAt(x, place * k)
  {
    SplitRemainder(x, k, place);
  }

  /** Numbers with the same digits, from the lowest place up. */
  lemma LowDigits(m: nat, n: nat)
    ensures m % 16 == n % 16 <==> DigitAt(m, 1) == DigitAt(n, 1)
    ensures m % 0x100 == n % 0x100 <==> m % 16 == n % 16 && DigitAt(m, 16) == DigitAt(n, 16)
    ensures m % 0x1000 == n % 0x1000 <==> m % 0x100 == n % 0x100 && DigitAt(m, 0x100) == DigitAt(n, 0x100)
    ensures m % 0x1_0000 == n % 0x1_0000 <==> m % 0x1000 == n % 0x1000 && DigitAt(m, 0x1000) == DigitAt(n, 0x1000)
  {
    DigitMore(m, n, 16);
    DigitMore(m, n, 0x100);
    DigitMore(m, n, 0x1000);
  }

  lemma LowFour(m: nat, n: nat)
    ensures m % 0x1_0000 == n % 0x1_0000 <==>
      && DigitAt(m, 1) == DigitAt(n, 1) && DigitAt(m, 16) == DigitAt(n, 16)
      && DigitAt(m, 0x100) == DigitAt(n, 0x100) && DigitAt(m, 0x1000) == DigitAt(n, 0x1000)
  {
    hide DigitAt;
    LowDigits(m, n);
  }

  lemma HighDigits(m: nat, n: nat)
    ensures m / 0x100_0000 % 0x100 == n / 0x100_0000 % 0x100 <==>
      DigitAt(m, 0x100_0000) == DigitAt(n, 0x100_0000) && DigitAt(m, 0x1000_0000) == DigitAt(n, 0x1000_0000)
    ensures m / 0x10_0000 % 0x1000 == n / 0x10_0000 % 0x1000 <==>
      && DigitAt(m, 0x10_0000) == DigitAt(n, 0x10_0000)
      && m / 0x100_0000 % 0x100 == n / 0x100_0000 % 0x100
  {
    var a, b := m / 0x100_0000, n / 0x100_0000;
    DigitMore(a, b, 16);
    DigitFurther(m, 0x100_0000, 16);
    DigitFurther(n, 0x100_0000, 16);
    ThreeDigits(m / 0x10_0000, n / 0x10_0000);
    SplitRemainder(m, 0x10_0000, 16);
    SplitRemainder(n, 0x10_0000, 16);
  }

  lemma ThreeDigits(x: nat, y: nat)
    ensures x % 0x1000 == y % 0x1000 <==> x % 16 == y % 16 && x / 16 % 0x100 == y / 16 % 0x100
  {
    LowDigits(x, y);
    LowDigits(x / 16, y / 16);
    DigitFurther(x, 16, 16);
    DigitFurther(y, 16, 16);
    hide DigitAt;
  }

  lemma AllDigits(m: nat, n: nat)
    requires m < U32 && n < U32
    ensures m == n <==>
      && m % 0x1_0000 == n % 0x1_0000 && DigitAt(m, 0x1_0000) == DigitAt(n, 0x1_0000)
      && m / 0x10_0000 % 0x1000 == n / 0x10_0000 % 0x1000
  {
    DigitMore(m, n, 0x1_0000);
    hide DigitAt;
  }

  /** What v characters show of two counters is the same. */
  ghost predicate SameDigits(v: nat, m: nat, n: nat) {
    && (v >= 2 ==> DigitAt(m, 16) == DigitAt(n, 16)) && (v >= 3 ==> DigitAt(m, 1) == DigitAt(n, 1))
    && (v >= 5 ==> DigitAt(m, 0x1000) == DigitAt(n, 0x1000)) && (v >= 6 ==> DigitAt(m, 0x100) == DigitAt(n, 0x100))
    && (v >= 29 ==> DigitAt(m, 0x1000_0000) == DigitAt(n, 0x1000_0000))
    && (v >= 30 ==> DigitAt(m, 0x100_0000) == DigitAt(n, 0x100_0000))
    && (v >= 31 ==> DigitAt(m, 0x10_0000) == DigitAt(n, 0x10_0000))
    && (v >= 32 ==> DigitAt(m, 0x1_0000) == DigitAt(n, 0x1_0000))
  }

  lemma WindowShowsLow(v: nat, m: nat, n: nat)
    requires v < 29
    ensures WindowOf(v).Same(m, n) <==> SameDigits(v, m, n)
  {
    assert DigitAt(m, 16) == m / 16 % 16 && DigitAt(n, 16) == n / 16 % 16;
    assert DigitAt(m, 0x1000) == m / 0x1000 % 16 && DigitAt(n, 0x1000) == n / 0x1000 % 16;
    hide DigitAt;
    LowDigits(m, n);
  }

  lemma WindowShowsHigh(v: nat, m: nat, n: nat)
    requires 29 <= v < 32
    ensures WindowOf(v).Same(m, n) <==> SameDigits(v, m, n)
  {
    assert DigitAt(m, 0x1000_0000) == m / 0x1000_0000 % 16 && DigitAt(n, 0x1000_0000) == n / 0x1000_0000 % 16;
    hide DigitAt;
    LowFour(m, n);
    HighDigits(m, n);
  }

  lemma WindowShowsAll(v: nat, m: nat, n: nat)
    requires v >= 32 && m < U32 && n < U32
    ensures WindowOf(v).Same(m, n) <==> SameDigits(v, m, n)
  {
    assert WindowOf(v).Same(m, n) <==> m == n;
    hide DigitAt;
    hide Window.Same;
    LowFour(m, n);
    HighDigits(m, n);
    AllDigits(m, n);
  }

  /** The 32-bit wrap of the counter changes nothing in a window. */
  lemma WindowWraps(w: Window, f: nat, x: nat)
    requires w.Valid() && f > 0 && w.Row() > 0
    requires U32 == f * w.groups * w.rows * w.unit && U32 == f * w.groups * w.Row()
    ensures x % U32 % w.unit == x % w.unit
    ensures x % U32 / w.Row() % w.groups == x / w.Row() % w.groups
  {
    MulPositive(f, w.groups);
    MulPositive(f * w.groups, w.rows);
    RemainderOfRemainder(x, w.unit, f * w.groups * w.rows);
    RemainderOfRemainder(x, w.Row(), f * w.groups);
    RemainderOfRemainder(x / w.Row(), w.groups, f);
  }

  function Spare(v: nat): (f: nat)
    ensures f > 0
  {
    if v < 2 then U32 else if v < 5 then 0x100_0000 else if v < 29 then 0x1_0000 else 1
  }

  lemma CountersShow(v: nat, x: nat, y: nat)
    ensures WindowOf(v).Same(x, y) <==> SameDigits(v, x % U32, y % U32)
  {
    WindowWraps(WindowOf(v), Spare(v), x);
    WindowWraps(WindowOf(v), Spare(v), y);
    if v < 29 {
      WindowShowsLow(v, x % U32, y % U32);
    } else if v < 32 {
      WindowShowsHigh(v, x % U32, y % U32);
    } else {
      WindowShowsAll(v, x % U32, y % U32);
    }
    hide DigitAt;
    hide SameDigits;
  }

  lemma OidDigits(v: nat, a: seq<byte>, b: seq<byte>, m: nat, n: nat)
    requires |a| == OID_LEN && |b| == OID_LEN && m < U32 && n < U32
    requires a[8..] == CounterBytes(m) && b[8..] == CounterBytes(n)
    ensures Agree(v, a, b) <==> SameDigits(v, m, n)
  {
    BytesShowDigits(m);
    BytesShowDigits(n);
    assert a[8..][0] == a[8] && a[8..][1] == a[9] && a[8..][2] == a[10] && a[8..][3] == a[11];
    assert b[8..][0] == b[8] && b[8..][1] == b[9] && b[8..][2] == b[10] && b[8..][3] == b[11];
    hide DigitAt;
    hide WordByte;
  }

  lemma OidParts(start: seq<byte>, index: nat)
    requires |start| == OID_LEN
    ensures OidAt(start, index)[..8] == start[..8]
    ensures OidAt(start, index)[8..] == CounterBytes((Counter(start) + index) % U32)
  {
    hide CounterBytes;
  }

  /** Two objects of a volume have the same path exactly if their counters look the same in its window. */
  lemma SameIndexPathIff(root: string, volume: string, start: seq<byte>, i: nat, j: nat)
    requires |start| == OID_LEN
    ensures DataPath(root, volume, OidAt(start, i)) == DataPath(root, volume, OidAt(start, j)) <==>
      WindowOf(Visible(root, volume)).Same(Counter(start) + i, Counter(start) + j)
  {
    var a, b, v := OidAt(start, i), OidAt(start, j), Visible(root, volume);
    var x, y := Counter(start) + i, Counter(start) + j;
    OidParts(start, i);
    OidParts(start, j);
    hide OidAt;
    hide Counter;
    hide CounterBytes;
    SamePathIff(root, volume, a, b);
    AgreeIff(a, b, v);
    OidDigits(v, a, b, x % U32, y % U32);
    CountersShow(v, x, y);
  }

  ghost predicate IndexPathsDistinct(root: string, volume: string, start: seq<byte>, nbObjects: nat)
    requires |start| == OID_LEN
  {
    forall i: nat, j: nat :: i < j < nbObjects ==>
      DataPath(root, volume, OidAt(start, i)) != DataPath(root, volume, OidAt(start, j))
  }

  /**
   * The objects of a volume have distinct paths exactly if there are fewer of them than `AliasFrom` says for
   * the part of the path that is left and the counter of the volume's first OID. Any number up to 2^32 is fine
   * if the cut leaves OID byte 9, up to 65536 if it leaves the level directories, 256 if it leaves the first.
   */
  lemma IndexPathsDistinctIff(root: string, volume: string, start: seq<byte>, nbObjects: nat)
    requires |start| == OID_LEN
    ensures IndexPathsDistinct(root, volume, start, nbObjects) <==>
      nbObjects < AliasFrom(WindowOf(Visible(root, volume)), Counter(start))
    ensures var v := Visible(root, volume);
            && (v >= 3 && nbObjects <= 0x100 ==> IndexPathsDistinct(root, volume, start, nbObjects))
            && (v >= 6 && nbObjects <= 0x1_0000 ==> IndexPathsDistinct(root, volume, start, nbObjects))
            && (v >= 32 && nbObjects <= U32 ==> IndexPathsDistinct(root, volume, start, nbObjects))
  {
    hide OidAt;
    hide Counter;
    hide DataPath;
    var w, c := WindowOf(Visible(root, volume)), Counter(start);
    AtLeastUnit(w, c);
    hide AliasFrom;
    hide Window.Same;
    if nbObjects < AliasFrom(w, c) {
      forall i: nat, j: nat | i < j < nbObjects
        ensures DataPath(root, volume, OidAt(start, i)) != DataPath(root, volume, OidAt(start, j))
      {
        SameIndexPathIff(root, volume, start, i, j);
        if w.Same(c + i, c + j) {
          NoEarlierAlias(w, c, i, j);
        }
      }
    } else {
      var i, j := AliasPair(w, c);
      SameIndexPathIff(root, volume, start, i, j);
    }
  }

  lemma AtLeastUnit(w: Window, c: nat)
    requires w.Valid()
    ensures AliasFrom(w, c) > w.unit
  {
    DivMod(c, w.unit);
  }
}
