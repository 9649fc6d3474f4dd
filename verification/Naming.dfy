/** From an object index to an OID, and from an OID to the path of the object's file. */
module Naming {
  import opened Bytes

  const OID_LEN := 12
  const MAX_PATH := 4096

  // ---------- the OID counter ----------

  /** The four counter bytes of an OID, read most significant first. */
  function Counter(oid: seq<byte>): (n: nat)
    requires |oid| == OID_LEN
    ensures n < U32
  {
    (oid[8] as int) * 0x100_0000 + (oid[9] as int) * 0x1_0000 + (oid[10] as int) * 0x100 + oid[11] as int
  }

  /** Byte k of a 32-bit word, least significant first (a little-endian host). */
  function WordByte(n: nat, k: nat): byte
    requires k < 4
  {
    if k == 0 then n % 0x100
    else if k == 1 then n / 0x100 % 0x100
    else if k == 2 then n / 0x1_0000 % 0x100
    else n / 0x100_0000 % 0x100
  }

  function CounterBytes(n: nat): (bs: seq<byte>)
    ensures |bs| == 4
  {
    [WordByte(n, 3), WordByte(n, 2), WordByte(n, 1), WordByte(n, 0)]
  }

  /** The OID of object `index`: eight bytes kept, the counter advanced modulo 2^32. */
  function OidAt(start: seq<byte>, index: nat): (oid: seq<byte>)
    requires |start| == OID_LEN
    ensures |oid| == OID_LEN
  {
    start[..8] + CounterBytes((Counter(start) + index) % U32)
  }

  lemma WordBytesRoundTrip(n: nat)
    requires n < U32
    ensures WordByte(n, 3) * 0x100_0000 + WordByte(n, 2) * 0x1_0000 + WordByte(n, 1) * 0x100 + WordByte(n, 0) == n
  {
    var a := n / 0x100;
    var b := a / 0x100;
    assert b == n / 0x1_0000;
    assert b / 0x100 == n / 0x100_0000;
  }

  /** The counter of an object's OID is the start counter plus its index, modulo 2^32. */
  lemma CounterOfOid(start: seq<byte>, index: nat)
    requires |start| == OID_LEN
    ensures Counter(OidAt(start, index)) == (Counter(start) + index) % U32
    ensures OidAt(start, index)[..8] == start[..8]
    ensures var oid := OidAt(start, index);
            (oid[8] as int) * 0x100_0000 + (oid[9] as int) * 0x1_0000 + (oid[10] as int) * 0x100 + oid[11] as int
            == ((start[8] as int) * 0x100_0000 + (start[9] as int) * 0x1_0000 + (start[10] as int) * 0x100
                + start[11] as int + index) % 0x1_0000_0000
  {
    WordBytesRoundTrip((Counter(start) + index) % U32);
  }

  /** Below 2^32 the step from index to OID loses nothing. */
  lemma OidInjective(start: seq<byte>, i: nat, j: nat)
    requires |start| == OID_LEN && i < U32 && j < U32
    requires OidAt(start, i) == OidAt(start, j)
    ensures i == j
  {
    CounterOfOid(start, i);
    CounterOfOid(start, j);
    hide OidAt;
    hide Counter;
    SameSumMod(Counter(start), i, j);
  }

  lemma SameSumMod(c: nat, i: nat, j: nat)
    requires c < U32 && i < U32 && j < U32 && (c + i) % U32 == (c + j) % U32
    ensures i == j
  {
    assert (c + i) % U32 == if c + i < U32 then c + i else c + i - U32;
    assert (c + j) % U32 == if c + j < U32 then c + j else c + j - U32;
  }

  /** The OID is rebuilt byte by byte through a 32-bit word laid over the last four bytes. */
  method GetIndexToObject(start: seq<byte>, index: nat) returns (oid: seq<byte>)
    requires |start| == OID_LEN
    ensures oid == OidAt(start, index)
  {
    var buffer := new byte[OID_LEN](i requires 0 <= i < |start| => start[i]);
    var word := new byte[4];
    for counter := 0 to 4
      invariant forall k :: 0 <= k < counter ==> word[k] == start[11 - k]
      invariant buffer[..] == start
    {
      word[counter] := buffer[OID_LEN - counter - 1];
    }
    var value: nat :=
      (word[0] as int) + (word[1] as int) * 0x100 + (word[2] as int) * 0x1_0000 + (word[3] as int) * 0x100_0000;
    assert value == Counter(start);
    value := (value + index) % U32;
    for counter := 0 to 4
      invariant forall k :: 0 <= k < OID_LEN - counter ==> buffer[k] == start[k]
      invariant forall k :: 0 <= k < counter ==> buffer[11 - k] == WordByte(value, k)
    {
      buffer[OID_LEN - counter - 1] := WordByte(value, counter);
    }
    oid := buffer[..];
    assert buffer[11] == WordByte(value, 0) && buffer[11 - 1] == WordByte(value, 1)
        && buffer[11 - 2] == WordByte(value, 2) && buffer[11 - 3] == WordByte(value, 3);
    assert oid == OidAt(start, index);
  }

  // ---------- hexadecimal text ----------

  function Digit(n: nat): char
    requires n < 16
  {
    "0123456789ABCDEF"[n]
  }

  function DigitValue(c: char): nat {
    if '0' <= c <= '9' then (c - '0') as nat
    else if 'A' <= c <= 'F' then (c - 'A') as nat + 10
    else 0
  }

  function HexByte(b: byte): (h: string)
    ensures |h| == 2
  {
    [Digit(b / 16), Digit(b % 16)]
  }

  function OidToStr(oid: seq<byte>): (h: string)
    ensures |h| == 2 * |oid|
  {
    if oid == [] then "" else HexByte(oid[0]) + OidToStr(oid[1..])
  }

  function ParsePair(high: char, low: char): byte {
    (DigitValue(high) * 16 + DigitValue(low)) % 256
  }

  function ParseHex(text: string): seq<byte> {
    if |text| < 2 then [] else [ParsePair(text[0], text[1])] + ParseHex(text[2..])
  }

  lemma HexByteRoundTrip(b: byte)
    ensures ParsePair(HexByte(b)[0], HexByte(b)[1]) == b
  {
    DigitRoundTrip(b / 16);
    DigitRoundTrip(b % 16);
    hide DigitValue;
    hide Digit;
  }

  lemma DigitRoundTrip(n: nat)
    requires n < 16
    ensures DigitValue(Digit(n)) == n
  {
  }

  /** Hex decoding undoes `oid_to_str`. */
  lemma {:induction false} OidToStrRoundTrip(oid: seq<byte>)
    ensures ParseHex(OidToStr(oid)) == oid
  {
    hide ParsePair;
    hide HexByte;
    if oid != [] {
      HexByteRoundTrip(oid[0]);
      OidToStrRoundTrip(oid[1..]);
      ParseHexNext(HexByte(oid[0]), OidToStr(oid[1..]));
      assert [oid[0]] + oid[1..] == oid;
    }
  }

  lemma ParseHexNext(h: string, rest: string)
    requires |h| == 2
    ensures ParseHex(h + rest) == [ParsePair(h[0], h[1])] + ParseHex(rest)
  {
    hide ParsePair;
    assert (h + rest)[2..] == rest;
  }

  /** Two digits at position 2k show byte k. */
  lemma {:induction false} OidToStrAt(oid: seq<byte>, k: nat)
    requires k < |oid|
    ensures OidToStr(oid)[2 * k..2 * k + 2] == HexByte(oid[k])
  {
    if k == 0 {
      assert OidToStr(oid)[0..2] == HexByte(oid[0]);
    } else {
      OidToStrAt(oid[1..], k - 1);
      SliceOfBack(HexByte(oid[0]), OidToStr(oid[1..]), 2 * k, 2 * k + 2);
    }
  }

  /** The text of an OID is upper-case hexadecimal digits. */
  lemma {:induction false} OidToStrUpper(oid: seq<byte>)
    ensures forall i :: 0 <= i < |OidToStr(oid)| ==>
      '0' <= OidToStr(oid)[i] <= '9' || 'A' <= OidToStr(oid)[i] <= 'F'
  {
    if oid != [] {
      OidToStrUpper(oid[1..]);
      HexByteUpper(oid[0]);
      hide HexByte;
    }
  }

  lemma HexByteUpper(b: byte)
    ensures forall i :: 0 <= i < 2 ==> '0' <= HexByte(b)[i] <= '9' || 'A' <= HexByte(b)[i] <= 'F'
  {
  }

  lemma SliceOfBack(front: string, back: string, lo: nat, hi: nat)
    requires |front| <= lo <= hi <= |front| + |back|
    ensures (front + back)[lo..hi] == back[lo - |front|..hi - |front|]
  {
  }

  // ---------- paths ----------

  datatype PathKind = Data | Fetch | Backup {
    function Identifier(): string {
      match this case Data => "osd_id=" case Fetch => "tmp" case Backup => "osd_id="
    }
    function Extension(): string {
      match this case Data => "data" case Fetch => "tmp" case Backup => "bk"
    }
  }

  /** `snprintf` into a buffer of MAX_PATH bytes keeps one of them for the terminator. */
  function Truncate(path: string): string {
    if |path| < MAX_PATH then path else path[..MAX_PATH - 1]
  }

  function DataBase(root: string, volume: string): (b: string)
    ensures |b| == |root| + |volume| + 8
  {
    root + "/" + Data.Identifier() + volume
  }

  function LevelDirs(oid: seq<byte>): (d: string)
    requires |oid| == OID_LEN
    ensures |d| == 5
  {
    HexByte(oid[11]) + "/" + HexByte(oid[10])
  }

  /** `osd_object_to_dc_path`: where the object store looks for an object's file. */
  function FullDataPath(root: string, volume: string, oid: seq<byte>): string
    requires |oid| == OID_LEN
  {
    DataBase(root, volume) + "/" + HexByte(oid[11]) + "/" + HexByte(oid[10])
    + "/node=" + OidToStr(oid) + "." + Data.Extension()
  }

  function DataPath(root: string, volume: string, oid: seq<byte>): string
    requires |oid| == OID_LEN
  {
    Truncate(FullDataPath(root, volume, oid))
  }

  /** `object_to_dc_path`: the general builder with its three kinds of path. */
  function FullObjectPath(root: string, volume: string, kind: PathKind, oid: seq<byte>): string
    requires |oid| == OID_LEN
  {
    root + "/" + kind.Identifier() + volume + "/" + (if kind.Data? then LevelDirs(oid) else "/")
    + "/node=" + OidToStr(oid) + "." + kind.Extension()
  }

  /** Exactly when a data path is not cut short. */
  predicate Fits(root: string, volume: string) {
    |root| + |volume| + 49 < MAX_PATH
  }

  /** The pieces of a data path, by position after its base. */
  ghost predicate Shaped(p: string, root: string, volume: string, oid: seq<byte>)
    requires |oid| == OID_LEN
  {
    var b := |root| + |volume| + 8;
    && |p| == b + 41
    && p[..b] == DataBase(root, volume)
    && p[b + 1..b + 3] == HexByte(oid[11])
    && p[b + 4..b + 6] == HexByte(oid[10])
    && p[b + 12..b + 36] == OidToStr(oid)
  }

  lemma FullDataPathShape(root: string, volume: string, oid: seq<byte>)
    requires |oid| == OID_LEN
    ensures Shaped(FullDataPath(root, volume, oid), root, volume, oid)
  {
    var base := DataBase(root, volume);
    var dirs := "/" + HexByte(oid[11]) + "/" + HexByte(oid[10]) + "/node=";
    var hex := OidToStr(oid);
    var p := FullDataPath(root, volume, oid);
    assert p == base + dirs + hex + ".data";
    assert |dirs| == 12;
    assert dirs[1..3] == HexByte(oid[11]);
    assert dirs[4..6] == HexByte(oid[10]);
    var b := |base|;
    assert p[b..b + 12] == dirs;
    assert p[b + 1..b + 3] == dirs[1..3];
    assert p[b + 4..b + 6] == dirs[4..6];
  }

  lemma FitsIff(root: string, volume: string, oid: seq<byte>)
    requires |oid| == OID_LEN
    ensures Fits(root, volume) <==> |FullDataPath(root, volume, oid)| < 4096
    ensures Fits(root, volume) <==> DataPath(root, volume, oid) == FullDataPath(root, volume, oid)
  {
    FullDataPathShape(root, volume, oid);
    hide FullDataPath;
  }

  lemma OidToStrInjective(a: seq<byte>, b: seq<byte>)
    requires OidToStr(a) == OidToStr(b)
    ensures a == b
  {
    OidToStrRoundTrip(a);
    OidToStrRoundTrip(b);
  }

  lemma DataBaseInjective(root: string, v: string, w: string)
    requires DataBase(root, v) == DataBase(root, w)
    ensures v == w
  {
    assert DataBase(root, v)[|root| + 8..] == v;
    assert DataBase(root, w)[|root| + 8..] == w;
  }

  /** An uncut data path determines volume and OID, whatever characters the volume name holds. */
  lemma DataPathInjective(root: string, v: string, w: string, a: seq<byte>, b: seq<byte>)
    requires |a| == OID_LEN && |b| == OID_LEN
    requires Fits(root, v) && Fits(root, w)
    requires DataPath(root, v, a) == DataPath(root, w, b)
    ensures v == w && a == b
  {
    FullDataPathShape(root, v, a);
    FullDataPathShape(root, w, b);
    ShapeInjective(DataPath(root, v, a), root, v, w, a, b);
  }

  lemma ShapeInjective(p: string, root: string, v: string, w: string, a: seq<byte>, b: seq<byte>)
    requires |a| == OID_LEN && |b| == OID_LEN
    requires Shaped(p, root, v, a) && Shaped(p, root, w, b)
    ensures v == w && a == b
  {
    DataBaseInjective(root, v, w);
    OidToStrInjective(a, b);
  }

  /** The two builders name the same data file. */
  lemma BuildersAgree(root: string, volume: string, oid: seq<byte>)
    requires |oid| == OID_LEN
    ensures FullObjectPath(root, volume, Data, oid) == FullDataPath(root, volume, oid)
  {
    hide OidToStr;
    hide HexByte;
    var tail := "/node=" + OidToStr(oid) + "." + Data.Extension();
    assert FullObjectPath(root, volume, Data, oid) == DataBase(root, volume) + "/" + LevelDirs(oid) + tail;
    assert FullDataPath(root, volume, oid) == DataBase(root, volume) + "/" + LevelDirs(oid) + tail;
  }

  /** The three kinds of path, spelled out. */
  lemma PathsSpelledOut(root: string, volume: string, oid: seq<byte>)
    requires |oid| == OID_LEN
    ensures FullObjectPath(root, volume, Data, oid)
         == root + "/" + "osd_id=" + volume + "/" + (HexByte(oid[11]) + "/" + HexByte(oid[10]))
            + "/node=" + OidToStr(oid) + "." + "data"
    ensures FullObjectPath(root, volume, Fetch, oid)
         == root + "/" + "tmp" + volume + "/" + "/" + "/node=" + OidToStr(oid) + "." + "tmp"
    ensures FullObjectPath(root, volume, Backup, oid)
         == root + "/" + "osd_id=" + volume + "/" + "/" + "/node=" + OidToStr(oid) + "." + "bk"
  {
    hide OidToStr;
    hide HexByte;
  }

  /** Data, fetch and backup paths never meet, for any volumes and OIDs. */
  lemma KindsDisjoint(root: string, v: string, w: string, k: PathKind, l: PathKind, a: seq<byte>, b: seq<byte>)
    requires |a| == OID_LEN && |b| == OID_LEN && k != l
    ensures FullObjectPath(root, v, k, a) != FullObjectPath(root, w, l, b)
  {
    var p, q := FullObjectPath(root, v, k, a), FullObjectPath(root, w, l, b);
    assert p[|p| - 1] == k.Extension()[|k.Extension()| - 1];
    assert q[|q| - 1] == l.Extension()[|l.Extension()| - 1];
  }
}
