/** How a collection of equal objects makes up one flat disk. */
module Geometry {
  import opened Arithmetic
  import opened Bytes
  import opened Naming
  import opened FileSystem
  import opened Placement

  datatype Collection = Collection(
    root: string, name: string, objectSize: nat, nbObjects: nat, startOid: seq<byte>, nodes: seq<Node>)
  {
    /** What `osd_init_collection` and the C widths ask of an opened collection. */
    predicate Valid() {
      && objectSize > 0
      && nbObjects <= 0x8000_0000
      && nbObjects * objectSize < U64
      && |startOid| == OID_LEN
      && Fits(root, name)
    }

    ghost function Capacity(): nat {
      nbObjects * objectSize
    }

    function Path(index: nat): string
      requires |startOid| == OID_LEN
    {
      DataPath(root, name, OidAt(startOid, index))
    }

    /** The requests the store serves. */
    ghost predicate Accepts(offset: nat, len: nat)
      requires Valid()
    {
      && offset < Capacity()
      && (offset % objectSize + len <= objectSize || offset + len < Capacity())
    }
  }

  // ---------- the address arithmetic of the C code ----------

  datatype Address = Address(index: nat, local: nat) | OutOfRange

  function Add64(a: nat, b: nat): nat {
    (a + b) % U64
  }

  /** `osd_offset_to_object` */
  function OffsetToObject(c: Collection, offset: nat): Address
    requires c.objectSize > 0
  {
    if offset >= c.nbObjects * c.objectSize % U64 then OutOfRange
    else Address(offset / c.objectSize, offset % c.objectSize)
  }

  datatype Span = Span(first: Address, last: Address) | Refused

  /** The range tests at the head of `osd_op_read` and `osd_op_write`. */
  function Locate(c: Collection, offset: nat, len: nat): Span
    requires c.objectSize > 0
  {
    var first := OffsetToObject(c, offset);
    if first.OutOfRange? then Refused
    else if Add64(first.local, len) > c.objectSize then
      var last := OffsetToObject(c, Add64(offset, len));
      if last.OutOfRange? then Refused else Span(first, last)
    else Span(first, first)
  }

  /** The tests accept exactly the requests of `Accepts`. */
  lemma LocateIffAccepts(c: Collection, offset: nat, len: nat)
    requires c.Valid() && offset + len < U64
    ensures Locate(c, offset, len).Span? <==> c.Accepts(offset, len)
    ensures c.Accepts(offset, len) ==>
      Locate(c, offset, len).first == Address(offset / c.objectSize, offset % c.objectSize)
    ensures c.Accepts(offset, len) && offset % c.objectSize + len > c.objectSize ==>
      var end := offset + len;
      Locate(c, offset, len).last == Address(end / c.objectSize, end % c.objectSize)
  {
    DivMod(offset, c.objectSize);
    OffsetToObjectRange(c, offset);
    OffsetToObjectRange(c, offset + len);
    NoWrap(offset, len);
    NoWrap(offset % c.objectSize, len);
  }

  lemma OffsetToObjectRange(c: Collection, offset: nat)
    requires c.Valid()
    ensures OffsetToObject(c, offset) ==
      if offset < c.Capacity() then Address(offset / c.objectSize, offset % c.objectSize) else OutOfRange
  {
    var capacity := c.Capacity();
    assert capacity % U64 == capacity;
  }

  lemma NoWrap(a: nat, b: nat)
    requires a + b < U64
    ensures Add64(a, b) == a + b
  {
  }

  /** A request up to the last byte of the disk is served only if it stays within the last object. */
  lemma LastByteAcrossObjectsRefused(c: Collection, offset: nat, len: nat)
    requires c.Valid() && offset < c.Capacity() && offset + len == c.Capacity()
    ensures c.Accepts(offset, len) <==> offset / c.objectSize == c.nbObjects - 1
  {
    var q, s := offset / c.objectSize, c.objectSize;
    DivMod(offset, s);
    Within(c, offset);
    if q == c.nbObjects - 1 {
      assert q * s == c.nbObjects * s - s;
    } else {
      RowsApart(q + 1, c.nbObjects, s);
      assert (q + 1) * s == q * s + s;
    }
  }

  /** A position below the capacity lies in an object of the collection. */
  lemma Within(c: Collection, offset: nat)
    requires c.Valid() && offset < c.Capacity()
    ensures offset / c.objectSize < c.nbObjects
  {
    Quotient(offset, c.objectSize);
    MulCancel(offset / c.objectSize, c.nbObjects, c.objectSize);
  }

  /** Byte `local` of object `index`, as a position on the disk. */
  lemma PositionOf(c: Collection, index: nat, local: nat, len: nat)
    requires c.Valid() && index < c.nbObjects && local + len <= c.objectSize
    ensures index * c.objectSize + local + len <= c.Capacity()
  {
    RowsApart(index, c.nbObjects, c.objectSize);
  }

  // ---------- the pieces a request is cut into ----------

  datatype Piece = Piece(index: nat, local: nat, len: nat) {
    function Start(size: nat): nat {
      index * size + local
    }
  }

  /** The loop's plan from object `index`, position `local` in it, with len bytes to go. */
  function Plan(size: nat, index: nat, local: nat, len: nat): (ps: seq<Piece>)
    requires local < size
    decreases len
  {
    if len == 0 then []
    else
      var n := if len >= size - local then size - local else len;
      [Piece(index, local, n)] + Plan(size, index + 1, 0, len - n)
  }

  /** Pieces follow each other on the disk from start to end, none crossing an object boundary. */
  ghost predicate Tiles(size: nat, ps: seq<Piece>, start: nat, end: nat) {
    if ps == [] then start == end
    else
      && ps[0].Start(size) == start
      && ps[0].len > 0 && ps[0].local + ps[0].len <= size
      && Tiles(size, ps[1..], start + ps[0].len, end)
  }

  lemma {:induction false} PlanTiles(size: nat, index: nat, local: nat, len: nat)
    requires local < size
    ensures Tiles(size, Plan(size, index, local, len), index * size + local, index * size + local + len)
    decreases len
  {
    if len > 0 {
      var ps := Plan(size, index, local, len);
      var n := ps[0].len;
      assert ps[1..] == Plan(size, index + 1, 0, len - n);
      if n == len {
        assert ps[1..] == [];
      } else {
        assert (index + 1) * size == index * size + size;
        PlanTiles(size, index + 1, 0, len - n);
      }
    }
  }

  /** Some piece holds a position. */
  ghost predicate Held(size: nat, ps: seq<Piece>, x: nat) {
    exists k :: 0 <= k < |ps| && ps[k].Start(size) <= x < ps[k].Start(size) + ps[k].len
  }

  lemma HeldNext(size: nat, ps: seq<Piece>, x: nat)
    requires ps != []
    ensures Held(size, ps, x) <==> ps[0].Start(size) <= x < ps[0].Start(size) + ps[0].len || Held(size, ps[1..], x)
  {
    hide Piece.Start;
    var rest := ps[1..];
    if k :| 0 <= k < |rest| && rest[k].Start(size) <= x < rest[k].Start(size) + rest[k].len {
      assert ps[k + 1] == rest[k];
    }
    if k :| 0 < k < |ps| && ps[k].Start(size) <= x < ps[k].Start(size) + ps[k].len {
      assert rest[k - 1] == ps[k];
    }
  }

  lemma {:induction false} TilesInOrder(size: nat, ps: seq<Piece>, start: nat, end: nat)
    requires Tiles(size, ps, start, end)
    ensures start <= end
    ensures forall j, k :: 0 <= j < k < |ps| ==> ps[j].Start(size) + ps[j].len <= ps[k].Start(size)
    ensures forall k :: 0 <= k < |ps| ==> start <= ps[k].Start(size) && ps[k].local + ps[k].len <= size
  {
    if ps != [] {
      TilesInOrder(size, ps[1..], start + ps[0].len, end);
      hide Tiles;
      hide Piece.Start;
      assert forall k :: 1 <= k < |ps| ==> ps[k] == ps[1..][k - 1];
    }
  }

  /** Tiling pieces hold every position of the range, and no position twice. */
  lemma {:induction false} TilesPartition(size: nat, ps: seq<Piece>, start: nat, end: nat, x: nat)
    requires Tiles(size, ps, start, end)
    ensures start <= end && (start <= x < end <==> Held(size, ps, x))
    ensures forall j, k :: 0 <= j < k < |ps| ==> ps[j].Start(size) + ps[j].len <= ps[k].Start(size)
    ensures forall k :: 0 <= k < |ps| ==> start <= ps[k].Start(size) && ps[k].local + ps[k].len <= size
  {
    TilesInOrder(size, ps, start, end);
    if ps != [] {
      TilesPartition(size, ps[1..], start + ps[0].len, end, x);
      HeldNext(size, ps, x);
      hide Held;
    }
  }

  /** Where the loop stops: one past the last object that holds a byte of the request. */
  lemma {:induction false} PlanEnd(size: nat, index: nat, local: nat, len: nat)
    requires local < size && len > 0
    ensures var end := index * size + local + len;
            index + |Plan(size, index, local, len)| == end / size + (if end % size > 0 then 1 else 0)
    decreases len
  {
    var n := if len >= size - local then size - local else len;
    assert (index + 1) * size == index * size + size;
    if n == len {
      assert Plan(size, index + 1, 0, 0) == [];
      if local + len == size {
        DivModOf(index + 1, 0, size);
      } else {
        DivModOf(index, local + len, size);
      }
    } else {
      PlanEnd(size, index + 1, 0, len - n);
    }
  }

  /** The pieces of a request for len bytes at a position of the disk. */
  function Pieces(size: nat, offset: nat, len: nat): seq<Piece>
    requires size > 0
  {
    Plan(size, offset / size, offset % size, len)
  }

  /** The same for a request given by its position on the disk. */
  lemma PlanEndAt(size: nat, offset: nat, len: nat)
    requires size > 0 && len > 0
    ensures var end := offset + len;
            offset / size + |Pieces(size, offset, len)|
            == end / size + (if end % size > 0 then 1 else 0)
  {
    DivMod(offset, size);
    PlanEnd(size, offset / size, offset % size, len);
  }

  lemma PlanTilesAt(size: nat, offset: nat, len: nat)
    requires size > 0
    ensures Tiles(size, Pieces(size, offset, len), offset, offset + len)
  {
    DivMod(offset, size);
    PlanTiles(size, offset / size, offset % size, len);
  }

  /** On the crossing path the loop's last index is the one the code computes beforehand and never uses. */
  lemma CrossingEnd(c: Collection, offset: nat, len: nat)
    requires c.Valid() && offset + len < U64 && c.Accepts(offset, len)
    requires offset % c.objectSize + len > c.objectSize
    ensures var s := Locate(c, offset, len);
            && s.Span? && s.first.Address? && s.last.Address?
            && s.first.index + |Pieces(c.objectSize, offset, len)|
               == s.last.index + (if s.last.local > 0 then 1 else 0)
  {
    DivMod(offset, c.objectSize);
    LocateIffAccepts(c, offset, len);
    PlanEndAt(c.objectSize, offset, len);
  }

  /** An accepted request is partitioned by its plan, inside the collection's objects. */
  lemma PlanPartitions(c: Collection, offset: nat, len: nat)
    requires c.Valid() && c.Accepts(offset, len)
    ensures Tiles(c.objectSize, Pieces(c.objectSize, offset, len), offset, offset + len)
    ensures forall k :: 0 <= k < |Pieces(c.objectSize, offset, len)| ==>
      Pieces(c.objectSize, offset, len)[k].index < c.nbObjects
  {
    AcceptedFits(c, offset, len);
    PlanTilesAt(c.objectSize, offset, len);
    TilesBelow(c.objectSize, Pieces(c.objectSize, offset, len), offset, offset + len, c.nbObjects);
  }

  lemma TilesBelow(size: nat, ps: seq<Piece>, start: nat, end: nat, n: nat)
    requires Tiles(size, ps, start, end) && end <= n * size
    ensures forall k :: 0 <= k < |ps| ==> ps[k].index < n
  {
    forall k | 0 <= k < |ps| ensures ps[k].index < n {
      TilesInside(size, ps, start, end, k);
      MulCancel(ps[k].index, n, size);
    }
  }

  lemma AcceptedFits(c: Collection, offset: nat, len: nat)
    requires c.Valid() && c.Accepts(offset, len)
    ensures offset + len <= c.Capacity()
    ensures offset / c.objectSize < c.nbObjects
  {
    Within(c, offset);
    if offset % c.objectSize + len <= c.objectSize {
      PositionOf(c, offset / c.objectSize, offset % c.objectSize, len);
    }
  }

  lemma {:induction false} TilesInside(size: nat, ps: seq<Piece>, start: nat, end: nat, k: nat)
    requires Tiles(size, ps, start, end) && k < |ps|
    ensures start <= ps[k].Start(size) && ps[k].Start(size) + ps[k].len <= end && ps[k].len > 0
  {
    if k > 0 {
      TilesInside(size, ps[1..], start + ps[0].len, end, k - 1);
    } else {
      TilesPartition(size, ps[1..], start + ps[0].len, end, 0);
    }
  }

  // ---------- the flat disk ----------

  /** Byte p of the disk is byte p mod size of the file of object p div size. */
  ghost function Disk(fs: Fs, c: Collection): (d: seq<byte>)
    requires c.Valid()
    ensures |d| == c.Capacity()
  {
    seq(c.Capacity(), p requires 0 <= p => fs.ByteAt(c.Path(p / c.objectSize), p % c.objectSize))
  }

  /** Object files never alias within a collection. */
  lemma PathInjective(c: Collection, i: nat, j: nat)
    requires c.Valid() && i < c.nbObjects && j < c.nbObjects && c.Path(i) == c.Path(j)
    ensures i == j
  {
    DataPathInjective(c.root, c.name, c.name, OidAt(c.startOid, i), OidAt(c.startOid, j));
    OidInjective(c.startOid, i, j);
  }

  lemma DiskByte(fs: Fs, c: Collection, index: nat, local: nat)
    requires c.Valid() && index < c.nbObjects && local < c.objectSize
    ensures index * c.objectSize + local < c.Capacity()
    ensures Disk(fs, c)[index * c.objectSize + local] == fs.ByteAt(c.Path(index), local)
  {
    hide DataPath;
    hide OidAt;
    PositionOf(c, index, local, 1);
    DivModOf(index, local, c.objectSize);
  }

  lemma SameDisk(fs: Fs, fs': Fs, c: Collection)
    requires c.Valid() && SameBytes(fs, fs')
    ensures Disk(fs', c) == Disk(fs, c)
  {
    hide DataPath;
    hide OidAt;
  }

  /** A write inside one object's file is a write on the flat disk. */
  lemma LaidOnDisk(fs: Fs, fs': Fs, c: Collection, index: nat, off: nat, data: seq<byte>)
    requires c.Valid() && index < c.nbObjects && off + |data| <= c.objectSize
    requires Laid(fs, fs', c.Path(index), off, data)
    ensures index * c.objectSize + off + |data| <= c.Capacity()
    ensures Disk(fs', c) == Overlay(Disk(fs, c), index * c.objectSize + off, data)
  {
    hide DataPath;
    hide OidAt;
    PositionOf(c, index, off, |data|);
    var s := c.objectSize;
    var after := Overlay(Disk(fs, c), index * s + off, data);
    forall p | 0 <= p < c.Capacity() ensures Disk(fs', c)[p] == after[p] {
      Within(c, p);
      var q, r := p / s, p % s;
      DivMod(p, s);
      if q != index && c.Path(q) == c.Path(index) {
        PathInjective(c, q, index);
      }
      OtherObject(q, r, index, off, |data|, s);
    }
  }

  lemma OtherObject(q: nat, r: nat, index: nat, off: nat, len: nat, s: nat)
    requires r < s && off + len <= s
    ensures index * s + off <= q * s + r < index * s + off + len <==> q == index && off <= r < off + len
  {
    if q < index {
      RowsApart(q, index, s);
    } else if q > index {
      RowsApart(index, q, s);
    }
  }

  // ---------- frames ----------

  ghost predicate IsObjectPath(c: Collection, path: string)
    requires c.Valid()
  {
    exists i: nat :: i < c.nbObjects && path == c.Path(i)
  }

  /** Nothing outside the collection's own object files shows a change. */
  ghost predicate SameElsewhere(fs: Fs, fs': Fs, c: Collection)
    requires c.Valid()
  {
    forall p, j: nat :: !IsObjectPath(c, p) ==> fs'.ByteAt(p, j) == fs.ByteAt(p, j)
  }

  lemma OtherVolumesPath(c: Collection, other: Collection, index: nat)
    requires c.Valid() && other.Valid() && c.root == other.root && c.name != other.name
    ensures !IsObjectPath(c, other.Path(index))
  {
    if i: nat :| i < c.nbObjects && other.Path(index) == c.Path(i) {
      DataPathInjective(c.root, c.name, other.name, OidAt(c.startOid, i), OidAt(other.startOid, index));
    }
  }

  lemma OtherVolumesFile(fs: Fs, fs': Fs, c: Collection, other: Collection, index: nat)
    requires c.Valid() && other.Valid() && c.root == other.root && c.name != other.name
    requires SameElsewhere(fs, fs', c)
    ensures forall j: nat :: fs'.ByteAt(other.Path(index), j) == fs.ByteAt(other.Path(index), j)
  {
    OtherVolumesPath(c, other, index);
  }

  /** Whatever one volume does, the disk of a volume with another name stays as it is. */
  lemma VolumesApart(fs: Fs, fs': Fs, c: Collection, other: Collection)
    requires c.Valid() && other.Valid() && c.root == other.root && c.name != other.name
    requires SameElsewhere(fs, fs', c)
    ensures Disk(fs', other) == Disk(fs, other)
  {
    forall index: nat | true
      ensures forall j: nat :: fs'.ByteAt(other.Path(index), j) == fs.ByteAt(other.Path(index), j)
    {
      OtherVolumesFile(fs, fs', c, other, index);
    }
    SameFilesSameDisk(fs, fs', other);
  }

  lemma SameFilesSameDisk(fs: Fs, fs': Fs, c: Collection)
    requires c.Valid()
    requires forall index: nat, j: nat :: fs'.ByteAt(c.Path(index), j) == fs.ByteAt(c.Path(index), j)
    ensures Disk(fs', c) == Disk(fs, c)
  {
    hide Collection.Path;
    hide Fs.ByteAt;
    forall p | 0 <= p < c.Capacity() ensures Disk(fs', c)[p] == Disk(fs, c)[p] {
      DivMod(p, c.objectSize);
    }
  }

  /** Every object file that exists has its full length. */
  ghost predicate Intact(fs: Fs, c: Collection)
    requires c.Valid()
  {
    forall i: nat :: i < c.nbObjects && c.Path(i) in fs.dir ==> |fs.File(c.Path(i))| >= c.objectSize
  }
}
