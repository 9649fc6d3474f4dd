/** `osd_op_read` and `osd_op_write`: byte ranges over striped objects, with and without the handle cache. */
module ObjectStore {
  import opened Arithmetic
  import opened Bytes
  import opened Naming
  import opened FileSystem
  import opened Placement
  import opened Geometry
  import opened ObjectOps
  import opened Recaching

  const NB_MAX_OBJECTS := 1000

  /** What a cache slot's record says. */
  datatype Slot = Slot(oid: seq<byte>, index: int, fd: int)

  /** A cache slot is empty, or holds the OID of an object that belongs in it and that object's handle. */
  ghost predicate SlotOk(fs: Fs, c: Collection, at: nat, slot: Slot)
    requires c.Valid()
  {
    && |slot.oid| == OID_LEN
    && (slot.fd > RESERVED_FDS ==> slot.fd in fs.fds && slot.index != -1)
    && (slot.index != -1 ==>
          && 0 <= slot.index < c.nbObjects && slot.index % NB_MAX_OBJECTS == at
          && slot.oid == OidAt(c.startOid, slot.index)
          && (c.Path(slot.index) in fs.dir ==> slot.fd == -1 || fs.Refers(slot.fd, c.Path(slot.index))))
  }

  /** The cache invariant: every slot is right, and no two share a handle. */
  ghost predicate CacheOk(fs: Fs, c: Collection, slots: seq<Slot>)
    requires c.Valid()
  {
    && (forall s :: 0 <= s < |slots| ==> SlotOk(fs, c, s, slots[s]))
    && (forall s, t :: 0 <= s < |slots| && 0 <= t < |slots| && s != t && slots[s].fd > RESERVED_FDS ==>
          slots[s].fd != slots[t].fd)
  }

  /**
   * Where every open descriptor comes from: it was open at the start, or a fetch left it behind,
   * or it is a reserved number that is never closed, or a cache slot holds it, or it is `extra`.
   */
  ghost predicate AccountedFor(start: map<int, Handle>, fds: map<int, Handle>, slots: seq<Slot>, extra: int) {
    && (forall fd :: fd in start ==> fd in fds && fds[fd] == start[fd])
    && (forall fd :: fd in fds ==>
          || fd in start || fds[fd].creating || fd <= RESERVED_FDS || fd == extra
          || exists s :: 0 <= s < |slots| && slots[s].fd == fd)
    && (forall s :: 0 <= s < |slots| && slots[s].fd > RESERVED_FDS ==> slots[s].fd !in start)
    && (extra > RESERVED_FDS ==> extra !in start)
  }

  /** What every close of a cached handle rests on: it is open, in reach of the free, and in one slot only. */
  ghost predicate HandlesOk(fds: map<int, Handle>, nbObjects: nat, slots: seq<Slot>) {
    && (forall s :: 0 <= s < |slots| && slots[s].fd > RESERVED_FDS ==> slots[s].fd in fds && s < nbObjects)
    && (forall s, t :: 0 <= s < |slots| && 0 <= t < |slots| && s != t && slots[s].fd > RESERVED_FDS ==>
          slots[s].fd != slots[t].fd)
  }

  lemma CacheHandlesOk(fs: Fs, c: Collection, slots: seq<Slot>)
    requires c.Valid() && CacheOk(fs, c, slots)
    ensures HandlesOk(fs.fds, c.nbObjects, slots)
  {
    hide DataPath;
    hide OidAt;
    forall s | 0 <= s < |slots| && slots[s].fd > RESERVED_FDS ensures slots[s].fd in fs.fds && s < c.nbObjects {
      assert SlotOk(fs, c, s, slots[s]);
    }
  }

  /** A slot that lost its handle takes none from the others. */
  lemma ReplacedHandlesOk(fs: Fs, fs': Fs, path: string, nbObjects: nat, slots: seq<Slot>, x: nat, slot: Slot)
    requires x < |slots| && HandlesOk(fs.fds, nbObjects, slots) && slot.fd <= RESERVED_FDS
    requires Rehandled(fs, fs', path, slots[x].fd, -1)
    ensures HandlesOk(fs'.fds, nbObjects, slots[x := slot])
  {
  }

  /** What `osd_recache_object` makes of a slot, by the step it reached. */
  function Recached(stage: Stage, before: Slot, oid: seq<byte>, index: nat, got: int): Slot {
    match stage
    case CloseFailed => before
    case Done => Slot(oid, index, got)
    case OpenFailed => Slot(oid, index, -1)
    case _ => Slot(oid, index, 0)
  }

  /** The steps after which the recached slot is wrong, as far as handle 0 is not the object's. */
  predicate Breaks(fs: Fs, stage: Stage, path: string) {
    stage.CloseFailed? || ((stage.NoDataNode? || stage.FetchFailed?) && path in fs.dir)
  }

  lemma RecachedSlotOk(fs: Fs, c: Collection, stage: Stage, before: Slot, index: nat, got: int)
    requires c.Valid() && index < c.nbObjects && !Breaks(fs, stage, c.Path(index))
    requires stage == Done ==> fs.Refers(got, c.Path(index))
    ensures SlotOk(fs, c, index % NB_MAX_OBJECTS, Recached(stage, before, OidAt(c.startOid, index), index, got))
  {
    hide DataPath;
    hide OidAt;
  }

  lemma RecachedSlotBroken(fs: Fs, c: Collection, stage: Stage, slots: seq<Slot>, before: Slot, index: nat, got: int)
    requires c.Valid() && index < c.nbObjects && |slots| == NB_MAX_OBJECTS && Breaks(fs, stage, c.Path(index))
    requires slots[index % NB_MAX_OBJECTS] == Recached(stage, before, OidAt(c.startOid, index), index, got)
    requires stage == CloseFailed ==> before.fd > RESERVED_FDS && before.fd !in fs.fds
    ensures CacheOk(fs, c, slots) ==> fs.Refers(0, c.Path(index))
  {
    hide DataPath;
    hide OidAt;
    if CacheOk(fs, c, slots) {
      assert SlotOk(fs, c, index % NB_MAX_OBJECTS, slots[index % NB_MAX_OBJECTS]);
    }
  }

  /** One slot's record replaced: its old handle given up, its new one, if any, newly opened. */
  ghost predicate Replaced(fs: Fs, slots: seq<Slot>, x: nat, slot: Slot, got: int)
    requires x < |slots|
  {
    && (got == -1 || got !in WithoutFd(fs.fds, slots[x].fd))
    && (slot.fd <= RESERVED_FDS || slot.fd == got)
  }

  /** What happens to one slot leaves every other slot as it was. */
  lemma OtherSlotKept(fs: Fs, fs': Fs, c: Collection, at: nat, slot: Slot, index: nat, gone: int, got: int)
    requires c.Valid() && index < c.nbObjects && at != index % NB_MAX_OBJECTS
    requires SlotOk(fs, c, at, slot) && (slot.fd > RESERVED_FDS ==> slot.fd != gone)
    requires Rehandled(fs, fs', c.Path(index), gone, got)
    ensures SlotOk(fs', c, at, slot)
  {
    hide DataPath;
    hide OidAt;
    if slot.index != -1 && c.Path(slot.index) == c.Path(index) {
      PathInjective(c, slot.index, index);
    }
  }

  lemma ReplacedCacheOk(fs: Fs, fs': Fs, c: Collection, slots: seq<Slot>, index: nat, slot: Slot, got: int)
    requires c.Valid() && |slots| == NB_MAX_OBJECTS && index < c.nbObjects && CacheOk(fs, c, slots)
    requires var x := index % NB_MAX_OBJECTS;
             && Rehandled(fs, fs', c.Path(index), slots[x].fd, got)
             && Replaced(fs, slots, x, slot, got) && SlotOk(fs', c, x, slot)
    ensures CacheOk(fs', c, slots[index % NB_MAX_OBJECTS := slot])
  {
    hide DataPath;
    hide OidAt;
    var x := index % NB_MAX_OBJECTS;
    forall s | 0 <= s < |slots| && s != x ensures SlotOk(fs', c, s, slots[s]) {
      OtherSlotKept(fs, fs', c, s, slots[s], index, slots[x].fd, got);
    }
  }

  lemma RefreshedIntact(fs: Fs, fs': Fs, c: Collection, index: nat, gone: int, got: int)
    requires c.Valid() && Intact(fs, c) && Refreshed(fs, fs', c.Path(index), gone, got)
    requires c.Path(index) in fs'.dir && c.Path(index) !in fs.dir ==> |fs'.File(c.Path(index))| >= c.objectSize
    ensures Intact(fs', c)
  {
    hide DataPath;
    hide OidAt;
  }

  lemma ReplacedAccounted(start: map<int, Handle>, fs: Fs, fs': Fs, path: string, slots: seq<Slot>,
                          x: nat, slot: Slot, got: int)
    requires x < |slots| && AccountedFor(start, fs.fds, slots, -1)
    requires Rehandled(fs, fs', path, slots[x].fd, got)
    requires (Replaced(fs, slots, x, slot, got) && (got == -1 || slot.fd == got)) || (got == -1 && slot == slots[x])
    requires forall s :: 0 <= s < |slots| && s != x && slots[x].fd > RESERVED_FDS ==> slots[s].fd != slots[x].fd
    ensures AccountedFor(start, fs'.fds, slots[x := slot], -1)
  {
    var after := slots[x := slot];
    forall fd | fd in fs'.fds
      ensures || fd in start || fs'.fds[fd].creating || fd <= RESERVED_FDS
              || exists s :: 0 <= s < |after| && after[s].fd == fd
    {
      if fd == got {
        assert after[x].fd == fd || fd == -1;
      } else if fd in WithoutFd(fs.fds, slots[x].fd) && fd > RESERVED_FDS {
        if s :| 0 <= s < |slots| && slots[s].fd == fd {
          assert after[s].fd == fd;
        }
      }
    }
  }

  /** A slot emptied after a failed transfer; its handle was given up on the way. */
  lemma EmptiedSlot(start: map<int, Handle>, fs: Fs, fs': Fs, c: Collection, slots: seq<Slot>, index: nat, slot: Slot)
    requires c.Valid() && |slots| == NB_MAX_OBJECTS && index < c.nbObjects
    requires CacheOk(fs, c, slots) && AccountedFor(start, fs.fds, slots, -1)
    requires fs'.dir == fs.dir && fs'.fds == WithoutFd(fs.fds, slots[index % NB_MAX_OBJECTS].fd)
    requires |slot.oid| == OID_LEN && slot.index == -1 && slot.fd == 0
    ensures CacheOk(fs', c, slots[index % NB_MAX_OBJECTS := slot])
    ensures AccountedFor(start, fs'.fds, slots[index % NB_MAX_OBJECTS := slot], -1)
  {
    hide AccountedFor;
    hide DataPath;
    hide OidAt;
    ReplacedAccounted(start, fs, fs', c.Path(index), slots, index % NB_MAX_OBJECTS, slot, -1);
    ReplacedCacheOk(fs, fs', c, slots, index, slot, -1);
  }

  /** A slot recached, as its own contract and the other slots see it. */
  lemma SlotRefilled(start: map<int, Handle>, fs: Fs, fs': Fs, c: Collection, slots: seq<Slot>, index: nat,
                     stage: Stage, fd: int)
    requires c.Valid() && |slots| == NB_MAX_OBJECTS && index < c.nbObjects
    requires CacheOk(fs, c, slots) && HandlesOk(fs.fds, c.nbObjects, slots) && AccountedFor(start, fs.fds, slots, -1)
    requires Rehandled(fs, fs', c.Path(index), slots[index % NB_MAX_OBJECTS].fd, if stage == Done then fd else -1)
    requires stage == Done ==>
      fd >= 0 && fd !in WithoutFd(fs.fds, slots[index % NB_MAX_OBJECTS].fd) && fs'.Refers(fd, c.Path(index))
    requires var x := index % NB_MAX_OBJECTS;
             stage == CloseFailed ==> slots[x].fd > RESERVED_FDS && slots[x].fd !in fs'.fds
    ensures var x := index % NB_MAX_OBJECTS;
            var after := slots[x := Recached(stage, slots[x], OidAt(c.startOid, index), index, fd)];
            && AccountedFor(start, fs'.fds, after, -1)
            && (if Breaks(fs', stage, c.Path(index)) then
                  && (stage != CloseFailed ==> HandlesOk(fs'.fds, c.nbObjects, after))
                  && (CacheOk(fs', c, after) ==> fs'.Refers(0, c.Path(index)))
                else CacheOk(fs', c, after))
  {
    hide DataPath;
    hide OidAt;
    hide AccountedFor;
    hide CacheOk;
    hide SlotOk;
    hide Rehandled;
    var x := index % NB_MAX_OBJECTS;
    var slot := Recached(stage, slots[x], OidAt(c.startOid, index), index, fd);
    var got := if stage == Done then fd else -1;
    ReplacedAccounted(start, fs, fs', c.Path(index), slots, x, slot, got);
    if Breaks(fs', stage, c.Path(index)) {
      RecachedSlotBroken(fs', c, stage, slots[x := slot], slots[x], index, fd);
      if stage != CloseFailed {
        ReplacedHandlesOk(fs, fs', c.Path(index), c.nbObjects, slots, x, slot);
      }
    } else {
      RecachedSlotOk(fs', c, stage, slots[x], index, fd);
      ReplacedCacheOk(fs, fs', c, slots, index, slot, got);
    }
  }

  /** Names are made for objects of the collection alone. */
  ghost predicate OwnNames(fs: Fs, fs': Fs, c: Collection)
    requires c.Valid()
  {
    forall p :: p in fs'.dir && p !in fs.dir ==> IsObjectPath(c, p)
  }

  lemma RehandledNames(fs: Fs, fs': Fs, c: Collection, index: nat, gone: int, got: int)
    requires c.Valid() && index < c.nbObjects && Rehandled(fs, fs', c.Path(index), gone, got)
    ensures OwnNames(fs, fs', c)
  {
    hide Collection.Path;
  }

  /** No name is lost, and none is made but for objects of the collection. */
  ghost predicate NamesFramed(fs: Fs, fs': Fs, c: Collection)
    requires c.Valid()
  {
    NamesKept(fs, fs') && OwnNames(fs, fs', c)
  }

  lemma NamesFramedOn(fs: Fs, mid: Fs, fs': Fs, c: Collection)
    requires c.Valid() && NamesFramed(fs, mid, c) && NamesFramed(mid, fs', c)
    ensures NamesFramed(fs, fs', c)
  {
    hide IsObjectPath;
  }

  /** What was framed stays so while names stay as they are. */
  lemma SameNamesFramed(fs: Fs, mid: Fs, fs': Fs, c: Collection)
    requires c.Valid() && OnlyGrows(fs, mid) && OwnNames(fs, mid, c) && fs'.dir == mid.dir
    ensures NamesFramed(fs, fs', c)
  {
    hide IsObjectPath;
  }

  lemma NoNewNames(fs: Fs, fs': Fs, c: Collection)
    requires c.Valid() && fs'.dir == fs.dir
    ensures OwnNames(fs, fs', c) && NamesFramed(fs, fs', c)
  {
  }

  lemma Unmoved(fs: Fs)
    ensures SameBytes(fs, fs) && OnlyGrows(fs, fs) && NamesKept(fs, fs)
  {
  }

  lemma SameHandlesCacheOk(fs: Fs, fs': Fs, c: Collection, slots: seq<Slot>)
    requires c.Valid() && CacheOk(fs, c, slots) && fs'.dir == fs.dir && fs'.fds == fs.fds
    ensures CacheOk(fs', c, slots)
  {
    hide DataPath;
    hide OidAt;
    forall s | 0 <= s < |slots| ensures SlotOk(fs', c, s, slots[s]) {
      assert SlotOk(fs, c, s, slots[s]);
    }
  }

  lemma ExtraGivenUp(start: map<int, Handle>, fds: map<int, Handle>, extra: int)
    requires AccountedFor(start, fds, [], extra)
    ensures AccountedFor(start, WithoutFd(fds, extra), [], -1)
  {
  }

  /** A fetch and a write through the fetched handle lay the data in the object's file. */
  lemma PieceLaid(fs: Fs, held: Fs, fs': Fs, path: string, fd: int, off: nat, data: seq<byte>)
    requires held.Valid() && SameBytes(fs, held) && (data != [] ==> held.Refers(fd, path))
    requires fs'.dir == held.dir && fs'.data == held.Written(fd, off, data).data
    ensures Laid(fs, fs', path, off, data) && OnlyGrows(held, fs')
  {
    if data != [] {
      WriteThrough(held, fd, path, off, data);
    }
    assert forall p :: fs'.File(p) == held.Written(fd, off, data).File(p);
  }

  lemma GrownIntact(fs: Fs, fs': Fs, c: Collection)
    requires c.Valid() && Intact(fs, c) && OnlyGrows(fs, fs') && fs'.dir == fs.dir
    ensures Intact(fs', c)
  {
    hide DataPath;
    hide OidAt;
  }

  lemma SameFiles(fs: Fs, fs': Fs, c: Collection)
    requires c.Valid() && fs'.dir == fs.dir && fs'.data == fs.data
    ensures SameBytes(fs, fs') && (Intact(fs, c) ==> Intact(fs', c))
  {
    hide DataPath;
    hide OidAt;
    assert forall p :: fs'.File(p) == fs.File(p);
  }

  lemma ShortFile(fs: Fs, c: Collection, index: nat)
    requires c.Valid() && index < c.nbObjects && c.Path(index) in fs.dir
    requires |fs.File(c.Path(index))| < c.objectSize
    ensures !Intact(fs, c)
  {
  }

  /** What an operation leaves behind for the reader of its contract. */
  datatype Trail = Trail(done: nat, pieces: seq<Piece>)

  /** Byte `off` of object `index`, as a position on the disk. */
  function Position(c: Collection, index: nat, off: nat): nat {
    MulSign(index, c.objectSize);
    index * c.objectSize + off
  }

  lemma WrittenFurther(fs: Fs, mid: Fs, fs': Fs, c: Collection, offset: nat, buf: seq<byte>, written: nat,
                  index: nat, off: nat, done: nat)
    requires c.Valid() && index < c.nbObjects && off + done <= c.objectSize
    requires written + done <= |buf| && Position(c, index, off) == offset + written
    requires WrittenUpTo(fs, mid, c, offset, buf, written)
    requires Laid(mid, fs', c.Path(index), off, buf[written..written + done])
    ensures WrittenUpTo(fs, fs', c, offset, buf, written + done)
  {
    hide Laid;
    hide Disk;
    hide DataPath;
    hide OidAt;
    hide SameElsewhere;
    LaidOnDisk(mid, fs', c, index, off, buf[written..written + done]);
    OverlayTwice(Disk(fs, c), offset, buf[..written], buf[written..written + done]);
    assert buf[..written + done] == buf[..written] + buf[written..written + done];
    LaidInside(fs, mid, fs', c, index, off, buf[written..written + done]);
  }

  /** The disk has the first `written` bytes of the buffer at `offset`, and nothing else changed anywhere. */
  ghost predicate WrittenUpTo(fs: Fs, fs': Fs, c: Collection, offset: nat, buf: seq<byte>, written: nat)
    requires c.Valid() && written <= |buf|
  {
    && offset + written <= c.Capacity()
    && Disk(fs', c) == Overlay(Disk(fs, c), offset, buf[..written])
    && SameElsewhere(fs, fs', c)
  }

  lemma NothingWritten(fs: Fs, c: Collection, offset: nat, buf: seq<byte>)
    requires c.Valid() && offset <= c.Capacity()
    ensures WrittenUpTo(fs, fs, c, offset, buf, 0)
  {
    assert Overlay(Disk(fs, c), offset, buf[..0]) == Disk(fs, c);
  }

  lemma LaidInside(fs: Fs, mid: Fs, fs': Fs, c: Collection, index: nat, off: nat, data: seq<byte>)
    requires c.Valid() && index < c.nbObjects
    requires SameElsewhere(fs, mid, c) && Laid(mid, fs', c.Path(index), off, data)
    ensures SameElsewhere(fs, fs', c)
  {
    hide DataPath;
    hide OidAt;
  }

  /** The buffer holds `got` bytes of the disk from `offset` and is otherwise as before. */
  ghost predicate ReadUpTo(disk: seq<byte>, offset: nat, before: seq<byte>, now: seq<byte>, got: nat) {
    && got <= |before| && offset + got <= |disk|
    && now == disk[offset..offset + got] + before[got..]
  }

  lemma ReadFurther(fs: Fs, c: Collection, offset: nat, before: seq<byte>, mid: seq<byte>, now: seq<byte>,
                 got: nat, index: nat, off: nat, done: nat)
    requires c.Valid() && index < c.nbObjects && off + done <= c.objectSize
    requires got + done <= |before| && Position(c, index, off) == offset + got
    requires ReadUpTo(Disk(fs, c), offset, before, mid, got)
    requires Filled(mid, now, fs.File(c.Path(index)), off, got, done)
    ensures ReadUpTo(Disk(fs, c), offset, before, now, got + done)
  {
    hide DataPath;
    hide OidAt;
    hide Disk;
    var disk := Disk(fs, c);
    PositionOf(c, index, off, done);
    var want := disk[offset..offset + got + done] + before[got + done..];
    assert |now| == |want|;
    forall i | 0 <= i < |want| ensures now[i] == want[i] {
      if got <= i < got + done {
        DiskByte(fs, c, index, off + i - got);
        assert want[i] == disk[offset + i];
      }
    }
  }

  lemma FilledFrom(before: seq<byte>, after: seq<byte>, fs: Fs, fs': Fs, path: string, off: nat, from: nat, done: nat)
    requires Filled(before, after, fs'.File(path), off, from, done) && SameBytes(fs, fs')
    ensures Filled(before, after, fs.File(path), off, from, done)
  {
    forall i | 0 <= i < |after| && from <= i < from + done ensures after[i] == At(fs.File(path), off + i - from) {
      assert fs'.ByteAt(path, off + i - from) == fs.ByteAt(path, off + i - from);
    }
  }

  lemma FilledWithNothing(before: seq<byte>, file: seq<byte>, off: nat, from: nat)
    ensures Filled(before, before, file, off, from, 0)
  {
  }

  lemma FilledByHandle(before: seq<byte>, after: seq<byte>, fs: Fs, fd: int, path: string,
                       off: nat, from: nat, done: nat)
    requires Filled(before, after, fs.Open(fd), off, from, done) && (done > 0 ==> fs.Refers(fd, path))
    ensures Filled(before, after, fs.File(path), off, from, done)
  {
  }

  lemma SameBytesTwice(fs: Fs, mid: Fs, fs': Fs)
    requires SameBytes(fs, mid) && SameBytes(mid, fs')
    ensures SameBytes(fs, fs')
  {
  }

  /** A turn of the read loop after others. */
  lemma ReadTurn(fs: Fs, mid: Fs, fs': Fs, c: Collection, offset: nat, before: seq<byte>, bytes: seq<byte>,
                 now: seq<byte>, got: nat, index: nat, off: nat, done: nat)
    requires c.Valid() && index < c.nbObjects && off + done <= c.objectSize
    requires got + done <= |before| && Position(c, index, off) == offset + got
    requires SameBytes(fs, mid) && SameBytes(mid, fs')
    requires ReadUpTo(Disk(fs, c), offset, before, bytes, got)
    requires Filled(bytes, now, mid.File(c.Path(index)), off, got, done)
    ensures ReadUpTo(Disk(fs, c), offset, before, now, got + done) && SameBytes(fs, fs')
  {
    SameBytesTwice(fs, mid, fs');
    FilledFrom(bytes, now, fs, mid, c.Path(index), off, got, done);
    hide SameBytes;
    hide Filled;
    ReadFurther(fs, c, offset, before, bytes, now, got, index, off, done);
  }

  /** The loops' position: `moved` bytes in, next at `off` in object `index`, having cut `pieces`. */
  ghost predicate LoopAt(c: Collection, offset: nat, len: nat, moved: nat, index: nat, off: nat, pieces: seq<Piece>)
    requires c.Valid()
  {
    && moved <= len && off < c.objectSize
    && (moved < len ==> index * c.objectSize + off == offset + moved)
    && pieces + Plan(c.objectSize, index, off, len - moved) == Pieces(c.objectSize, offset, len)
  }

  lemma LoopStarts(c: Collection, offset: nat, len: nat)
    requires c.Valid() && offset + len < U64 && c.Accepts(offset, len)
    ensures Locate(c, offset, len).Span? && offset + len <= c.Capacity()
    ensures var first := Locate(c, offset, len).first;
            first.Address? && LoopAt(c, offset, len, 0, first.index, first.local, [])
  {
    LocateIffAccepts(c, offset, len);
    DivMod(offset, c.objectSize);
    AcceptedFits(c, offset, len);
  }

  /** The request has a byte in the object. */
  ghost predicate Spans(c: Collection, offset: nat, len: nat, index: nat) {
    Position(c, index, 0) < offset + len && offset < Position(c, index, c.objectSize)
  }

  /** The request has a byte in an object that has neither a node nor a file that `stat` saw. */
  ghost predicate SomeDenied(fs: Fs, c: Collection, trouble: bool, offset: nat, len: nat)
    requires c.Valid()
  {
    exists i: nat :: i < c.nbObjects && Spans(c, offset, len, i) && Denied(fs, c, trouble, i)
  }

  /** Part of a request, denied later, is denied from the start: no name is lost on the way. */
  lemma DeniedEarlier(fs: Fs, mid: Fs, c: Collection, now: bool, ever: bool,
                      offset: nat, len: nat, from: nat, part: nat)
    requires c.Valid() && NamesKept(fs, mid) && (now ==> ever)
    requires offset <= from && from + part <= offset + len && SomeDenied(mid, c, now, from, part)
    ensures SomeDenied(fs, c, ever, offset, len)
  {
    hide DataPath;
    hide OidAt;
    var i: nat :| i < c.nbObjects && Spans(c, from, part, i) && Denied(mid, c, now, i);
    assert Spans(c, offset, len, i) && Denied(fs, c, ever, i);
  }

  /** The same for one turn of the loops. */
  lemma DeniedInTurn(fs: Fs, mid: Fs, fs': Fs, c: Collection, now: bool, ever: bool,
                     offset: nat, len: nat, moved: nat, index: nat, off: nat)
    requires c.Valid() && NamesFramed(fs, mid, c) && NamesFramed(mid, fs', c) && (now ==> ever)
    requires index < c.nbObjects && off < c.objectSize && moved < len && Position(c, index, off) == offset + moved
    ensures Denied(mid, c, now, index) ==> SomeDenied(fs, c, ever, offset, len)
    ensures NamesFramed(fs, fs', c)
  {
    hide DataPath;
    hide OidAt;
    NamesFramedOn(fs, mid, fs', c);
    if Denied(mid, c, now, index) {
      assert Spans(c, offset, len, index) && Denied(fs, c, ever, index);
    }
  }

  /** How many bytes the loops move in one turn. */
  function PieceLength(size: nat, off: nat, left: nat): (n: nat)
    requires off < size
  {
    if left >= size - off then size - off else left
  }

  /** One turn stays within one object of the collection and moves on to the start of the next. */
  lemma LoopTurns(c: Collection, offset: nat, len: nat, moved: nat, index: nat, off: nat, pieces: seq<Piece>)
    requires c.Valid() && c.Accepts(offset, len) && moved < len
    requires LoopAt(c, offset, len, moved, index, off, pieces)
    ensures off < c.objectSize && index < c.nbObjects && Position(c, index, off) == offset + moved
    ensures var n := PieceLength(c.objectSize, off, len - moved);
            && 0 < n <= len - moved && off + n <= c.objectSize
            && LoopAt(c, offset, len, moved + n, index + 1, 0, pieces + [Piece(index, off, n)])
  {
    AcceptedFits(c, offset, len);
    MulCancel(index, c.nbObjects, c.objectSize);
    var n := PieceLength(c.objectSize, off, len - moved);
    assert (index + 1) * c.objectSize == index * c.objectSize + c.objectSize;
    var rest := Plan(c.objectSize, index + 1, 0, len - moved - n);
    assert pieces + ([Piece(index, off, n)] + rest) == pieces + [Piece(index, off, n)] + rest;
  }

  lemma LoopCutsPlan(c: Collection, offset: nat, len: nat, moved: nat, index: nat, off: nat, pieces: seq<Piece>)
    requires c.Valid() && LoopAt(c, offset, len, moved, index, off, pieces)
    ensures pieces <= Pieces(c.objectSize, offset, len)
    ensures moved == len ==> pieces == Pieces(c.objectSize, offset, len)
  {
  }

  lemma WrittenMeaning(fs: Fs, fs': Fs, c: Collection, offset: nat, buf: seq<byte>, written: nat)
    requires c.Valid() && written <= |buf| && WrittenUpTo(fs, fs', c, offset, buf, written)
    ensures offset + written <= c.Capacity() && SameElsewhere(fs, fs', c)
    ensures Disk(fs', c) == Overlay(Disk(fs, c), offset, buf[..written])
    ensures written == |buf| ==> Disk(fs', c) == Overlay(Disk(fs, c), offset, buf)
  {
    assert buf[..|buf|] == buf;
  }

  lemma NothingRead(fs: Fs, c: Collection, offset: nat, before: seq<byte>)
    requires c.Valid()
    ensures SameBytes(fs, fs)
    ensures offset <= c.Capacity() ==> ReadUpTo(Disk(fs, c), offset, before, before, 0)
  {
  }

  lemma ReadMeaning(fs: Fs, c: Collection, offset: nat, before: seq<byte>, now: seq<byte>, got: nat)
    requires c.Valid() && ReadUpTo(Disk(fs, c), offset, before, now, got)
    ensures offset + got <= c.Capacity() && now == Disk(fs, c)[offset..offset + got] + before[got..]
    ensures got == |before| ==> Holds(Disk(fs, c), offset, now)
  {
  }

  lemma NoSlotsOk(fs: Fs, c: Collection)
    requires c.Valid()
    ensures CacheOk(fs, c, [])
  {
  }

  /** The cache while it is being freed: handles before `at` are gone, those from `at` on are open. */
  ghost predicate Freeing(fds: map<int, Handle>, before: seq<Slot>, now: seq<Slot>, at: nat) {
    && |now| == |before|
    && (forall s :: 0 <= s < |now| ==>
          now[s] == if s < at && before[s].fd > RESERVED_FDS then before[s].(fd := 0) else before[s])
    && (forall s :: at <= s < |before| && before[s].fd > RESERVED_FDS ==> before[s].fd in fds)
    && (forall s, t :: 0 <= s < |before| && 0 <= t < |before| && s != t && before[s].fd > RESERVED_FDS ==>
          before[s].fd != before[t].fd)
  }

  lemma FreeingStarts(fds: map<int, Handle>, nbObjects: nat, slots: seq<Slot>)
    requires HandlesOk(fds, nbObjects, slots)
    ensures Freeing(fds, slots, slots, 0)
    ensures forall s :: nbObjects <= s < |slots| ==> slots[s].fd <= RESERVED_FDS
  {
  }

  lemma FreeingTurns(fds: map<int, Handle>, before: seq<Slot>, now: seq<Slot>, at: nat)
    requires at < |before| && Freeing(fds, before, now, at)
    ensures before[at].fd <= RESERVED_FDS ==> Freeing(fds, before, now, at + 1)
    ensures before[at].fd > RESERVED_FDS ==>
      before[at].fd in fds && Freeing(fds - {before[at].fd}, before, now[at := before[at].(fd := 0)], at + 1)
    ensures now[at] == before[at]
  {
  }

  lemma FreeingEnds(fds: map<int, Handle>, before: seq<Slot>, now: seq<Slot>, at: nat)
    requires Freeing(fds, before, now, at)
    requires forall s :: at <= s < |before| ==> before[s].fd <= RESERVED_FDS
    ensures |now| == |before|
    ensures forall s :: 0 <= s < |now| ==>
      now[s].fd <= RESERVED_FDS
      && now[s] == if before[s].fd > RESERVED_FDS then before[s].(fd := 0) else before[s]
  {
  }

  lemma ClosedSlotAccounted(start: map<int, Handle>, fds: map<int, Handle>, slots: seq<Slot>, x: nat)
    requires x < |slots| && slots[x].fd > RESERVED_FDS && AccountedFor(start, fds, slots, -1)
    ensures AccountedFor(start, fds - {slots[x].fd}, slots[x := slots[x].(fd := 0)], -1)
  {
    var after := slots[x := slots[x].(fd := 0)];
    forall fd | fd in fds && fd != slots[x].fd
      ensures || fd in start || fds[fd].creating || fd <= RESERVED_FDS
              || exists s :: 0 <= s < |after| && after[s].fd == fd
    {
      if s :| 0 <= s < |slots| && slots[s].fd == fd {
        assert after[s].fd == fd;
      }
    }
  }

  lemma NoneHeld(start: map<int, Handle>, fds: map<int, Handle>, slots: seq<Slot>)
    requires AccountedFor(start, fds, slots, -1)
    requires forall s :: 0 <= s < |slots| ==> slots[s].fd <= RESERVED_FDS
    ensures AccountedFor(start, fds, [], -1)
  {
  }

  /** A deleted file takes its name away from the cache too: the slot is stale, but not wrong. */
  lemma EvictedCacheOk(fs: Fs, fs': Fs, c: Collection, slots: seq<Slot>, path: string)
    requires c.Valid() && CacheOk(fs, c, slots) && fs' == fs.(dir := fs.dir - {path})
    ensures CacheOk(fs', c, slots)
  {
    hide DataPath;
    hide OidAt;
    forall s | 0 <= s < |slots| ensures SlotOk(fs', c, s, slots[s]) {
      assert SlotOk(fs, c, s, slots[s]);
    }
  }

  /** A deleted object reads as zeros. */
  lemma EvictedDisk(fs: Fs, fs': Fs, c: Collection, index: nat)
    requires c.Valid() && index < c.nbObjects && fs' == fs.(dir := fs.dir - {c.Path(index)})
    ensures index * c.objectSize + c.objectSize <= c.Capacity()
    ensures Disk(fs', c) == Overlay(Disk(fs, c), index * c.objectSize, Zeros(c.objectSize))
    ensures SameElsewhere(fs, fs', c)
    ensures Intact(fs, c) ==> Intact(fs', c)
  {
    hide DataPath;
    hide OidAt;
    var s := c.objectSize;
    PositionOf(c, index, 0, s);
    var after := Overlay(Disk(fs, c), index * s, Zeros(s));
    forall p | 0 <= p < c.Capacity() ensures Disk(fs', c)[p] == after[p] {
      Within(c, p);
      DivMod(p, s);
      if c.Path(p / s) == c.Path(index) {
        PathInjective(c, p / s, index);
      }
      OtherObject(p / s, p % s, index, 0, s, s);
    }
  }

  /** One opened collection: its geometry and, when `recache` is compiled in, its handle cache. */
  class Store {
    const k: Kernel
    const c: Collection
    const recache: bool
    const slots: seq<ObjectAttr>

    constructor (k: Kernel, c: Collection, recache: bool)
      requires k.fs.Valid() && c.Valid()
      ensures this.k == k && this.c == c && this.recache == recache
      ensures Valid() && Coherent() && Accounted(k.fs.fds) && fresh(Cache())
    {
      this.k, this.c, this.recache := k, c, recache;
      var made := [];
      if recache {
        made := EmptySlots();
      }
      slots := made;
    }

    static method EmptySlots() returns (made: seq<ObjectAttr>)
      ensures |made| == NB_MAX_OBJECTS && fresh(made)
      ensures forall s :: 0 <= s < |made| ==>
        made[s].objectIndex == -1 && made[s].fileFd == 0 && |made[s].oid| == OID_LEN
      ensures forall s, t :: 0 <= s < t < |made| ==> made[s] != made[t]
    {
      made := [];
      while |made| < NB_MAX_OBJECTS
        invariant |made| <= NB_MAX_OBJECTS && fresh(made)
        invariant forall s :: 0 <= s < |made| ==>
          made[s].objectIndex == -1 && made[s].fileFd == 0 && |made[s].oid| == OID_LEN
        invariant forall s, t :: 0 <= s < t < |made| ==> made[s] != made[t]
      {
        var attr := new ObjectAttr.Zeroed();
        attr.objectIndex := -1;
        made := made + [attr];
      }
    }

    function Cache(): seq<ObjectAttr> {
      if recache then slots else []
    }

    /** What is fixed when the store is made. */
    ghost predicate Made() {
      && c.Valid()
      && (recache ==> |slots| == NB_MAX_OBJECTS)
      && forall s, t :: 0 <= s < t < |slots| ==> slots[s] != slots[t]
    }

    ghost predicate Valid()
      reads k
    {
      Made() && k.fs.Valid()
    }

    ghost function View(): (v: seq<Slot>)
      reads Cache()
      ensures |v| == |Cache()|
      ensures forall s :: 0 <= s < |v| ==>
        v[s] == Slot(Cache()[s].oid, Cache()[s].objectIndex, Cache()[s].fileFd)
    {
      seq(|Cache()|, s requires 0 <= s < |Cache()| reads Cache() =>
        Slot(Cache()[s].oid, Cache()[s].objectIndex, Cache()[s].fileFd))
    }

    ghost predicate Coherent()
      requires c.Valid()
      reads k, Cache()
    {
      CacheOk(k.fs, c, View())
    }

    ghost predicate Closable()
      reads k, Cache()
    {
      HandlesOk(k.fs.fds, c.nbObjects, View())
    }

    /** The cache after an operation: right, or broken at a step that may do so, and closable all the same. */
    ghost predicate LeftBy(stage: Stage, breach: bool)
      requires c.Valid()
      reads k, Cache()
    {
      if breach then recache && stage.Suspect() && (stage != CloseFailed ==> Closable()) else Coherent()
    }

    lemma CoherentLeft()
      requires c.Valid() && Coherent()
      ensures LeftBy(Done, false)
    {
    }

    lemma CoherentClosable()
      requires c.Valid() && Coherent()
      ensures Closable()
    {
      CacheHandlesOk(k.fs, c, View());
    }

    lemma LeftClosable(stage: Stage, breach: bool)
      requires c.Valid() && LeftBy(stage, breach) && !(breach && stage == CloseFailed)
      ensures Closable()
    {
      if !breach {
        CoherentClosable();
      }
    }

    ghost predicate Accounted(start: map<int, Handle>)
      reads k, Cache()
    {
      AccountedFor(start, k.fs.fds, View(), -1)
    }

    /** The record can serve object `index`: its handle is that of the file, or none and every transfer fails. */
    ghost predicate Serves(obj: ObjectAttr, index: nat)
      requires c.Valid()
      reads k, obj
    {
      (recache && obj.fileFd == -1) || k.fs.Refers(obj.fileFd, c.Path(index))
    }

    /** Recaching one slot: only that slot's record, its handle and the object's own name change. */
    method RefillSlot(index: nat, ghost start: map<int, Handle>) returns (stage: Stage, breach: bool)
      requires Valid() && Coherent() && Accounted(start) && index < c.nbObjects && recache
      modifies k, slots[index % NB_MAX_OBJECTS]
      ensures Valid() && Accounted(start) && LeftBy(stage, breach)
      ensures SameBytes(old(k.fs), k.fs) && OnlyGrows(old(k.fs), k.fs)
      ensures OwnNames(old(k.fs), k.fs, c)
      ensures k.badCloses == old(k.badCloses) && k.errors >= old(k.errors) && k.troubles >= old(k.troubles)
      ensures stage == Done ==> k.errors == old(k.errors)
      ensures stage != Done ==>
        k.errors > old(k.errors) || Denied(old(k.fs), c, k.troubles > old(k.troubles), index)
      ensures stage == FetchFailed ==> k.errors > old(k.errors)
      ensures stage == Done ==> k.fs.Refers(slots[index % NB_MAX_OBJECTS].fileFd, c.Path(index))
      ensures stage != FetchFailed && Intact(old(k.fs), c) ==> Intact(k.fs, c)
      ensures breach <==> Breaks(k.fs, stage, c.Path(index))
      ensures breach && !k.fs.Refers(0, c.Path(index)) ==> !Coherent()
      ensures var x, oid := index % NB_MAX_OBJECTS, OidAt(c.startOid, index);
              View() == old(View())[x := Recached(stage, old(View())[x], oid, index, slots[x].fileFd)]
      ensures var fd := slots[index % NB_MAX_OBJECTS].fileFd;
              stage == CloseFailed ==> fd > RESERVED_FDS && fd !in k.fs.fds
    {
      hide DataPath;
      hide OidAt;
      hide Rehandled;
      hide SameBytes;
      hide OnlyGrows;
      hide AccountedFor;
      var x := index % NB_MAX_OBJECTS;
      ghost var fs0, view, oid := k.fs, View(), OidAt(c.startOid, index);
      CacheHandlesOk(fs0, c, view);
      hide CacheOk;
      hide SlotOk;
      stage := RecacheObject(k, c, slots[x], index);
      breach := Breaks(k.fs, stage, c.Path(index));
      assert View() == view[x := Recached(stage, view[x], oid, index, slots[x].fileFd)];
      if stage != FetchFailed && Intact(fs0, c) {
        RefreshedIntact(fs0, k.fs, c, index, view[x].fd, if stage == Done then slots[x].fileFd else -1);
      }
      SlotRefilled(start, fs0, k.fs, c, view, index, stage, slots[x].fileFd);
      RehandledNames(fs0, k.fs, c, index, view[x].fd, if stage == Done then slots[x].fileFd else -1);
    }

    /** The slot of object `index` holds that object, whose file exists. */
    ghost predicate Hit(index: nat)
      requires Made()
      reads k, Cache()
    {
      recache && View()[index % NB_MAX_OBJECTS].index == index && c.Path(index) in k.fs.dir
    }

    /** The cached variant: the slot, recached unless it is a hit. A hit is taken unless `stat` is in trouble. */
    method AcquireSlot(index: nat, ghost start: map<int, Handle>)
      returns (obj: ObjectAttr, stage: Stage, breach: bool)
      requires Valid() && Coherent() && Accounted(start) && index < c.nbObjects && recache
      modifies k, Cache()
      ensures Valid() && Accounted(start) && LeftBy(stage, breach) && obj == slots[index % NB_MAX_OBJECTS]
      ensures SameBytes(old(k.fs), k.fs) && OnlyGrows(old(k.fs), k.fs)
      ensures OwnNames(old(k.fs), k.fs, c)
      ensures k.badCloses == old(k.badCloses) && k.errors >= old(k.errors) && k.troubles >= old(k.troubles)
      ensures stage == Done ==> k.errors == old(k.errors) && Serves(obj, index) && !breach
      ensures stage != Done ==>
        k.errors > old(k.errors) || Denied(old(k.fs), c, k.troubles > old(k.troubles), index)
      ensures stage == FetchFailed ==> k.errors > old(k.errors)
      ensures stage != FetchFailed && Intact(old(k.fs), c) ==> Intact(k.fs, c)
      ensures breach && !k.fs.Refers(0, c.Path(index)) ==> !Coherent()
      ensures old(Hit(index)) && k.troubles == old(k.troubles) ==>
        stage == Done && k.fs == old(k.fs) && View() == old(View())
      ensures stage == Done ==> View()[index % NB_MAX_OBJECTS].index == index
    {
      hide DataPath;
      hide OidAt;
      hide SameBytes;
      hide Intact;
      hide AccountedFor;
      obj := slots[index % NB_MAX_OBJECTS];
      assert View()[index % NB_MAX_OBJECTS] == Slot(obj.oid, obj.objectIndex, obj.fileFd);
      assert SlotOk(k.fs, c, index % NB_MAX_OBJECTS, View()[index % NB_MAX_OBJECTS]);
      hide CacheOk;
      Unmoved(k.fs);
      NoNewNames(k.fs, k.fs, c);
      hide OwnNames;
      hide OnlyGrows;
      var path := DataPath(c.root, c.name, obj.oid);
      var present := k.Stat(path);
      if index == obj.objectIndex && present {
        stage, breach := Done, false;
        CoherentLeft();
      } else {
        stage, breach := RefillSlot(index, start);
      }
    }

    /** The uncached variant: a record of its own. */
    method AcquireFresh(index: nat, ghost start: map<int, Handle>) returns (obj: ObjectAttr, stage: Stage)
      requires Valid() && Accounted(start) && index < c.nbObjects && !recache
      modifies k
      ensures Valid() && fresh(obj)
      ensures SameBytes(old(k.fs), k.fs) && OnlyGrows(old(k.fs), k.fs)
      ensures OwnNames(old(k.fs), k.fs, c)
      ensures k.badCloses == old(k.badCloses) && k.errors >= old(k.errors) && k.troubles >= old(k.troubles)
      ensures stage == Done ==> k.errors == old(k.errors) && k.fs.Refers(obj.fileFd, c.Path(index))
      ensures stage != Done ==>
        k.errors > old(k.errors) || Denied(old(k.fs), c, k.troubles > old(k.troubles), index)
      ensures stage == FetchFailed ==> k.errors > old(k.errors)
      ensures stage != FetchFailed && Intact(old(k.fs), c) ==> Intact(k.fs, c)
      ensures AccountedFor(start, k.fs.fds, [], if stage == Done then obj.fileFd else -1)
    {
      hide DataPath;
      hide OidAt;
      hide SameBytes;
      hide OnlyGrows;
      obj := new ObjectAttr.Zeroed();
      ghost var fs0 := k.fs;
      assert View() == [];
      stage := RecacheObject(k, c, obj, index);
      if stage != FetchFailed && Intact(fs0, c) {
        RefreshedIntact(fs0, k.fs, c, index, 0, if stage == Done then obj.fileFd else -1);
      }
      RehandledNames(fs0, k.fs, c, index, 0, if stage == Done then obj.fileFd else -1);
    }

    /** The record for object `index`: its cache slot, or a fresh one. */
    method Acquire(index: nat, ghost start: map<int, Handle>)
      returns (obj: ObjectAttr, stage: Stage, breach: bool)
      requires Valid() && Coherent() && Accounted(start) && index < c.nbObjects
      modifies k, Cache()
      ensures Valid() && LeftBy(stage, breach)
      ensures SameBytes(old(k.fs), k.fs) && OnlyGrows(old(k.fs), k.fs)
      ensures OwnNames(old(k.fs), k.fs, c)
      ensures k.badCloses == old(k.badCloses) && k.errors >= old(k.errors) && k.troubles >= old(k.troubles)
      ensures stage == Done ==> k.errors == old(k.errors) && Serves(obj, index) && !breach
      ensures stage != Done ==>
        k.errors > old(k.errors) || Denied(old(k.fs), c, k.troubles > old(k.troubles), index)
      ensures stage == FetchFailed ==> k.errors > old(k.errors)
      ensures stage != FetchFailed && Intact(old(k.fs), c) ==> Intact(k.fs, c)
      ensures if recache then obj == slots[index % NB_MAX_OBJECTS] else fresh(obj)
      ensures if stage == Done && !recache then AccountedFor(start, k.fs.fds, [], obj.fileFd) else Accounted(start)
      ensures breach && !k.fs.Refers(0, c.Path(index)) ==> !Coherent()
      ensures old(Hit(index)) && k.troubles == old(k.troubles) ==>
        stage == Done && k.fs == old(k.fs) && View() == old(View())
      ensures recache && stage == Done ==> View()[index % NB_MAX_OBJECTS].index == index
    {
      hide DataPath;
      hide OidAt;
      hide SameBytes;
      hide OnlyGrows;
      hide Intact;
      hide AccountedFor;
      hide CacheOk;
      if recache {
        obj, stage, breach := AcquireSlot(index, start);
      } else {
        obj, stage := AcquireFresh(index, start);
        breach := false;
        assert View() == [];
        NoSlotsOk(k.fs, c);
      }
    }

    /**
     * The end of a turn. After a failed transfer, whose own reset has already given the handle up, the
     * record is reset once more: no second close is attempted and a cache slot ends up empty. After a
     * successful one the handle stays in the cache or, without a cache, is closed.
     */
    method Finish(obj: ObjectAttr, index: nat, failed: bool,
                  ghost start: map<int, Handle>, ghost held: Fs, ghost view: seq<Slot>, ghost fd: int)
      returns (ok: bool)
      requires Valid() && index < c.nbObjects && |view| == |Cache()|
      requires CacheOk(held, c, view) && k.fs.dir == held.dir
      requires if failed then
                 && (obj.fileFd == -1 || (obj.IsZeroed() && obj.objectIndex == -1))
                 && k.fs.fds == WithoutFd(held.fds, fd)
               else obj.fileFd == fd && (recache || fd in held.fds) && k.fs.fds == held.fds
      requires if recache then
                 && obj == slots[index % NB_MAX_OBJECTS] && view[index % NB_MAX_OBJECTS].fd == fd
                 && View() == (if failed then view[index % NB_MAX_OBJECTS := View()[index % NB_MAX_OBJECTS]] else view)
                 && AccountedFor(start, held.fds, view, -1)
               else AccountedFor(start, held.fds, [], fd)
      modifies obj, k
      ensures k.fs.dir == old(k.fs.dir) && k.fs.data == old(k.fs.data) && k.badCloses == old(k.badCloses)
      ensures k.troubles == old(k.troubles)
      ensures if ok then !failed && k.errors == old(k.errors) else failed || k.errors > old(k.errors)
      ensures failed && recache ==> obj.objectIndex == -1 && obj.fileFd == 0
      ensures !failed && recache ==> ok && View() == view && k.fs == old(k.fs)
      ensures k.errors >= old(k.errors)
      ensures Valid() && Coherent() && Accounted(start)
    {
      hide CacheOk;
      hide AccountedFor;
      hide DataPath;
      hide OidAt;
      ok := !failed;
      if recache && !failed {
        SameHandlesCacheOk(held, k.fs, c, view);
        return;
      }
      var reset := ResetCacheObject(k, obj);
      if recache {
        ghost var slot := Slot(obj.oid, obj.objectIndex, obj.fileFd);
        assert View() == view[index % NB_MAX_OBJECTS := slot];
        EmptiedSlot(start, held, k.fs, c, view, index, slot);
      } else {
        ok := reset && !failed;
        assert View() == [] == view;
        ExtraGivenUp(start, held.fds, fd);
        NoSlotsOk(k.fs, c);
      }
    }

    /** The record just acquired for object `index`. */
    ghost predicate Acquired(obj: ObjectAttr, index: nat, start: map<int, Handle>)
      reads k, Cache(), obj
    {
      && Valid() && Coherent() && index < c.nbObjects && Serves(obj, index)
      && if recache then obj == slots[index % NB_MAX_OBJECTS] && Accounted(start)
         else AccountedFor(start, k.fs.fds, [], obj.fileFd)
    }

    /** A write through an acquired record; without the cache the handle is closed afterwards. */
    method WriteAcquired(obj: ObjectAttr, index: nat, off: nat, buf: seq<byte>, from: nat, n: nat,
                         ghost start: map<int, Handle>)
      returns (r: Outcome, ghost done: nat)
      requires Acquired(obj, index, start) && off + n <= c.objectSize && from + n <= |buf|
      modifies k, obj
      ensures Valid() && Coherent() && Accounted(start) && k.badCloses == old(k.badCloses)
      ensures done <= n && r != Stuck && (r == Ok ==> done == n && k.errors == old(k.errors))
      ensures r == Error ==> k.errors > old(k.errors)
      ensures k.fs.dir == old(k.fs.dir) && k.troubles == old(k.troubles)
      ensures Laid(old(k.fs), k.fs, c.Path(index), off, buf[from..from + done])
      ensures Intact(old(k.fs), c) ==> Intact(k.fs, c)
    {
      hide DataPath;
      hide OidAt;
      hide AccountedFor;
      hide Laid;
      hide OnlyGrows;
      hide Intact;
      hide WriteAt;
      ghost var held, view, fd := k.fs, View(), obj.fileFd;
      assert recache ==> SlotOk(held, c, index % NB_MAX_OBJECTS, view[index % NB_MAX_OBJECTS]);
      hide CacheOk;
      hide SlotOk;
      r, done := ObjWrite(k, obj, buf, from, n, off);
      var ok := Finish(obj, index, r == Error, start, held, view, fd);
      r := if ok then Ok else Error;
      PieceLaid(held, held, k.fs, c.Path(index), fd, off, buf[from..from + done]);
      if Intact(held, c) {
        GrownIntact(held, k.fs, c);
      }
    }

    /** One turn of the write loop: n bytes into object `index`. */
    method WritePiece(index: nat, off: nat, buf: seq<byte>, from: nat, n: nat, ghost start: map<int, Handle>)
      returns (r: Outcome, stage: Stage, breach: bool, ghost done: nat)
      requires Valid() && Coherent() && Accounted(start)
      requires index < c.nbObjects && off + n <= c.objectSize && from + n <= |buf|
      modifies k, Cache()
      ensures Valid() && Accounted(start) && k.badCloses == old(k.badCloses)
      ensures done <= n && Laid(old(k.fs), k.fs, c.Path(index), off, buf[from..from + done])
      ensures r != Stuck && (r == Ok ==> done == n && k.errors == old(k.errors) && stage == Done && Coherent())
      ensures r == Error ==>
        k.errors > old(k.errors) || Denied(old(k.fs), c, k.troubles > old(k.troubles), index)
      ensures k.troubles >= old(k.troubles) && NamesFramed(old(k.fs), k.fs, c)
      ensures k.errors >= old(k.errors)
      ensures LeftBy(stage, breach)
      ensures breach ==> r == Error && recache && stage.Suspect()
      ensures stage == FetchFailed ==> r == Error && k.errors > old(k.errors)
      ensures stage != FetchFailed && Intact(old(k.fs), c) ==> Intact(k.fs, c)
    {
      hide DataPath;
      hide OidAt;
      hide AccountedFor;
      hide CacheOk;
      hide OnlyGrows;
      var obj;
      obj, stage, breach := Acquire(index, start);
      ghost var got := k.fs;
      SameNamesFramed(old(k.fs), got, got, c);
      done := 0;
      if stage != Done {
        r := Error;
      } else {
        r, done := WriteAcquired(obj, index, off, buf, from, n, start);
        SameNamesFramed(old(k.fs), got, k.fs, c);
      }
    }

    /** A read through an acquired record. A loop that is stuck never gives its handle up. */
    method ReadAcquired(obj: ObjectAttr, index: nat, off: nat, buf: array<byte>, from: nat, n: nat,
                        ghost start: map<int, Handle>)
      returns (r: Outcome, ghost done: nat)
      requires Acquired(obj, index, start) && off + n <= c.objectSize && from + n <= buf.Length
      modifies k, obj, buf
      ensures Valid() && SameBytes(old(k.fs), k.fs) && k.badCloses == old(k.badCloses)
      ensures r != Stuck ==> Coherent() && Accounted(start)
      ensures done <= n && (r == Ok ==> done == n && k.errors == old(k.errors))
      ensures r == Error ==> k.errors > old(k.errors)
      ensures k.fs.dir == old(k.fs.dir) && k.troubles == old(k.troubles)
      ensures r == Stuck ==> !Intact(old(k.fs), c) && k.errors == old(k.errors)
      ensures Filled(old(buf[..]), buf[..], old(k.fs).File(c.Path(index)), off, from, done)
      ensures Intact(old(k.fs), c) ==> Intact(k.fs, c)
    {
      hide DataPath;
      hide OidAt;
      hide AccountedFor;
      hide Intact;
      hide OnlyGrows;
      ghost var held, view, fd := k.fs, View(), obj.fileFd;
      assert recache ==> SlotOk(held, c, index % NB_MAX_OBJECTS, view[index % NB_MAX_OBJECTS]);
      hide CacheOk;
      hide SlotOk;
      hide Filled;
      r, done := ObjRead(k, obj, buf, from, n, off);
      FilledByHandle(old(buf[..]), buf[..], held, fd, c.Path(index), off, from, done);
      if r == Stuck {
        ShortFile(held, c, index);
        return;
      }
      var ok := Finish(obj, index, r == Error, start, held, view, fd);
      r := if ok then Ok else Error;
      SameFiles(held, k.fs, c);
    }

    /** One turn of the read loop: n bytes from object `index`. */
    method ReadPiece(index: nat, off: nat, buf: array<byte>, from: nat, n: nat, ghost start: map<int, Handle>)
      returns (r: Outcome, stage: Stage, breach: bool, ghost done: nat)
      requires Valid() && Coherent() && Accounted(start)
      requires index < c.nbObjects && off + n <= c.objectSize && from + n <= buf.Length
      modifies k, Cache(), buf
      ensures Valid() && k.badCloses == old(k.badCloses)
      ensures SameBytes(old(k.fs), k.fs)
      ensures r != Stuck ==> Accounted(start)
      ensures done <= n && (r == Ok ==> done == n && k.errors == old(k.errors) && stage == Done && Coherent())
      ensures r == Error ==>
        k.errors > old(k.errors) || Denied(old(k.fs), c, k.troubles > old(k.troubles), index)
      ensures k.troubles >= old(k.troubles) && NamesFramed(old(k.fs), k.fs, c)
      ensures r == Stuck ==> !Intact(old(k.fs), c) && k.errors == old(k.errors)
      ensures Filled(old(buf[..]), buf[..], old(k.fs).File(c.Path(index)), off, from, done)
      ensures k.errors >= old(k.errors)
      ensures r != Stuck ==> LeftBy(stage, breach)
      ensures breach ==> r == Error && recache && stage.Suspect()
      ensures stage == FetchFailed ==> r == Error && k.errors > old(k.errors)
      ensures stage != FetchFailed && Intact(old(k.fs), c) ==> Intact(k.fs, c)
    {
      hide DataPath;
      hide OidAt;
      hide AccountedFor;
      hide CacheOk;
      hide Filled;
      hide SameBytes;
      hide OnlyGrows;
      var obj;
      ghost var fs0, before := k.fs, buf[..];
      obj, stage, breach := Acquire(index, start);
      ghost var got := k.fs;
      SameNamesFramed(old(k.fs), got, got, c);
      done := 0;
      ghost var held := k.fs;
      FilledWithNothing(before, fs0.File(c.Path(index)), off, from);
      if stage != Done {
        r := Error;
      } else {
        r, done := ReadAcquired(obj, index, off, buf, from, n, start);
        SameNamesFramed(old(k.fs), got, k.fs, c);
        FilledFrom(before, buf[..], fs0, held, c.Path(index), off, from, done);
        SameBytesTwice(fs0, held, k.fs);
      }
    }

    /** The loop of `osd_op_read`, from byte `local` of object `first` on. */
    method ReadLoop(buf: array<byte>, offset: nat, first: nat, local: nat, ghost start: map<int, Handle>)
      returns (r: Outcome, stage: Stage, breach: bool, ghost t: Trail)
      requires Valid() && Coherent() && Accounted(start)
      requires c.Accepts(offset, buf.Length) && LoopAt(c, offset, buf.Length, 0, first, local, [])
      modifies k, Cache(), buf
      ensures Valid() && k.badCloses == old(k.badCloses) && SameBytes(old(k.fs), k.fs)
      ensures ReadUpTo(Disk(old(k.fs), c), offset, old(buf[..]), buf[..], t.done)
      ensures t.pieces <= Pieces(c.objectSize, offset, buf.Length)
      ensures r == Ok ==>
        t.done == buf.Length && k.errors == old(k.errors) && t.pieces == Pieces(c.objectSize, offset, buf.Length)
      ensures r == Error ==>
        k.errors > old(k.errors) || SomeDenied(old(k.fs), c, k.troubles > old(k.troubles), offset, buf.Length)
      ensures k.troubles >= old(k.troubles) && NamesFramed(old(k.fs), k.fs, c)
      ensures r == Stuck ==> !Intact(old(k.fs), c)
      ensures k.errors >= old(k.errors)
      ensures r != Stuck ==> Accounted(start) && LeftBy(stage, breach)
      ensures breach ==> r == Error && recache && stage.Suspect()
      ensures stage == FetchFailed ==> r == Error && k.errors > old(k.errors)
      ensures stage != FetchFailed && Intact(old(k.fs), c) ==> Intact(k.fs, c)
    {
      hide DataPath;
      hide OidAt;
      hide AccountedFor;
      hide CacheOk;
      hide Disk;
      hide Filled;
      hide Intact;
      hide LoopAt;
      hide ReadUpTo;
      hide Pieces;
      hide PieceLength;
      hide Position;
      hide Denied;
      hide SomeDenied;
      NoNewNames(k.fs, k.fs, c);
      hide NamesFramed;
      hide Stage.Suspect;
      hide LeftBy;
      ghost var len, fs0, before := buf.Length, k.fs, buf[..];
      AcceptedFits(c, offset, len);
      NothingRead(fs0, c, offset, before);
      hide SameBytes;
      hide Collection.Accepts;
      assert c.Valid();
      hide Store.Valid;
      hide Collection.Valid;
      hide Collection.Capacity;
      hide Coherent;
      hide Accounted;
      stage, breach, t := Done, false, Trail(0, []);
      var got: nat, traverse: nat, osdOffset: nat := 0, first, local;
      while got != buf.Length
        invariant got <= len == buf.Length
        invariant LoopAt(c, offset, len, got, traverse, osdOffset, t.pieces)
        invariant ReadUpTo(Disk(fs0, c), offset, before, buf[..], got)
        invariant SameBytes(fs0, k.fs)
        invariant Valid() && Coherent() && Accounted(start)
        invariant k.errors == old(k.errors) && k.badCloses == old(k.badCloses)
        invariant Intact(fs0, c) ==> Intact(k.fs, c)
        invariant stage == Done && !breach && t.done == got
        invariant k.troubles >= old(k.troubles) && NamesFramed(fs0, k.fs, c)
      {
        LoopTurns(c, offset, len, got, traverse, osdOffset, t.pieces);
        LoopCutsPlan(c, offset, len, got, traverse, osdOffset, t.pieces);
        var localLen := PieceLength(c.objectSize, osdOffset, buf.Length - got);
        ghost var mid, bytes, done, troubles := k.fs, buf[..], 0, k.troubles;
        r, stage, breach, done := ReadPiece(traverse, osdOffset, buf, got, localLen, start);
        ReadTurn(fs0, mid, k.fs, c, offset, before, bytes, buf[..], got, traverse, osdOffset, done);
        t := Trail(got + done, t.pieces);
        DeniedInTurn(fs0, mid, k.fs, c, k.troubles > troubles, k.troubles > old(k.troubles), offset, len, got,
                     traverse, osdOffset);
        if r != Ok {
          return;
        }
        t := Trail(got + done, t.pieces + [Piece(traverse, osdOffset, localLen)]);
        got := got + localLen;
        traverse := traverse + 1;
        osdOffset := 0;
      }
      LoopCutsPlan(c, offset, len, got, traverse, osdOffset, t.pieces);
      CoherentLeft();
      r := Ok;
    }

    /** `osd_op_read` */
    method Read(buf: array<byte>, offset: nat, ghost start: map<int, Handle>)
      returns (r: Outcome, stage: Stage, breach: bool, ghost t: Trail)
      requires Valid() && Coherent() && Accounted(start) && offset + buf.Length < U64
      modifies k, Cache(), buf
      ensures Valid() && k.badCloses == old(k.badCloses) && (r != Stuck ==> Accounted(start))
      ensures SameBytes(old(k.fs), k.fs) && NamesFramed(old(k.fs), k.fs, c) && k.troubles >= old(k.troubles)
      ensures !c.Accepts(offset, buf.Length) ==> r == Error && k.fs == old(k.fs) && buf[..] == old(buf[..])
      ensures c.Accepts(offset, buf.Length) ==>
        && ReadUpTo(Disk(old(k.fs), c), offset, old(buf[..]), buf[..], t.done)
        && t.pieces <= Pieces(c.objectSize, offset, buf.Length)
        && (r == Error ==>
              k.errors > old(k.errors) || SomeDenied(old(k.fs), c, k.troubles > old(k.troubles), offset, buf.Length))
      ensures r == Ok ==>
        && c.Accepts(offset, buf.Length) && t.done == buf.Length && k.errors == old(k.errors)
        && Holds(Disk(old(k.fs), c), offset, buf[..])
        && t.pieces == Pieces(c.objectSize, offset, buf.Length)
      ensures r == Stuck ==> !Intact(old(k.fs), c)
      ensures k.errors >= old(k.errors)
      ensures r != Stuck ==> LeftBy(stage, breach)
      ensures breach ==> r == Error && recache && stage.Suspect() && c.Accepts(offset, buf.Length)
      ensures stage == FetchFailed ==> r == Error && k.errors > old(k.errors)
      ensures stage != FetchFailed && Intact(old(k.fs), c) ==> Intact(k.fs, c)
    {
      hide DataPath;
      hide OidAt;
      hide AccountedFor;
      hide CacheOk;
      hide Disk;
      hide Intact;
      hide LoopAt;
      hide ReadUpTo;
      hide Pieces;
      hide Stage.Suspect;
      hide LeftBy;
      var span := Locate(c, offset, buf.Length);
      LocateIffAccepts(c, offset, buf.Length);
      hide Locate;
      if span.Refused? {
        CoherentLeft();
        return Error, Done, false, Trail(0, []);
      }
      hide SameBytes;
      LoopStarts(c, offset, buf.Length);
      hide Collection.Accepts;
      ghost var fs0, before := k.fs, buf[..];
      r, stage, breach, t := ReadLoop(buf, offset, span.first.index, span.first.local, start);
      ReadMeaning(fs0, c, offset, before, buf[..], t.done);
    }

    /** The loop of `osd_op_write`. */
    method WriteLoop(buf: seq<byte>, offset: nat, first: nat, local: nat, ghost start: map<int, Handle>)
      returns (r: Outcome, stage: Stage, breach: bool, ghost t: Trail)
      requires Valid() && Coherent() && Accounted(start)
      requires c.Accepts(offset, |buf|) && LoopAt(c, offset, |buf|, 0, first, local, [])
      modifies k, Cache()
      ensures Valid() && Accounted(start) && k.badCloses == old(k.badCloses) && r != Stuck
      ensures t.done <= |buf| && WrittenUpTo(old(k.fs), k.fs, c, offset, buf, t.done)
      ensures t.pieces <= Pieces(c.objectSize, offset, |buf|)
      ensures r == Ok ==>
        t.done == |buf| && k.errors == old(k.errors) && t.pieces == Pieces(c.objectSize, offset, |buf|)
      ensures r == Error ==>
        k.errors > old(k.errors) || SomeDenied(old(k.fs), c, k.troubles > old(k.troubles), offset, |buf|)
      ensures k.troubles >= old(k.troubles) && NamesFramed(old(k.fs), k.fs, c)
      ensures k.errors >= old(k.errors)
      ensures LeftBy(stage, breach)
      ensures breach ==> r == Error && recache && stage.Suspect()
      ensures stage == FetchFailed ==> r == Error && k.errors > old(k.errors)
      ensures stage != FetchFailed && Intact(old(k.fs), c) ==> Intact(k.fs, c)
    {
      hide DataPath;
      hide OidAt;
      hide AccountedFor;
      hide CacheOk;
      hide Disk;
      hide Laid;
      hide Intact;
      hide LoopAt;
      hide WrittenUpTo;
      hide SameElsewhere;
      hide Pieces;
      hide PieceLength;
      hide Position;
      hide Denied;
      hide SomeDenied;
      NoNewNames(k.fs, k.fs, c);
      hide NamesFramed;
      hide Stage.Suspect;
      hide LeftBy;
      ghost var fs0 := k.fs;
      AcceptedFits(c, offset, |buf|);
      NothingWritten(fs0, c, offset, buf);
      hide Collection.Accepts;
      assert c.Valid();
      hide Store.Valid;
      hide Collection.Valid;
      hide Collection.Capacity;
      hide Coherent;
      hide Accounted;
      stage, breach, t := Done, false, Trail(0, []);
      var written: nat, traverse: nat, osdOffset: nat := 0, first, local;
      while written != |buf|
        invariant written <= |buf|
        invariant LoopAt(c, offset, |buf|, written, traverse, osdOffset, t.pieces)
        invariant WrittenUpTo(fs0, k.fs, c, offset, buf, written)
        invariant Valid() && Coherent() && Accounted(start)
        invariant k.errors == old(k.errors) && k.badCloses == old(k.badCloses)
        invariant Intact(fs0, c) ==> Intact(k.fs, c)
        invariant stage == Done && !breach && t.done == written
        invariant k.troubles >= old(k.troubles) && NamesFramed(fs0, k.fs, c)
      {
        LoopTurns(c, offset, |buf|, written, traverse, osdOffset, t.pieces);
        LoopCutsPlan(c, offset, |buf|, written, traverse, osdOffset, t.pieces);
        var localLen := PieceLength(c.objectSize, osdOffset, |buf| - written);
        ghost var mid, done, troubles := k.fs, 0, k.troubles;
        r, stage, breach, done := WritePiece(traverse, osdOffset, buf, written, localLen, start);
        WrittenFurther(fs0, mid, k.fs, c, offset, buf, written, traverse, osdOffset, done);
        t := Trail(written + done, t.pieces);
        DeniedInTurn(fs0, mid, k.fs, c, k.troubles > troubles, k.troubles > old(k.troubles), offset, |buf|, written,
                     traverse, osdOffset);
        if r != Ok {
          return;
        }
        t := Trail(written + done, t.pieces + [Piece(traverse, osdOffset, localLen)]);
        written := written + localLen;
        traverse := traverse + 1;
        osdOffset := 0;
      }
      LoopCutsPlan(c, offset, |buf|, written, traverse, osdOffset, t.pieces);
      CoherentLeft();
      r := Ok;
    }

    /** `osd_op_write` */
    method Write(buf: seq<byte>, offset: nat, ghost start: map<int, Handle>)
      returns (r: Outcome, stage: Stage, breach: bool, ghost t: Trail)
      requires Valid() && Coherent() && Accounted(start) && offset + |buf| < U64
      modifies k, Cache()
      ensures Valid() && Accounted(start) && k.badCloses == old(k.badCloses)
      ensures r != Stuck && NamesFramed(old(k.fs), k.fs, c) && k.troubles >= old(k.troubles)
      ensures !c.Accepts(offset, |buf|) ==> r == Error && k.fs == old(k.fs)
      ensures c.Accepts(offset, |buf|) ==>
        && t.done <= |buf| && WrittenUpTo(old(k.fs), k.fs, c, offset, buf, t.done)
        && t.pieces <= Pieces(c.objectSize, offset, |buf|)
        && (r == Error ==>
              k.errors > old(k.errors) || SomeDenied(old(k.fs), c, k.troubles > old(k.troubles), offset, |buf|))
      ensures r == Ok ==>
        && c.Accepts(offset, |buf|) && t.done == |buf| && k.errors == old(k.errors)
        && offset + |buf| <= c.Capacity() && Disk(k.fs, c) == Overlay(Disk(old(k.fs), c), offset, buf)
        && t.pieces == Pieces(c.objectSize, offset, |buf|)
      ensures k.errors >= old(k.errors)
      ensures LeftBy(stage, breach)
      ensures breach ==> r == Error && recache && stage.Suspect() && c.Accepts(offset, |buf|)
      ensures stage == FetchFailed ==> r == Error && k.errors > old(k.errors)
      ensures stage != FetchFailed && Intact(old(k.fs), c) ==> Intact(k.fs, c)
    {
      hide DataPath;
      hide OidAt;
      hide AccountedFor;
      hide CacheOk;
      hide Disk;
      hide Intact;
      hide LoopAt;
      hide WrittenUpTo;
      hide SameElsewhere;
      hide Pieces;
      hide Stage.Suspect;
      hide LeftBy;
      var span := Locate(c, offset, |buf|);
      LocateIffAccepts(c, offset, |buf|);
      hide Locate;
      if span.Refused? {
        CoherentLeft();
        return Error, Done, false, Trail(0, []);
      }
      LoopStarts(c, offset, |buf|);
      hide Collection.Accepts;
      ghost var fs0 := k.fs;
      r, stage, breach, t := WriteLoop(buf, offset, span.first.index, span.first.local, start);
      WrittenMeaning(fs0, k.fs, c, offset, buf, t.done);
    }

    /** Someone outside the store deletes an object's file. */
    method Evict(index: nat, ghost start: map<int, Handle>)
      requires Valid() && Coherent() && Accounted(start) && index < c.nbObjects
      modifies k
      ensures Valid() && Coherent() && Accounted(start)
      ensures k.errors == old(k.errors) && k.badCloses == old(k.badCloses) && k.troubles == old(k.troubles)
      ensures k.fs.dir == old(k.fs.dir) - {c.Path(index)}
      ensures index * c.objectSize + c.objectSize <= c.Capacity()
      ensures Disk(k.fs, c) == Overlay(Disk(old(k.fs), c), index * c.objectSize, Zeros(c.objectSize))
      ensures SameElsewhere(old(k.fs), k.fs, c)
      ensures Intact(old(k.fs), c) ==> Intact(k.fs, c)
    {
      hide DataPath;
      hide OidAt;
      hide AccountedFor;
      ghost var fs0, view := k.fs, View();
      k.Unlink(c.Path(index));
      assert View() == view;
      EvictedCacheOk(fs0, k.fs, c, view, c.Path(index));
      hide CacheOk;
      EvictedDisk(fs0, k.fs, c, index);
    }

    method CloseSlot(x: nat, ghost before: seq<Slot>, ghost start: map<int, Handle>) returns (ok: bool)
      requires Valid() && recache && x < |slots|
      requires Freeing(k.fs.fds, before, View(), x) && Accounted(start)
      modifies k, slots[x]
      ensures k.fs.Valid() && k.fs.dir == old(k.fs.dir) && k.fs.data == old(k.fs.data)
      ensures k.badCloses == old(k.badCloses) && k.troubles == old(k.troubles)
      ensures k.errors >= old(k.errors) && (ok <==> k.errors == old(k.errors))
      ensures ok ==> Freeing(k.fs.fds, before, View(), x + 1) && Accounted(start)
    {
      hide AccountedFor;
      ghost var fds, view := k.fs.fds, View();
      FreeingTurns(fds, before, view, x);
      hide Freeing;
      if slots[x].fileFd > RESERVED_FDS {
        ok := k.Close(slots[x].fileFd);
        if !ok {
          return;
        }
        slots[x].fileFd := 0;
        assert View() == view[x := view[x].(fd := 0)];
        ClosedSlotAccounted(start, fds, view, x);
      }
      ok := true;
    }

    /** `osd_free_collection`: close every handle the cache holds; the slots keep their object indices. */
    method FreeCollection(ghost start: map<int, Handle>) returns (ok: bool)
      requires Valid() && Closable() && Accounted(start)
      modifies k, Cache()
      ensures k.fs.Valid() && k.fs.dir == old(k.fs.dir) && k.fs.data == old(k.fs.data)
      ensures k.badCloses == old(k.badCloses) && k.troubles == old(k.troubles)
      ensures k.errors >= old(k.errors) && (ok <==> k.errors == old(k.errors))
      ensures !recache ==> ok && unchanged(k)
      ensures ok ==> AccountedFor(start, k.fs.fds, [], -1)
      ensures ok ==> forall s :: 0 <= s < |View()| ==>
        View()[s] == if old(View())[s].fd > RESERVED_FDS then old(View())[s].(fd := 0) else old(View())[s]
    {
      hide DataPath;
      hide OidAt;
      hide AccountedFor;
      ok := true;
      var limit := if !recache then 0 else if c.nbObjects > NB_MAX_OBJECTS then NB_MAX_OBJECTS else c.nbObjects;
      ghost var before := View();
      FreeingStarts(k.fs.fds, c.nbObjects, before);
      hide Freeing;
      for loop := 0 to limit
        invariant k.fs.Valid() && k.fs.dir == old(k.fs.dir) && k.fs.data == old(k.fs.data)
        invariant k.badCloses == old(k.badCloses) && k.errors == old(k.errors) && k.troubles == old(k.troubles)
        invariant Freeing(k.fs.fds, before, View(), loop)
        invariant Accounted(start)
        invariant !recache ==> unchanged(k)
      {
        ok := CloseSlot(loop, before, start);
        if !ok {
          return;
        }
      }
      FreeingEnds(k.fs.fds, before, View(), limit);
      NoneHeld(start, k.fs.fds, View());
    }
  }
}
