/** How the handle cache goes wrong once it is incoherent, reached from what the cache's own steps leave. */
module CacheFaults {
  import opened Naming
  import opened FileSystem
  import opened Geometry
  import opened ObjectOps
  import opened Recaching
  import opened ObjectStore

  /** A lookup takes the slot for a hit: its index matches and the path it names exists. */
  ghost predicate TakenFor(fs: Fs, c: Collection, slot: Slot, index: nat)
    requires c.Valid()
  {
    slot.index == index && |slot.oid| == OID_LEN && slot.oid == OidAt(c.startOid, index) && c.Path(index) in fs.dir
  }

  /** The slot is taken for object i's, and what it reads and writes is object j's file. */
  ghost predicate Aliased(fs: Fs, c: Collection, slot: Slot, i: nat, j: nat)
    requires c.Valid()
  {
    && TakenFor(fs, c, slot, i) && i != j
    && fs.Refers(slot.fd, c.Path(j)) && !fs.Refers(slot.fd, c.Path(i)) && fs.Open(slot.fd) == fs.File(c.Path(j))
  }

  /** A slot with a dead handle number, once the kernel has given the number to another object's file. */
  lemma ReusedNumberAliases(fs: Fs, fs': Fs, c: Collection, slot: Slot, j: nat)
    requires c.Valid() && fs.Valid() && 0 <= slot.index < c.nbObjects && j < c.nbObjects && slot.index != j
    requires |slot.oid| == OID_LEN && slot.oid == OidAt(c.startOid, slot.index)
    requires c.Path(slot.index) in fs.dir && c.Path(j) in fs.dir
    requires fs' == fs.(fds := fs.fds[slot.fd := Handle(fs.dir[c.Path(j)], false)])
    ensures Aliased(fs', c, slot, slot.index, j)
  {
    hide DataPath;
    hide OidAt;
    if c.Path(slot.index) == c.Path(j) {
      PathInjective(c, slot.index, j);
    }
  }

  /**
   * A slot that is to hold object m next, and the close of whose handle fails, keeps its record, the number
   * of the lost handle in it. If the next `open`, of any other object j, returns that number, the slot is
   * still taken for its old object's and serves the file of j.
   */
  method FailedCloseAliasesObjects(s: Store, m: nat, j: nat, ghost start: map<int, Handle>) returns (aliased: bool)
    requires s.Valid() && s.Coherent() && s.Accounted(start) && s.recache && m < s.c.nbObjects && j < s.c.nbObjects
    modifies s.k, s.Cache()
    ensures s.k.fs.Valid()
    ensures aliased ==>
      var slot := s.View()[m % NB_MAX_OBJECTS];
      && slot == old(s.View()[m % NB_MAX_OBJECTS]) && slot.fd > RESERVED_FDS && slot.fd in old(s.k.fs.fds)
      && 0 <= slot.index < s.c.nbObjects
      && (s.c.Path(slot.index) in s.k.fs.dir && slot.index != j ==> Aliased(s.k.fs, s.c, slot, slot.index, j))
  {
    hide DataPath;
    hide OidAt;
    hide Aliased;
    hide AccountedFor;
    var x := m % NB_MAX_OBJECTS;
    ghost var slot := s.View()[x];
    assert SlotOk(s.k.fs, s.c, x, slot);
    hide CacheOk;
    var stage, breach := s.RefillSlot(m, start);
    if stage != CloseFailed {
      return false;
    }
    assert s.View()[x] == slot;
    ghost var fs := s.k.fs;
    var fd := s.k.Open(s.c.Path(j));
    aliased := fd >= 0 && fd == s.slots[x].fileFd;
    assert s.View()[x] == slot;
    if aliased && s.c.Path(slot.index) in s.k.fs.dir && slot.index != j {
      ReusedNumberAliases(fs, s.k.fs, s.c, slot, j);
    }
  }

  /** A slot with an object's index and handle number 0 is right only if standard input is that object's file. */
  lemma HandleZero(fs: Fs, c: Collection, slot: Slot)
    requires c.Valid() && 0 <= slot.index < c.nbObjects && c.Path(slot.index) in fs.dir
    requires slot == Slot(OidAt(c.startOid, slot.index), slot.index, 0)
    ensures TakenFor(fs, c, slot, slot.index)
    ensures SlotOk(fs, c, slot.index % NB_MAX_OBJECTS, slot) <==> fs.Refers(0, c.Path(slot.index))
  {
    hide DataPath;
  }

  /**
   * A fetch that fails after creating the file, or a lookup that finds no node for a file that is there,
   * leaves the slot with the new object's index and handle number 0: the next lookup takes it for a hit.
   */
  method FailedFetchLeavesHit(s: Store, m: nat, ghost start: map<int, Handle>) returns (stage: Stage)
    requires s.Valid() && s.Coherent() && s.Accounted(start) && s.recache && m < s.c.nbObjects
    modifies s.k, s.Cache()
    ensures s.Valid()
    ensures (stage == FetchFailed || stage == NoDataNode) && s.c.Path(m) in s.k.fs.dir ==>
      var slot := s.View()[m % NB_MAX_OBJECTS];
      && slot.fd == 0 && TakenFor(s.k.fs, s.c, slot, m)
      && (SlotOk(s.k.fs, s.c, m % NB_MAX_OBJECTS, slot) <==> s.k.fs.Refers(0, s.c.Path(m)))
      && (s.Coherent() ==> s.k.fs.Refers(0, s.c.Path(m)))
  {
    hide DataPath;
    hide OidAt;
    hide AccountedFor;
    hide SlotOk;
    hide TakenFor;
    var breach;
    stage, breach := s.RefillSlot(m, start);
    if (stage == FetchFailed || stage == NoDataNode) && s.c.Path(m) in s.k.fs.dir {
      HandleZero(s.k.fs, s.c, s.View()[m % NB_MAX_OBJECTS]);
    }
  }

  /**
   * After `osd_free_collection` every slot that held a handle keeps its object's index: if the store is used
   * again, the slot is taken for a hit, with handle number 0.
   */
  method FreedSlotsStillHit(s: Store, ghost start: map<int, Handle>) returns (ok: bool)
    requires s.Valid() && s.Coherent() && s.Accounted(start)
    modifies s.k, s.Cache()
    ensures s.k.fs.Valid()
    ensures ok ==> forall x :: 0 <= x < |s.View()| && old(s.View())[x].fd > RESERVED_FDS ==>
      var slot := s.View()[x];
      && slot.fd == 0 && 0 <= slot.index < s.c.nbObjects
      && (s.c.Path(slot.index) in s.k.fs.dir ==>
            && TakenFor(s.k.fs, s.c, slot, slot.index)
            && (SlotOk(s.k.fs, s.c, x, slot) <==> s.k.fs.Refers(0, s.c.Path(slot.index))))
  {
    hide DataPath;
    hide OidAt;
    hide AccountedFor;
    ghost var view, fs := s.View(), s.k.fs;
    s.CoherentClosable();
    ok := s.FreeCollection(start);
    if ok {
      forall x | 0 <= x < |s.View()| && view[x].fd > RESERVED_FDS
        ensures var slot := s.View()[x];
                && slot.fd == 0 && 0 <= slot.index < s.c.nbObjects
                && (s.c.Path(slot.index) in s.k.fs.dir ==>
                      && TakenFor(s.k.fs, s.c, slot, slot.index)
                      && (SlotOk(s.k.fs, s.c, x, slot) <==> s.k.fs.Refers(0, s.c.Path(slot.index))))
      {
        assert SlotOk(fs, s.c, x, view[x]);
        if s.c.Path(s.View()[x].index) in s.k.fs.dir {
          HandleZero(s.k.fs, s.c, s.View()[x]);
        }
      }
    }
  }
}
