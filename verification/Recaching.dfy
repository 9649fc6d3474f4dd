/** Getting hold of an object's file: fetch if absent, open, and enter it in an attribute record. */
module Recaching {
  import opened Bytes
  import opened Naming
  import opened FileSystem
  import opened Placement
  import opened Geometry
  import opened ObjectOps

  /** The step at which `osd_recache_object` gave up, if any. */
  datatype Stage = Done | CloseFailed | NoDataNode | FetchFailed | OpenFailed {
    /** The steps after whose failure a cache slot may name an object whose file its handle is not. */
    predicate Suspect() {
      CloseFailed? || NoDataNode? || FetchFailed?
    }
  }

  /**
   * What a step did to names and handles: `path` may be created and no name is rebound, handle `gone`
   * is given up, and the only new handles are `got` and those that fetches leave open.
   */
  ghost predicate Rehandled(fs: Fs, fs': Fs, path: string, gone: int, got: int) {
    && fs'.dir.Keys <= fs.dir.Keys + {path}
    && (forall p :: p in fs.dir ==> p in fs'.dir && fs'.dir[p] == fs.dir[p])
    && var kept := WithoutFd(fs.fds, gone);
       && (forall fd :: fd in kept ==> fd in fs'.fds && fs'.fds[fd] == kept[fd])
       && (forall fd :: fd in fs'.fds && fd !in kept ==> fs'.fds[fd].creating || fd == got)
  }

  /** Fetching and reopening show no other byte through any path. */
  ghost predicate Refreshed(fs: Fs, fs': Fs, path: string, gone: int, got: int) {
    SameBytes(fs, fs') && OnlyGrows(fs, fs') && Rehandled(fs, fs', path, gone, got)
  }

  /** No node is known for an object, and its file is not there or `stat` failed to see it. */
  ghost predicate Denied(fs: Fs, c: Collection, trouble: bool, index: nat)
    requires c.Valid()
  {
    !HasNode(c.nodes, index) && (trouble || c.Path(index) !in fs.dir)
  }

  lemma NotRefreshed(fs: Fs, path: string)
    ensures Refreshed(fs, fs, path, -1, -1)
  {
  }

  /** A file created, unless it was there, and then allocated. */
  lemma CreatedAndGrown(fs: Fs, made: Fs, fs': Fs, path: string, fd: int)
    requires SameBytes(fs, made) && OnlyGrows(fs, made)
    requires if fd < 0 then made == fs
             else fd !in fs.fds && path in made.dir && made.dir == fs.dir[path := made.dir[path]]
                  && made.fds == fs.fds[fd := Handle(made.dir[path], true)]
    requires SameBytes(made, fs') && OnlyGrows(made, fs') && fs'.dir == made.dir && fs'.fds == made.fds
    ensures Refreshed(fs, fs', path, -1, -1)
  {
  }

  /** `simpleOSD_get_object_to_dc`, run by one thread on its own; the lock is the matter of FetchProtocol. */
  method GetObjectToDc(k: Kernel, c: Collection, oid: seq<byte>) returns (ok: bool)
    requires k.fs.Valid() && |oid| == OID_LEN
    modifies k
    ensures var path := DataPath(c.root, c.name, oid);
            && k.fs.Valid() && Refreshed(old(k.fs), k.fs, path, -1, -1)
            && (ok ==> path in k.fs.dir)
            && (ok && path !in old(k.fs.dir) ==> |k.fs.File(path)| >= c.objectSize)
    ensures k.badCloses == old(k.badCloses) && k.troubles >= old(k.troubles)
    ensures if ok then k.errors == old(k.errors) else k.errors > old(k.errors)
    ensures DataPath(c.root, c.name, oid) in old(k.fs.dir) && k.troubles == old(k.troubles) ==>
      ok && k.fs == old(k.fs)
  {
    var path := DataPath(c.root, c.name, oid);
    hide DataPath;
    hide WriteAt;
    hide SameBytes;
    hide OnlyGrows;
    ghost var fs0 := k.fs;
    NotRefreshed(fs0, path);
    hide Refreshed;
    var found := k.Stat(path);
    if !found {
      var objectFd := k.OpenCreate(path);
      ghost var made := k.fs;
      var granted := k.Fallocate(objectFd, c.objectSize);
      CreatedAndGrown(fs0, made, k.fs, path, objectFd);
      if !granted {
        return false;
      }
    }
    ok := true;
  }

  /** The middle of `osd_recache_object`: a missing file is fetched from the node the placement map names. */
  method FetchIfAbsent(k: Kernel, c: Collection, oid: seq<byte>, index: nat) returns (stage: Stage)
    requires k.fs.Valid() && |oid| == OID_LEN
    modifies k
    ensures k.fs.Valid() && Refreshed(old(k.fs), k.fs, DataPath(c.root, c.name, oid), -1, -1)
    ensures stage == Done || stage == NoDataNode || stage == FetchFailed
    ensures k.badCloses == old(k.badCloses) && k.troubles >= old(k.troubles)
    ensures if stage == FetchFailed then k.errors > old(k.errors) else k.errors == old(k.errors)
    ensures stage == NoDataNode ==> !HasNode(c.nodes, index) && k.fs == old(k.fs)
    ensures var path := DataPath(c.root, c.name, oid);
            && (stage == Done ==> path in k.fs.dir)
            && (stage == Done && path !in old(k.fs.dir) ==> |k.fs.File(path)| >= c.objectSize)
            && (path in old(k.fs.dir) && k.troubles == old(k.troubles) ==> stage == Done && k.fs == old(k.fs))
  {
    var path := DataPath(c.root, c.name, oid);
    hide DataPath;
    var present := k.Stat(path);
    if !present {
      var node, at := NodeOfIndex(c.nodes, index);
      if node.NoNode? {
        return NoDataNode;
      }
      var fetched := GetObjectToDc(k, c, oid);
      if !fetched {
        return FetchFailed;
      }
    }
    stage := Done;
  }

  /** `osd_recache_object`: give up the record's old handle, then point it at object `index`. */
  method RecacheObject(k: Kernel, c: Collection, obj: ObjectAttr, index: nat) returns (stage: Stage)
    requires k.fs.Valid() && c.Valid() && index < c.nbObjects
    modifies k, obj
    ensures k.fs.Valid()
    ensures k.badCloses == old(k.badCloses)
            + (if old(obj.fileFd) > RESERVED_FDS && old(obj.fileFd) !in old(k.fs.fds) then 1 else 0)
    ensures stage == Done ==> k.errors == old(k.errors)
    ensures stage == NoDataNode ==> Denied(old(k.fs), c, k.troubles > old(k.troubles), index)
    ensures stage != Done && stage != NoDataNode ==> k.errors > old(k.errors)
    ensures k.errors >= old(k.errors) && k.troubles >= old(k.troubles)
    ensures c.Path(index) in old(k.fs.dir) && k.troubles == old(k.troubles) ==>
      k.fs.dir == old(k.fs.dir) && k.fs.data == old(k.fs.data)
    ensures Refreshed(old(k.fs), k.fs, c.Path(index), old(obj.fileFd), if stage == Done then obj.fileFd else -1)
    ensures stage == Done ==>
      && obj.fileFd >= 0 && obj.fileFd !in WithoutFd(old(k.fs.fds), old(obj.fileFd))
      && k.fs.Refers(obj.fileFd, c.Path(index))
    ensures stage == CloseFailed ==> old(obj.fileFd) > RESERVED_FDS && old(obj.fileFd) !in k.fs.fds
    ensures if stage == CloseFailed then
              && obj.oid == old(obj.oid) && obj.objectIndex == old(obj.objectIndex) && obj.fileFd == old(obj.fileFd)
            else
              && obj.oid == OidAt(c.startOid, index) && obj.objectIndex == index && obj.size == c.objectSize
              && (stage == OpenFailed ==> obj.fileFd == -1)
              && (stage == NoDataNode || stage == FetchFailed ==> obj.fileFd == 0)
    ensures stage != FetchFailed && c.Path(index) in k.fs.dir && c.Path(index) !in old(k.fs.dir) ==>
      |k.fs.File(c.Path(index))| >= c.objectSize
  {
    hide DataPath;
    hide WriteAt;
    hide Refreshed;
    hide OidAt;
    if obj.fileFd > RESERVED_FDS {
      var closed := k.Close(obj.fileFd);
      if !closed {
        RefreshedByClose(old(k.fs), k.fs, c.Path(index), obj.fileFd);
        return CloseFailed;
      }
    }
    obj.Clear();
    obj.oid := GetIndexToObject(c.startOid, index);
    var path := DataPath(c.root, c.name, obj.oid);
    assert path == c.Path(index);
    obj.size := c.objectSize;
    obj.objectIndex := index;
    ghost var kept := k.fs;
    stage := FetchIfAbsent(k, c, obj.oid, index);
    RefreshedAfterClose(old(k.fs), kept, k.fs, path, old(obj.fileFd));
    if stage != Done {
      return;
    }
    ghost var ready := k.fs;
    obj.fileFd := k.Open(path);
    if obj.fileFd < 0 {
      obj.fileFd := -1;
      return OpenFailed;
    }
    RefreshedThenOpened(old(k.fs), ready, k.fs, path, old(obj.fileFd), obj.fileFd);
  }

  lemma RefreshedAfterClose(fs: Fs, closed: Fs, fs': Fs, path: string, gone: int)
    requires closed == fs.(fds := WithoutFd(fs.fds, gone)) && Refreshed(closed, fs', path, -1, -1)
    ensures Refreshed(fs, fs', path, gone, -1)
  {
  }

  lemma RefreshedThenOpened(fs: Fs, mid: Fs, fs': Fs, path: string, gone: int, got: int)
    requires Refreshed(fs, mid, path, gone, -1) && mid.Valid() && got !in mid.fds && path in mid.dir
    requires fs' == mid.(fds := mid.fds[got := Handle(mid.dir[path], false)])
    ensures Refreshed(fs, fs', path, gone, got) && got !in WithoutFd(fs.fds, gone)
  {
    assert forall p :: fs'.File(p) == mid.File(p);
  }

  lemma RefreshedByClose(fs: Fs, fs': Fs, path: string, gone: int)
    requires fs' == fs.(fds := WithoutFd(fs.fds, gone))
    ensures Refreshed(fs, fs', path, gone, -1)
  {
  }
}
