/** The file calls the store makes, as steps over directory, file contents and descriptor table. */
module FileSystem {
  import opened Bytes

  /** `creating` tells the descriptors that `open` with O_CREAT handed out. */
  datatype Handle = Handle(inode: nat, creating: bool)

  datatype Fs = Fs(dir: map<string, nat>, data: map<nat, seq<byte>>, fds: map<int, Handle>) {
    /** Names and descriptors refer to existing files; there are no hard links. */
    ghost predicate Valid() {
      && (forall p :: p in dir ==> dir[p] in data)
      && (forall p, q :: p in dir && q in dir && dir[p] == dir[q] ==> p == q)
      && (forall fd :: fd in fds ==> fd >= 0 && fds[fd].inode in data)
    }

    /** Contents of the file at a path; an absent file has none. */
    function File(path: string): seq<byte> {
      if path in dir && dir[path] in data then data[dir[path]] else []
    }

    function ByteAt(path: string, j: nat): byte {
      At(File(path), j)
    }

    /** The bytes behind a descriptor. */
    function Open(fd: int): seq<byte> {
      if fd in fds && fds[fd].inode in data then data[fds[fd].inode] else []
    }

    /** What writing through a descriptor leaves; writing nothing, or to no descriptor, changes nothing. */
    function Written(fd: int, off: nat, bytes: seq<byte>): Fs {
      if fd in fds && bytes != [] then
        this.(data := data[fds[fd].inode := WriteAt(Open(fd), off, bytes)])
      else this
    }

    /** The descriptor refers to the file now at this path. */
    predicate Refers(fd: int, path: string) {
      fd in fds && path in dir && fds[fd].inode == dir[path]
    }
  }

  /** Every path shows the same bytes. */
  ghost predicate SameBytes(fs: Fs, fs': Fs) {
    forall path, j: nat :: fs'.ByteAt(path, j) == fs.ByteAt(path, j)
  }

  /** The file at one path had data laid at off; nothing else shows a change. */
  ghost predicate Laid(fs: Fs, fs': Fs, path: string, off: nat, data: seq<byte>) {
    forall p, j: nat ::
      fs'.ByteAt(p, j) == if p == path && off <= j < off + |data| then data[j - off] else fs.ByteAt(p, j)
  }

  /** No name is lost. */
  ghost predicate NamesKept(fs: Fs, fs': Fs) {
    forall p :: p in fs.dir ==> p in fs'.dir
  }

  /** No name is rebound and no file gets shorter. */
  ghost predicate OnlyGrows(fs: Fs, fs': Fs) {
    forall p :: p in fs.dir ==>
      && p in fs'.dir && fs'.dir[p] == fs.dir[p]
      && |fs'.File(p)| >= |fs.File(p)|
  }

  /** Writing through a descriptor that refers to a path changes that file alone. */
  lemma WriteThrough(fs: Fs, fd: int, path: string, off: nat, data: seq<byte>)
    requires fs.Valid() && fs.Refers(fd, path)
    ensures var fs' := fs.Written(fd, off, data);
            fs'.Valid() && Laid(fs, fs', path, off, data) && OnlyGrows(fs, fs')
  {
  }

  lemma WrittenTwice(fs: Fs, fd: int, off: nat, a: seq<byte>, b: seq<byte>)
    requires fs.Valid()
    ensures fs.Written(fd, off, a).Written(fd, off + |a|, b) == fs.Written(fd, off, a + b)
  {
    if fd in fs.fds {
      WriteAtTwice(fs.Open(fd), off, a, b);
      if a == [] {
        assert a + b == b;
      } else if b == [] {
        assert a + b == a;
      }
    }
  }

  /**
   * The kernel. Every call may fail; a transfer may be short. `errors` counts the failing calls other than
   * `stat`, `troubles` the calls of `stat` that fail for a file that is there, and `badCloses` the attempts
   * to close a descriptor that is not open.
   */
  class Kernel {
    var fs: Fs
    ghost var errors: nat
    ghost var troubles: nat
    ghost var badCloses: nat

    constructor (fs: Fs)
      requires fs.Valid()
      ensures this.fs == fs && fs.Valid() && errors == troubles == badCloses == 0
    {
      this.fs := fs;
      errors, troubles, badCloses := 0, 0, 0;
    }

    /** `stat`: success means the path exists; it may fail for an existing path too. */
    method Stat(path: string) returns (ok: bool)
      modifies `troubles
      ensures ok ==> path in fs.dir
      ensures troubles == old(troubles) + (if path in fs.dir && !ok then 1 else 0)
    {
      var failing: bool := *;
      ok := path in fs.dir && !failing;
      if path in fs.dir && !ok {
        troubles := troubles + 1;
      }
    }

    method FreshFd() returns (fd: int)
      requires fs.Valid()
      ensures fd >= 0 && fd !in fs.fds
    {
      fd := 0;
      var used := fs.fds.Keys;
      while fd in used
        invariant fd >= 0
        invariant used <= fs.fds.Keys
        invariant forall f :: f in fs.fds && f !in used ==> f < fd
        decreases used
      {
        used := used - {fd};
        fd := fd + 1;
      }
    }

    /** `open` without O_CREAT. */
    method Open(path: string) returns (fd: int)
      requires fs.Valid()
      modifies this
      ensures fs.Valid() && badCloses == old(badCloses) && troubles == old(troubles)
      ensures fd < 0 ==> fs == old(fs) && errors == old(errors) + 1
      ensures fd >= 0 ==>
        && errors == old(errors) && path in fs.dir && fd !in old(fs.fds)
        && fs == old(fs).(fds := old(fs.fds)[fd := Handle(fs.dir[path], false)])
    {
      var trouble: bool := *;
      if path !in fs.dir || trouble {
        errors := errors + 1;
        return -1;
      }
      fd := FreshFd();
      fs := fs.(fds := fs.fds[fd := Handle(fs.dir[path], false)]);
    }

    /** `open` with O_WRONLY | O_CREAT and no O_TRUNC: an existing file keeps its bytes. */
    method OpenCreate(path: string) returns (fd: int)
      requires fs.Valid()
      modifies this
      ensures fs.Valid() && badCloses == old(badCloses) && troubles == old(troubles)
      ensures SameBytes(old(fs), fs) && OnlyGrows(old(fs), fs)
      ensures fd < 0 ==> fs == old(fs) && errors == old(errors) + 1
      ensures fd >= 0 ==>
        && errors == old(errors) && fd !in old(fs.fds) && fs.Refers(fd, path)
        && fs.dir == old(fs.dir)[path := fs.dir[path]]
        && fs.fds == old(fs.fds)[fd := Handle(fs.dir[path], true)]
        && forall i :: i in old(fs.data) ==> i in fs.data && fs.data[i] == old(fs.data)[i]
    {
      var trouble: bool := *;
      if trouble {
        errors := errors + 1;
        return -1;
      }
      fd := FreshFd();
      if path !in fs.dir {
        var inode := FreshInode();
        fs := fs.(dir := fs.dir[path := inode], data := fs.data[inode := []]);
      }
      fs := fs.(fds := fs.fds[fd := Handle(fs.dir[path], true)]);
    }

    method FreshInode() returns (inode: nat)
      ensures inode !in fs.data
    {
      inode := 0;
      var used := fs.data.Keys;
      while inode in used
        invariant used <= fs.data.Keys
        invariant forall i :: i in fs.data && i !in used ==> i < inode
        decreases used
      {
        used := used - {inode};
        inode := inode + 1;
      }
    }

    /** `fallocate` from offset 0: on success the file is that long; on failure it may be partly grown. */
    method Fallocate(fd: int, size: nat) returns (ok: bool)
      requires fs.Valid()
      modifies this
      ensures fs.Valid() && badCloses == old(badCloses) && troubles == old(troubles)
      ensures fs.dir == old(fs.dir) && fs.fds == old(fs.fds)
      ensures SameBytes(old(fs), fs) && OnlyGrows(old(fs), fs)
      ensures ok ==> fd in fs.fds && |fs.Open(fd)| >= size && errors == old(errors)
      ensures !ok ==> errors == old(errors) + 1
      ensures fs.data.Keys == old(fs.data).Keys
    {
      var trouble: bool := *;
      if fd !in fs.fds {
        errors := errors + 1;
        return false;
      }
      var reached: int := size;
      if trouble {
        reached := *;
        if reached < 0 || reached > size {
          reached := size;
        }
        errors := errors + 1;
      }
      var inode := fs.fds[fd].inode;
      fs := fs.(data := fs.data[inode := Grow(fs.data[inode], reached)]);
      ok := !trouble;
    }

    /** `pread64`: -1, or 0 exactly at the end of the file, or a positive count up to the request. */
    method Pread(fd: int, buf: array<byte>, at: nat, len: nat, off: nat) returns (n: int)
      requires fs.Valid() && 0 < len && at + len <= buf.Length
      modifies this, buf
      ensures fs == old(fs) && badCloses == old(badCloses) && troubles == old(troubles)
      ensures -1 <= n <= len
      ensures n == -1 ==> errors == old(errors) + 1
      ensures n >= 0 ==> errors == old(errors) && fd in fs.fds
      ensures n == 0 ==> |fs.Open(fd)| <= off
      ensures n > 0 ==> off + n <= |fs.Open(fd)|
      ensures forall i :: 0 <= i < buf.Length ==>
        buf[i] == if at <= i < at + n then fs.Open(fd)[off + i - at] else old(buf[i])
    {
      var trouble: bool := *;
      if fd !in fs.fds || trouble {
        errors := errors + 1;
        return -1;
      }
      var file := fs.Open(fd);
      if |file| <= off {
        return 0;
      }
      var limit := Min(len, |file| - off);
      n := *;
      if n < 1 || n > limit {
        n := limit;
      }
      forall i | at <= i < at + n {
        buf[i] := file[off + i - at];
      }
    }

    /** `pwrite64`: -1 without effect, or a positive count up to the request. */
    method Pwrite(fd: int, data: seq<byte>, off: nat) returns (n: int)
      requires fs.Valid() && 0 < |data|
      modifies this
      ensures fs.Valid() && badCloses == old(badCloses) && troubles == old(troubles)
      ensures n == -1 || 0 < n <= |data|
      ensures n == -1 ==> errors == old(errors) + 1 && fs == old(fs)
      ensures n > 0 ==>
        && errors == old(errors) && fd in old(fs.fds)
        && fs == old(fs).Written(fd, off, data[..n])
    {
      var trouble: bool := *;
      if fd !in fs.fds || trouble {
        errors := errors + 1;
        return -1;
      }
      n := *;
      if n < 1 || n > |data| {
        n := |data|;
      }
      fs := fs.Written(fd, off, data[..n]);
    }

    /** `close`: the descriptor is gone after the attempt, whatever the call reports. */
    method Close(fd: int) returns (ok: bool)
      requires fs.Valid()
      modifies this
      ensures fs.Valid() && fs == old(fs).(fds := old(fs.fds) - {fd})
      ensures badCloses == old(badCloses) + (if fd in old(fs.fds) then 0 else 1) && troubles == old(troubles)
      ensures errors == old(errors) + (if ok then 0 else 1)
      ensures ok ==> fd in old(fs.fds)
    {
      var trouble: bool := *;
      if fd !in fs.fds {
        badCloses := badCloses + 1;
      }
      ok := fd in fs.fds && !trouble;
      if !ok {
        errors := errors + 1;
      }
      fs := fs.(fds := fs.fds - {fd});
    }

    /** Someone outside the store removes a file; open descriptors keep it alive. */
    method Unlink(path: string)
      requires fs.Valid()
      modifies this
      ensures fs.Valid() && fs == old(fs).(dir := old(fs.dir) - {path})
      ensures errors == old(errors) && badCloses == old(badCloses) && troubles == old(troubles)
    {
      fs := fs.(dir := fs.dir - {path});
    }
  }
}
