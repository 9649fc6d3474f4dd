/** Transfers to and from one open object, and the bookkeeping of its attribute record. */
module ObjectOps {
  import opened Bytes
  import opened FileSystem

  const RESERVED_FDS := 3

  /**
   * How an operation ends. `Stuck` stands for the transfer loops' missing case: a read that returns
   * zero bytes is repeated unchanged for ever.
   */
  datatype Outcome = Ok | Error | Stuck

  /** `object_attr_t`, without its time stamp and its function pointer. */
  class ObjectAttr {
    var oid: seq<byte>
    var size: nat
    var objectIndex: int
    var fileFd: int

    constructor Zeroed()
      ensures IsZeroed() && objectIndex == 0
    {
      oid, size, objectIndex, fileFd := Zeros(12), 0, 0, 0;
    }

    ghost predicate IsZeroed()
      reads this
    {
      oid == Zeros(12) && size == 0 && fileFd == 0
    }

    method Clear()
      modifies this
      ensures IsZeroed() && objectIndex == 0
    {
      oid, size, objectIndex, fileFd := Zeros(12), 0, 0, 0;
    }
  }

  /** The descriptor table after an object's handle was given up: handles up to RESERVED_FDS stay open. */
  ghost function WithoutFd(fds: map<int, Handle>, fd: int): map<int, Handle> {
    if fd > RESERVED_FDS then fds - {fd} else fds
  }

  /** `osd_reset_cache_object` */
  method ResetCacheObject(k: Kernel, obj: ObjectAttr) returns (ok: bool)
    requires k.fs.Valid()
    modifies k, obj
    ensures k.fs.Valid() && k.fs == old(k.fs).(fds := WithoutFd(old(k.fs.fds), old(obj.fileFd)))
    ensures k.badCloses == old(k.badCloses)
            + (if old(obj.fileFd) > RESERVED_FDS && old(obj.fileFd) !in old(k.fs.fds) then 1 else 0)
    ensures k.troubles == old(k.troubles) && (old(obj.fileFd) <= RESERVED_FDS ==> ok)
    ensures ok ==> obj.IsZeroed() && obj.objectIndex == -1 && k.errors == old(k.errors)
    ensures !ok ==> obj.fileFd == -1 && k.errors > old(k.errors)
  {
    if obj.fileFd > RESERVED_FDS {
      var closed := k.Close(obj.fileFd);
      if !closed {
        obj.fileFd := -1;
        return false;
      }
    }
    obj.Clear();
    obj.objectIndex := -1;
    ok := true;
  }

  /** What giving up a handle after a failed transfer leaves, in kernel and record. */
  twostate predicate HandleReset(k: Kernel, obj: ObjectAttr)
    reads k, obj
  {
    && k.errors > old(k.errors) && k.troubles == old(k.troubles)
    && k.badCloses == old(k.badCloses)
         + (if old(obj.fileFd) > RESERVED_FDS && old(obj.fileFd) !in old(k.fs.fds) then 1 else 0)
    && (obj.fileFd == -1 || (obj.IsZeroed() && obj.objectIndex == -1))
  }

  twostate predicate HandleKept(k: Kernel, obj: ObjectAttr)
    reads k, obj
  {
    && k.errors == old(k.errors) && k.troubles == old(k.troubles) && k.badCloses == old(k.badCloses)
    && obj.oid == old(obj.oid) && obj.size == old(obj.size)
    && obj.objectIndex == old(obj.objectIndex) && obj.fileFd == old(obj.fileFd)
  }

  lemma SlicesJoin(buf: seq<byte>, a: nat, b: nat, c: nat, n: nat)
    requires a <= b && b + n <= c <= |buf|
    ensures buf[a..b] + buf[b..c][..n] == buf[a..b + n]
  {
    assert buf[b..c][..n] == buf[b..b + n];
  }

  /** `simpleOSD_obj_write`: lay buf[start..start + len] at off, whatever counts the kernel hands back. */
  method ObjWrite(k: Kernel, obj: ObjectAttr, buf: seq<byte>, start: nat, len: nat, off: nat)
    returns (r: Outcome, ghost done: nat)
    requires k.fs.Valid() && start + len <= |buf|
    modifies k, obj
    ensures k.fs.Valid() && r != Stuck && done <= len && (r == Ok ==> done == len)
    ensures done > 0 ==> old(obj.fileFd) in old(k.fs.fds)
    ensures var after := old(k.fs).Written(old(obj.fileFd), off, buf[start..start + done]);
            k.fs == if r == Ok then after else after.(fds := WithoutFd(old(k.fs.fds), old(obj.fileFd)))
    ensures if r == Ok then HandleKept(k, obj) else HandleReset(k, obj)
  {
    hide WriteAt;
    var left: nat, at: nat, pos: nat := len, 0, off;
    done := 0;
    while left > 0
      invariant at + left == len && pos + left == off + len && done == at
      invariant HandleKept(k, obj) && k.fs.Valid()
      invariant done > 0 ==> old(obj.fileFd) in old(k.fs.fds)
      invariant k.fs == old(k.fs).Written(old(obj.fileFd), off, buf[start..start + done])
    {
      var rest := buf[start + at..start + at + left];
      var n := k.Pwrite(obj.fileFd, rest, pos);
      if n == -1 {
        var reset := ResetCacheObject(k, obj);
        return Error, done;
      }
      SlicesJoin(buf, start, start + at, start + at + left, n);
      WrittenTwice(old(k.fs), obj.fileFd, off, buf[start..start + at], rest[..n]);
      at, left, pos := at + n, left - n, pos + n;
      done := at;
    }
    r := Ok;
  }

  /** A buffer that received `done` bytes of a file at position `from` and is otherwise as before. */
  ghost predicate Filled(before: seq<byte>, after: seq<byte>, file: seq<byte>, off: nat, from: nat, done: nat) {
    && |after| == |before|
    && forall i :: 0 <= i < |after| ==>
         after[i] == if from <= i < from + done then At(file, off + i - from) else before[i]
  }

  /** `simpleOSD_obj_read`: fill buf[start..start + len] from off. */
  method ObjRead(k: Kernel, obj: ObjectAttr, buf: array<byte>, start: nat, len: nat, off: nat)
    returns (r: Outcome, ghost done: nat)
    requires k.fs.Valid() && start + len <= buf.Length
    modifies k, obj, buf
    ensures k.fs.Valid() && done <= len && (r == Ok ==> done == len)
    ensures done > 0 || r == Stuck ==> old(obj.fileFd) in old(k.fs.fds)
    ensures done > 0 ==> off + done <= |old(k.fs).Open(old(obj.fileFd))|
    ensures Filled(old(buf[..]), buf[..], old(k.fs).Open(old(obj.fileFd)), off, start, done)
    ensures r == Stuck ==> done < len && |old(k.fs).Open(old(obj.fileFd))| <= off + done
    ensures k.fs == if r != Error then old(k.fs)
                    else old(k.fs).(fds := WithoutFd(old(k.fs.fds), old(obj.fileFd)))
    ensures if r != Error then HandleKept(k, obj) else HandleReset(k, obj)
  {
    var left: nat, at: nat, pos: nat := len, 0, off;
    done := 0;
    while left > 0
      invariant at + left == len && pos + left == off + len && done == at
      invariant HandleKept(k, obj) && k.fs == old(k.fs)
      invariant done > 0 ==> old(obj.fileFd) in old(k.fs.fds) && off + done <= |old(k.fs).Open(old(obj.fileFd))|
      invariant Filled(old(buf[..]), buf[..], old(k.fs).Open(old(obj.fileFd)), off, start, done)
    {
      var n := k.Pread(obj.fileFd, buf, start + at, left, pos);
      if n == -1 {
        var reset := ResetCacheObject(k, obj);
        return Error, done;
      }
      if n == 0 {
        return Stuck, done;
      }
      at, left, pos := at + n, left - n, pos + n;
      done := at;
    }
    r := Ok;
  }
}
