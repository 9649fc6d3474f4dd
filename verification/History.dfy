/** Whole runs of a store, judged against a flat disk. */
module History {
  import opened Arithmetic
  import opened Bytes
  import opened FileSystem
  import opened Placement
  import opened Geometry
  import opened ObjectOps
  import opened Recaching
  import opened ObjectStore

  /** A caller's read or write, or the deletion of an object's file behind the store's back. */
  datatype Request = Get(offset: nat, len: nat) | Put(offset: nat, data: seq<byte>) | Drop(index: nat)

  datatype Reply = Reply(outcome: Outcome, data: seq<byte>)

  ghost predicate InRange(c: Collection, q: Request) {
    match q
    case Get(offset, len) => offset + len < U64
    case Put(offset, data) => offset + |data| < U64
    case Drop(index) => index < c.nbObjects
  }

  /** The disk has some prefix of the data laid at offset. */
  ghost predicate PrefixLaid(disk: seq<byte>, disk': seq<byte>, offset: nat, data: seq<byte>) {
    exists done: nat :: done <= |data| && offset + done <= |disk| && disk' == Overlay(disk, offset, data[..done])
  }

  /** What one request may do to a flat disk, and what it may answer. */
  ghost predicate StepOk(c: Collection, q: Request, a: Reply, disk: seq<byte>, disk': seq<byte>)
    requires c.Valid()
  {
    match q
    case Get(offset, len) =>
      && disk' == disk
      && (a.outcome == Ok ==>
            c.Accepts(offset, len) && |a.data| == len && Holds(disk, offset, a.data))
      && (!c.Accepts(offset, len) ==> a.outcome == Error)
    case Put(offset, data) =>
      if c.Accepts(offset, |data|) then
        && PrefixLaid(disk, disk', offset, data)
        && (a.outcome == Ok ==> offset + |data| <= |disk| && disk' == Overlay(disk, offset, data))
      else disk' == disk && a.outcome == Error
    case Drop(index) =>
      && index * c.objectSize + c.objectSize <= |disk|
      && disk' == Overlay(disk, index * c.objectSize, Zeros(c.objectSize))
  }

  ghost predicate IsHistory(c: Collection, qs: seq<Request>, replies: seq<Reply>, disks: seq<seq<byte>>)
    requires c.Valid()
  {
    && |replies| <= |qs| && |disks| == |replies| + 1
    && forall i, j :: 0 <= i && j == i + 1 <= |replies| ==> StepOk(c, qs[i], replies[i], disks[i], disks[j])
  }

  ghost predicate Servable(c: Collection, q: Request)
    requires c.Valid()
  {
    match q
    case Get(offset, len) => c.Accepts(offset, len)
    case Put(offset, data) => c.Accepts(offset, |data|)
    case Drop(_) => true
  }

  /** The request has a byte in an object that has neither a node nor a file that `stat` saw. */
  ghost predicate IsDenied(fs: Fs, c: Collection, trouble: bool, q: Request)
    requires c.Valid()
  {
    match q
    case Get(offset, len) => SomeDenied(fs, c, trouble, offset, len)
    case Put(offset, data) => SomeDenied(fs, c, trouble, offset, |data|)
    case Drop(_) => false
  }

  /** Every object has a node, or a file that `stat` sees and that none of the requests deletes. */
  ghost predicate Provided(fs: Fs, c: Collection, trouble: bool, qs: seq<Request>)
    requires c.Valid()
  {
    forall i: nat :: i < c.nbObjects ==>
      HasNode(c.nodes, i) || (!trouble && c.Path(i) in fs.dir && Drop(i) !in qs)
  }

  /** A map that covers the volume provides for every object, whatever is deleted. */
  lemma CoveredIsProvided(fs: Fs, c: Collection, trouble: bool, qs: seq<Request>)
    requires c.Valid() && Covers(c.nodes, c.nbObjects)
    ensures Provided(fs, c, trouble, qs)
  {
  }

  lemma ProvidedNotDenied(fs: Fs, c: Collection, trouble: bool, qs: seq<Request>, q: Request)
    requires c.Valid() && Provided(fs, c, trouble, qs)
    ensures !IsDenied(fs, c, trouble, q)
  {
    hide Collection.Path;
    hide Spans;
  }

  /** Objects keep their files, unless deleted on request. */
  ghost predicate FilesKept(fs: Fs, fs': Fs, c: Collection, qs: seq<Request>)
    requires c.Valid()
  {
    forall i: nat :: i < c.nbObjects && c.Path(i) in fs.dir && Drop(i) !in qs ==> c.Path(i) in fs'.dir
  }

  lemma NamesKeptFiles(fs: Fs, fs': Fs, c: Collection, q: Request)
    requires c.Valid() && NamesKept(fs, fs')
    ensures FilesKept(fs, fs', c, [q])
  {
  }

  lemma DroppedFile(fs: Fs, fs': Fs, c: Collection, index: nat)
    requires c.Valid() && index < c.nbObjects && fs'.dir == fs.dir - {c.Path(index)}
    ensures FilesKept(fs, fs', c, [Drop(index)])
  {
    hide Collection.Path;
    forall i: nat | i < c.nbObjects && c.Path(i) in fs.dir && Drop(i) !in [Drop(index)] ensures c.Path(i) in fs'.dir {
      assert Drop(index) in [Drop(index)];
      if c.Path(i) == c.Path(index) {
        PathInjective(c, i, index);
      }
    }
  }

  lemma GetDenied(fs: Fs, c: Collection, trouble: bool, offset: nat, len: nat)
    requires c.Valid()
    ensures IsDenied(fs, c, trouble, Get(offset, len)) <==> SomeDenied(fs, c, trouble, offset, len)
    ensures Servable(c, Get(offset, len)) <==> c.Accepts(offset, len)
  {
  }

  /** A read into a caller's buffer. */
  method ReadInto(s: Store, buf: array<byte>, offset: nat, ghost start: map<int, Handle>)
    returns (r: Outcome, stage: Stage, breach: bool)
    requires s.Valid() && s.Coherent() && s.Accounted(start) && InRange(s.c, Get(offset, buf.Length))
    modifies s.k, s.Cache(), buf
    ensures s.Valid() && s.k.badCloses == old(s.k.badCloses)
    ensures StepOk(s.c, Get(offset, buf.Length), Reply(r, buf[..]), Disk(old(s.k.fs), s.c), Disk(s.k.fs, s.c))
    ensures SameElsewhere(old(s.k.fs), s.k.fs, s.c)
    ensures r != Stuck ==> s.Accounted(start) && s.LeftBy(stage, breach)
    ensures breach ==> r == Error && s.recache && stage.Suspect()
    ensures breach ==> Servable(s.c, Get(offset, buf.Length))
    ensures r == Error && Servable(s.c, Get(offset, buf.Length)) ==>
      || s.k.errors > old(s.k.errors)
      || IsDenied(old(s.k.fs), s.c, s.k.troubles > old(s.k.troubles), Get(offset, buf.Length))
    ensures r == Stuck ==> !Intact(old(s.k.fs), s.c)
    ensures s.k.errors >= old(s.k.errors)
    ensures s.k.errors == old(s.k.errors) && Intact(old(s.k.fs), s.c) ==> Intact(s.k.fs, s.c)
    ensures SameBytes(old(s.k.fs), s.k.fs)
    ensures s.k.troubles >= old(s.k.troubles) && FilesKept(old(s.k.fs), s.k.fs, s.c, [Get(offset, buf.Length)])
    ensures NamesKept(old(s.k.fs), s.k.fs)
  {
    assert s.c.Valid() && s.Valid() && s.Coherent() && s.Accounted(start);
    hide Store.Valid;
    hide Store.Coherent;
    hide Store.LeftBy;
    hide Store.Accounted;
    hide Collection.Valid;
    hide Collection.Path;
    hide IsObjectPath;
    hide Disk;
    hide Intact;
    hide SomeDenied;
    hide FilesKept;
    hide IsDenied;
    hide Servable;
    hide NamesKept;
    hide Pieces;
    hide ReadUpTo;
    hide Holds;
    hide WrittenUpTo;
    hide Collection.Accepts;
    hide SameBytes;
    hide SameElsewhere;
    hide StepOk;
    ghost var fs0, t := s.k.fs, Trail(0, []);
    r, stage, breach, t := s.Read(buf, offset, start);
    GetStep(s.c, offset, buf.Length, Reply(r, buf[..]), fs0, s.k.fs);
    NamesKeptFiles(fs0, s.k.fs, s.c, Get(offset, buf.Length));
    GetDenied(fs0, s.c, s.k.troubles > old(s.k.troubles), offset, buf.Length);
  }

  method ServeGet(s: Store, offset: nat, len: nat, ghost start: map<int, Handle>)
    returns (a: Reply, stage: Stage, breach: bool)
    requires s.Valid() && s.Coherent() && s.Accounted(start) && InRange(s.c, Get(offset, len))
    modifies s.k, s.Cache()
    ensures s.Valid() && s.k.badCloses == old(s.k.badCloses)
    ensures StepOk(s.c, Get(offset, len), a, Disk(old(s.k.fs), s.c), Disk(s.k.fs, s.c))
    ensures SameElsewhere(old(s.k.fs), s.k.fs, s.c)
    ensures a.outcome != Stuck ==> s.Accounted(start) && s.LeftBy(stage, breach)
    ensures breach ==> a.outcome == Error && s.recache && stage.Suspect()
    ensures breach ==> Servable(s.c, Get(offset, len))
    ensures a.outcome == Error && Servable(s.c, Get(offset, len)) ==>
      s.k.errors > old(s.k.errors) || IsDenied(old(s.k.fs), s.c, s.k.troubles > old(s.k.troubles), Get(offset, len))
    ensures a.outcome == Stuck ==> !Intact(old(s.k.fs), s.c)
    ensures s.k.errors >= old(s.k.errors)
    ensures s.k.errors == old(s.k.errors) && Intact(old(s.k.fs), s.c) ==> Intact(s.k.fs, s.c)
    ensures s.k.troubles >= old(s.k.troubles) && FilesKept(old(s.k.fs), s.k.fs, s.c, [Get(offset, len)])
  {
    hide *;
    var buf := new byte[len];
    var r;
    r, stage, breach := ReadInto(s, buf, offset, start);
    a := Reply(r, buf[..]);
  }

  method ServePut(s: Store, offset: nat, data: seq<byte>, ghost start: map<int, Handle>)
    returns (a: Reply, stage: Stage, breach: bool)
    requires s.Valid() && s.Coherent() && s.Accounted(start) && InRange(s.c, Put(offset, data))
    modifies s.k, s.Cache()
    ensures s.Valid() && s.k.badCloses == old(s.k.badCloses)
    ensures StepOk(s.c, Put(offset, data), a, Disk(old(s.k.fs), s.c), Disk(s.k.fs, s.c))
    ensures SameElsewhere(old(s.k.fs), s.k.fs, s.c)
    ensures a.outcome != Stuck ==> s.Accounted(start) && s.LeftBy(stage, breach)
    ensures breach ==> a.outcome == Error && s.recache && stage.Suspect()
    ensures breach ==> Servable(s.c, Put(offset, data))
    ensures a.outcome == Error && Servable(s.c, Put(offset, data)) ==>
      s.k.errors > old(s.k.errors) || IsDenied(old(s.k.fs), s.c, s.k.troubles > old(s.k.troubles), Put(offset, data))
    ensures a.outcome == Stuck ==> !Intact(old(s.k.fs), s.c)
    ensures s.k.errors >= old(s.k.errors)
    ensures NamesKept(old(s.k.fs), s.k.fs)
    ensures a.data == [] && a.outcome != Stuck
    ensures s.k.errors == old(s.k.errors) && Intact(old(s.k.fs), s.c) ==> Intact(s.k.fs, s.c)
    ensures s.k.troubles >= old(s.k.troubles) && FilesKept(old(s.k.fs), s.k.fs, s.c, [Put(offset, data)])
  {
    assert s.c.Valid();
    hide Store.Valid;
    hide Store.Coherent;
    hide Store.LeftBy;
    hide Store.Accounted;
    hide Collection.Valid;
    hide Collection.Path;
    hide IsObjectPath;
    hide Disk;
    hide Intact;
    hide SomeDenied;
    hide FilesKept;
    hide NamesKept;
    hide Pieces;
    hide ReadUpTo;
    hide WrittenUpTo;
    hide Collection.Accepts;
    hide SameBytes;
    hide SameElsewhere;
    hide StepOk;
    ghost var fs0, t := s.k.fs, Trail(0, []);
    var r;
    r, stage, breach, t := s.Write(data, offset, start);
    a := Reply(r, []);
    PutStep(s.c, offset, data, t.done, a, fs0, s.k.fs);
    NamesKeptFiles(fs0, s.k.fs, s.c, Put(offset, data));
  }

  /** One request, served by the store. */
  method Serve(s: Store, q: Request, ghost start: map<int, Handle>)
    returns (a: Reply, stage: Stage, breach: bool)
    requires s.Valid() && s.Coherent() && s.Accounted(start) && InRange(s.c, q)
    modifies s.k, s.Cache()
    ensures s.Valid() && s.k.badCloses == old(s.k.badCloses)
    ensures StepOk(s.c, q, a, Disk(old(s.k.fs), s.c), Disk(s.k.fs, s.c))
    ensures SameElsewhere(old(s.k.fs), s.k.fs, s.c)
    ensures a.outcome != Stuck ==> s.Accounted(start) && s.LeftBy(stage, breach)
    ensures breach ==> a.outcome == Error && s.recache && stage.Suspect()
    ensures breach ==> Servable(s.c, q)
    ensures a.outcome == Error && Servable(s.c, q) ==>
      s.k.errors > old(s.k.errors) || IsDenied(old(s.k.fs), s.c, s.k.troubles > old(s.k.troubles), q)
    ensures a.outcome == Stuck ==> !Intact(old(s.k.fs), s.c)
    ensures s.k.errors >= old(s.k.errors)
    ensures s.k.errors == old(s.k.errors) && Intact(old(s.k.fs), s.c) ==> Intact(s.k.fs, s.c)
    ensures s.k.troubles >= old(s.k.troubles) && FilesKept(old(s.k.fs), s.k.fs, s.c, [q])
  {
    assert s.c.Valid();
    hide Store.Valid;
    hide Store.Coherent;
    hide Store.LeftBy;
    hide Store.Accounted;
    hide Disk;
    hide Intact;
    hide SomeDenied;
    hide FilesKept;
    hide IsDenied;
    hide Servable;
    hide NamesKept;
    hide SameElsewhere;
    hide StepOk;
    match q {
      case Get(offset, len) =>
        a, stage, breach := ServeGet(s, offset, len, start);
      case Put(offset, data) =>
        a, stage, breach := ServePut(s, offset, data, start);
      case Drop(index) =>
        ghost var fs0 := s.k.fs;
        s.Evict(index, start);
        a, stage, breach := Reply(Ok, []), Done, false;
        s.CoherentLeft();
        DropStep(s.c, index, a, Disk(fs0, s.c), Disk(s.k.fs, s.c));
        DroppedFile(fs0, s.k.fs, s.c, index);
    }
  }

  lemma GetStep(c: Collection, offset: nat, len: nat, a: Reply, fs: Fs, fs': Fs)
    requires c.Valid() && SameBytes(fs, fs')
    requires !c.Accepts(offset, len) ==> a.outcome == Error
    requires a.outcome == Ok ==>
      c.Accepts(offset, len) && |a.data| == len && Holds(Disk(fs, c), offset, a.data)
    ensures StepOk(c, Get(offset, len), a, Disk(fs, c), Disk(fs', c)) && SameElsewhere(fs, fs', c)
  {
    SameDisk(fs, fs', c);
    hide Disk;
    hide Collection.Path;
  }

  lemma PutStep(c: Collection, offset: nat, data: seq<byte>, done: nat, a: Reply, fs: Fs, fs': Fs)
    requires c.Valid()
    requires c.Accepts(offset, |data|) ==> done <= |data| && WrittenUpTo(fs, fs', c, offset, data, done)
    requires !c.Accepts(offset, |data|) ==> fs' == fs && a.outcome == Error
    requires a.outcome == Ok ==>
      offset + |data| <= c.Capacity() && Disk(fs', c) == Overlay(Disk(fs, c), offset, data)
    ensures StepOk(c, Put(offset, data), a, Disk(fs, c), Disk(fs', c)) && SameElsewhere(fs, fs', c)
  {
    hide Disk;
    hide Collection.Path;
  }

  lemma DropStep(c: Collection, index: nat, a: Reply, disk: seq<byte>, disk': seq<byte>)
    requires c.Valid() && index * c.objectSize + c.objectSize <= |disk|
    requires disk' == Overlay(disk, index * c.objectSize, Zeros(c.objectSize))
    ensures StepOk(c, Drop(index), a, disk, disk')
  {
  }

  /** The last reply, if any, is that of a read that never returned. */
  ghost predicate EndsStuck(replies: seq<Reply>) {
    |replies| > 0 && replies[|replies| - 1].outcome == Stuck
  }

  /** One request of a run; `clean` and `trouble` tell of the calls that failed since its start. */
  method RunStep(s: Store, q: Request, ghost qs: seq<Request>, ghost replies: seq<Reply>,
                 ghost disks: seq<seq<byte>>, ghost fs0: Fs, ghost clean: bool, ghost trouble: bool,
                 ghost start: map<int, Handle>)
    returns (a: Reply, stage: Stage, broken: bool, ghost clean': bool, ghost trouble': bool)
    requires s.Valid() && s.Coherent() && s.Accounted(start) && InRange(s.c, q)
    requires |replies| < |qs| && q == qs[|replies|]
    requires Progress(s.c, qs, replies, disks, fs0, s.k.fs, clean, trouble)
    modifies s.k, s.Cache()
    ensures s.Valid() && s.k.badCloses == old(s.k.badCloses)
    ensures s.k.errors >= old(s.k.errors) && s.k.troubles >= old(s.k.troubles)
    ensures clean' == (clean && s.k.errors == old(s.k.errors))
    ensures trouble' == (trouble || s.k.troubles > old(s.k.troubles))
    ensures Progress(s.c, qs, replies + [a], disks + [Disk(s.k.fs, s.c)], fs0, s.k.fs, clean', trouble')
    ensures a.outcome != Stuck ==> s.Accounted(start) && s.LeftBy(stage, broken)
    ensures broken ==>
      a.outcome == Error && s.recache && stage.Suspect() && (!clean' || !Provided(fs0, s.c, trouble', qs))
    ensures NoneStuck(replies + [a]) <==> NoneStuck(replies) && a.outcome != Stuck
  {
    assert s.c.Valid();
    hide Store.Valid;
    hide Store.Accounted;
    hide Store.Coherent;
    hide Store.LeftBy;
    hide Collection.Valid;
    hide Disk;
    hide Intact;
    hide FilesKept;
    hide IsDenied;
    hide Provided;
    hide StepOk;
    hide SameElsewhere;
    hide InRange;
    hide Servable;
    hide Progress;
    hide NoneStuck;
    hide Stage.Suspect;
    ghost var mid := s.k.fs;
    a, stage, broken := Serve(s, q, start);
    ghost var failing, now := s.k.errors > old(s.k.errors), s.k.troubles > old(s.k.troubles);
    clean', trouble' := clean && !failing, trouble || now;
    RunGoesOn(s.c, qs, replies, disks, a, fs0, mid, s.k.fs, clean, failing, clean', trouble, now, trouble');
  }

  /**
   * A whole run. Refused requests and failed transfers do not end it: only a read that is stuck does, and
   * a step of `osd_recache_object` that failed and left its cache slot wrong. `stage` is the step at which
   * the last request gave up, and `broken` tells whether it broke the cache.
   */
  method Run(s: Store, qs: seq<Request>, ghost start: map<int, Handle>)
    returns (replies: seq<Reply>, stage: Stage, broken: bool, ghost disks: seq<seq<byte>>)
    requires s.Valid() && s.Coherent() && s.Accounted(start)
    requires forall i :: 0 <= i < |qs| ==> InRange(s.c, qs[i])
    modifies s.k, s.Cache()
    ensures s.Valid() && s.k.badCloses == old(s.k.badCloses)
    ensures s.k.errors >= old(s.k.errors) && s.k.troubles >= old(s.k.troubles)
    ensures IsHistory(s.c, qs, replies, disks)
    ensures disks[0] == Disk(old(s.k.fs), s.c) && disks[|replies|] == Disk(s.k.fs, s.c)
    ensures SameElsewhere(old(s.k.fs), s.k.fs, s.c)
    ensures !EndsStuck(replies) ==> NoneStuck(replies) && s.Accounted(start) && s.LeftBy(stage, broken)
    ensures |replies| < |qs| ==> EndsStuck(replies) || broken
    ensures broken ==> |replies| > 0 && replies[|replies| - 1].outcome == Error && s.recache && stage.Suspect()
    ensures broken ==>
      s.k.errors > old(s.k.errors) || !Provided(old(s.k.fs), s.c, s.k.troubles > old(s.k.troubles), qs)
    ensures s.k.errors == old(s.k.errors) && Intact(old(s.k.fs), s.c)
            && Provided(old(s.k.fs), s.c, s.k.troubles > old(s.k.troubles), qs) ==>
      AllServed(s.c, qs, replies) && NoneStuck(replies)
  {
    assert s.c.Valid();
    hide Store.Valid;
    hide Store.Accounted;
    hide Collection.Valid;
    hide Disk;
    hide Intact;
    hide Provided;
    hide SameElsewhere;
    hide InRange;
    replies, disks := [], [Disk(s.k.fs, s.c)];
    ghost var fs0, clean, trouble := s.k.fs, true, false;
    RunStarts(s.c, qs, fs0);
    hide Progress;
    hide IsHistory;
    hide AllServed;
    hide NoneStuck;
    hide Stage.Suspect;
    hide Store.Coherent;
    stage, broken := Done, false;
    s.CoherentLeft();
    for i := 0 to |qs|
      invariant s.Valid() && s.Coherent() && s.Accounted(start) && s.LeftBy(stage, false) && !broken
      invariant |replies| == i
      invariant Progress(s.c, qs, replies, disks, fs0, s.k.fs, clean, trouble)
      invariant clean == (s.k.errors == old(s.k.errors)) && trouble == (s.k.troubles > old(s.k.troubles))
      invariant s.k.troubles >= old(s.k.troubles)
      invariant NoneStuck(replies) && !EndsStuck(replies)
      invariant s.k.errors >= old(s.k.errors) && s.k.badCloses == old(s.k.badCloses)
    {
      var a;
      a, stage, broken, clean, trouble := RunStep(s, qs[i], qs, replies, disks, fs0, clean, trouble, start);
      replies := replies + [a];
      disks := disks + [Disk(s.k.fs, s.c)];
      if a.outcome == Stuck || broken {
        break;
      }
    }
    RunEnds(s.c, qs, replies, disks, fs0, s.k.fs, clean, trouble);
  }

  /** What a run has shown so far; `clean` while no call has failed, `trouble` once `stat` was in trouble. */
  ghost predicate Progress(c: Collection, qs: seq<Request>, replies: seq<Reply>, disks: seq<seq<byte>>,
                           fs: Fs, fs': Fs, clean: bool, trouble: bool)
    requires c.Valid()
  {
    && IsHistory(c, qs, replies, disks)
    && disks[0] == Disk(fs, c) && disks[|replies|] == Disk(fs', c) && SameElsewhere(fs, fs', c)
    && FilesKept(fs, fs', c, qs)
    && (clean && Provided(fs, c, trouble, qs) && Intact(fs, c) ==>
          Intact(fs', c) && AllServed(c, qs, replies) && NoneStuck(replies))
  }

  /**
   * A run and the closing of the collection, cached or not: of the handles that `osd_recache_object`
   * opened above the reserved numbers none is left open, and none was closed twice. What stays open is
   * what was open before, the handles that fetches leave behind, and the reserved numbers.
   */
  method RunAndFree(s: Store, qs: seq<Request>)
    returns (replies: seq<Reply>, stage: Stage, broken: bool, freed: bool)
    requires s.Valid() && s.Coherent() && s.Accounted(s.k.fs.fds)
    requires forall i :: 0 <= i < |qs| ==> InRange(s.c, qs[i])
    modifies s.k, s.Cache()
    ensures s.k.badCloses == old(s.k.badCloses) && s.k.errors >= old(s.k.errors)
    ensures |replies| <= |qs| && (|replies| < |qs| ==> EndsStuck(replies) || broken)
    ensures broken ==>
      && s.recache && stage.Suspect()
      && (s.k.errors > old(s.k.errors) || !Provided(old(s.k.fs), s.c, s.k.troubles > old(s.k.troubles), qs))
    ensures freed ==>
      && (forall fd :: fd in old(s.k.fs.fds) ==> fd in s.k.fs.fds && s.k.fs.fds[fd] == old(s.k.fs.fds)[fd])
      && (forall fd :: fd in s.k.fs.fds && fd !in old(s.k.fs.fds) ==>
            s.k.fs.fds[fd].creating || fd <= RESERVED_FDS)
    ensures !freed ==> EndsStuck(replies) || (broken && stage == CloseFailed) || s.k.errors > old(s.k.errors)
    ensures s.k.errors == old(s.k.errors) && old(Intact(s.k.fs, s.c))
            && Provided(old(s.k.fs), s.c, s.k.troubles > old(s.k.troubles), qs) ==>
      freed && |replies| == |qs| && AllServed(s.c, qs, replies)
  {
    assert s.c.Valid();
    hide Store.Valid;
    hide Store.Coherent;
    hide Store.Accounted;
    hide Disk;
    hide Intact;
    hide SomeDenied;
    hide Provided;
    hide NoneStuck;
    hide Store.LeftBy;
    hide NamesKept;
    hide IsHistory;
    hide SameElsewhere;
    hide InRange;
    hide Servable;
    ghost var disks;
    ghost var start := s.k.fs.fds;
    replies, stage, broken, disks := Run(s, qs, start);
    if (|replies| > 0 && replies[|replies| - 1].outcome == Stuck) || (broken && stage == CloseFailed) {
      return replies, stage, broken, false;
    }
    s.LeftClosable(stage, broken);
    freed := s.FreeCollection(start);
  }

  ghost predicate NoneStuck(replies: seq<Reply>) {
    forall i :: 0 <= i < |replies| ==> replies[i].outcome != Stuck
  }

  /** Every request in the store's range was answered with success. */
  ghost predicate AllServed(c: Collection, qs: seq<Request>, replies: seq<Reply>)
    requires c.Valid()
  {
    |replies| <= |qs| && forall i :: 0 <= i < |replies| && Servable(c, qs[i]) ==> replies[i].outcome == Ok
  }

  lemma RunStarts(c: Collection, qs: seq<Request>, fs: Fs)
    requires c.Valid()
    ensures Progress(c, qs, [], [Disk(fs, c)], fs, fs, true, false) && NoneStuck([])
  {
  }

  lemma RunEnds(c: Collection, qs: seq<Request>, replies: seq<Reply>, disks: seq<seq<byte>>,
                fs: Fs, fs': Fs, clean: bool, trouble: bool)
    requires c.Valid() && Progress(c, qs, replies, disks, fs, fs', clean, trouble)
    ensures IsHistory(c, qs, replies, disks)
    ensures disks[0] == Disk(fs, c) && disks[|replies|] == Disk(fs', c) && SameElsewhere(fs, fs', c)
    ensures clean && Provided(fs, c, trouble, qs) && Intact(fs, c) ==>
      AllServed(c, qs, replies) && NoneStuck(replies)
  {
  }

  lemma RunGoesOn(c: Collection, qs: seq<Request>, replies: seq<Reply>, disks: seq<seq<byte>>, a: Reply,
                  fs: Fs, mid: Fs, fs': Fs, clean: bool, failing: bool, clean': bool,
                  before: bool, now: bool, ever: bool)
    requires c.Valid() && |replies| < |qs| && Progress(c, qs, replies, disks, fs, mid, clean, before)
    requires (clean' ==> clean && !failing) && (before || now ==> ever)
    requires StepOk(c, qs[|replies|], a, Disk(mid, c), Disk(fs', c)) && SameElsewhere(mid, fs', c)
    requires FilesKept(mid, fs', c, [qs[|replies|]])
    requires a.outcome == Stuck ==> !Intact(mid, c)
    requires !failing && Intact(mid, c) ==> Intact(fs', c)
    requires a.outcome == Error && Servable(c, qs[|replies|]) ==> failing || IsDenied(mid, c, now, qs[|replies|])
    ensures Progress(c, qs, replies + [a], disks + [Disk(fs', c)], fs, fs', clean', ever)
    ensures a.outcome == Error && Servable(c, qs[|replies|]) && !failing ==> !Provided(fs, c, ever, qs)
    ensures NoneStuck(replies + [a]) <==> NoneStuck(replies) && a.outcome != Stuck
  {
    hide StepOk;
    hide Servable;
    hide Disk;
    hide Intact;
    SameElsewhereGoesOn(fs, mid, fs', c);
    hide SameElsewhere;
    FilesKeptOn(fs, mid, fs', c, qs, qs[|replies|]);
    if Provided(fs, c, ever, qs) {
      ProvidedOn(fs, mid, c, before, now, ever, qs);
      ProvidedNotDenied(mid, c, now, qs, qs[|replies|]);
    }
    hide Provided;
    hide FilesKept;
    hide IsDenied;
    var r := replies + [a];
    assert r[|replies|] == a && forall i :: 0 <= i < |replies| ==> r[i] == replies[i];
  }

  lemma FilesKeptOn(fs: Fs, mid: Fs, fs': Fs, c: Collection, qs: seq<Request>, q: Request)
    requires c.Valid() && q in qs && FilesKept(fs, mid, c, qs) && FilesKept(mid, fs', c, [q])
    ensures FilesKept(fs, fs', c, qs)
  {
    hide Collection.Path;
  }

  lemma ProvidedOn(fs: Fs, mid: Fs, c: Collection, before: bool, now: bool, ever: bool, qs: seq<Request>)
    requires c.Valid() && (before || now ==> ever) && FilesKept(fs, mid, c, qs) && Provided(fs, c, ever, qs)
    ensures Provided(fs, c, before, qs) && Provided(mid, c, now, qs)
  {
    hide Collection.Path;
  }

  lemma SameElsewhereGoesOn(fs: Fs, mid: Fs, fs': Fs, c: Collection)
    requires c.Valid() && SameElsewhere(fs, mid, c) && SameElsewhere(mid, fs', c)
    ensures SameElsewhere(fs, fs', c)
  {
    hide IsObjectPath;
  }

  // ---------- what a history means to its reader ----------

  ghost predicate Touches(c: Collection, q: Request, p: nat) {
    match q
    case Get(_, _) => false
    case Put(offset, data) => offset <= p < offset + |data|
    case Drop(index) => index * c.objectSize <= p < index * c.objectSize + c.objectSize
  }

  lemma StepKeepsByte(c: Collection, q: Request, a: Reply, disk: seq<byte>, disk': seq<byte>, p: nat)
    requires c.Valid() && StepOk(c, q, a, disk, disk') && p < |disk| && !Touches(c, q, p)
    ensures |disk'| == |disk| && disk'[p] == disk[p]
  {
  }

  lemma {:induction false} UntouchedByte(
    c: Collection, qs: seq<Request>, replies: seq<Reply>, disks: seq<seq<byte>>, i: nat, j: nat, p: nat)
    requires c.Valid() && IsHistory(c, qs, replies, disks) && i <= j <= |replies| && p < |disks[i]|
    requires forall m :: i <= m < j ==> !Touches(c, qs[m], p)
    ensures p < |disks[j]| && disks[j][p] == disks[i][p]
  {
    if i < j {
      UntouchedByte(c, qs, replies, disks, i, j - 1, p);
      assert StepOk(c, qs[j - 1], replies[j - 1], disks[j - 1], disks[j]);
      StepKeepsByte(c, qs[j - 1], replies[j - 1], disks[j - 1], disks[j], p);
    }
  }

  lemma WrittenByte(c: Collection, q: Request, a: Reply, disk: seq<byte>, disk': seq<byte>, p: nat)
    requires c.Valid() && StepOk(c, q, a, disk, disk') && q.Put? && a.outcome == Ok && Touches(c, q, p)
    ensures p < |disk'| && disk'[p] == q.data[p - q.offset]
  {
  }

  lemma DroppedByte(c: Collection, q: Request, a: Reply, disk: seq<byte>, disk': seq<byte>, p: nat)
    requires c.Valid() && StepOk(c, q, a, disk, disk') && q.Drop? && Touches(c, q, p)
    ensures p < |disk'| && disk'[p] == 0
  {
  }

  lemma ReadByte(c: Collection, q: Request, a: Reply, disk: seq<byte>, disk': seq<byte>, p: nat)
    requires c.Valid() && StepOk(c, q, a, disk, disk') && q.Get? && a.outcome == Ok
    requires q.offset <= p < q.offset + q.len
    ensures |a.data| == q.len && p < |disk| && a.data[p - q.offset] == disk[p]
  {
  }

  /**
   * In every run, a successful read returns for each byte what the last successful write to it wrote,
   * however many reads, refused requests and requests elsewhere, failed ones included, came between.
   */
  lemma ReadSeesLastWrite(
    c: Collection, qs: seq<Request>, replies: seq<Reply>, disks: seq<seq<byte>>, w: nat, g: nat, p: nat)
    requires c.Valid() && IsHistory(c, qs, replies, disks) && w < g < |replies|
    requires qs[w].Put? && replies[w].outcome == Ok && Touches(c, qs[w], p)
    requires qs[g].Get? && replies[g].outcome == Ok && qs[g].offset <= p < qs[g].offset + qs[g].len
    requires forall m :: w < m < g ==> !Touches(c, qs[m], p)
    ensures |replies[g].data| == qs[g].len
    ensures replies[g].data[p - qs[g].offset] == qs[w].data[p - qs[w].offset]
  {
    hide StepOk;
    WrittenByte(c, qs[w], replies[w], disks[w], disks[w + 1], p);
    UntouchedByte(c, qs, replies, disks, w + 1, g, p);
    ReadByte(c, qs[g], replies[g], disks[g], disks[g + 1], p);
  }

  /** After a deletion, and until the next write, an object's bytes read as zero. */
  lemma DroppedObjectReadsZero(
    c: Collection, qs: seq<Request>, replies: seq<Reply>, disks: seq<seq<byte>>, d: nat, g: nat, p: nat)
    requires c.Valid() && IsHistory(c, qs, replies, disks) && d < g < |replies|
    requires qs[d].Drop? && Touches(c, qs[d], p)
    requires qs[g].Get? && replies[g].outcome == Ok && qs[g].offset <= p < qs[g].offset + qs[g].len
    requires forall m :: d < m < g ==> !Touches(c, qs[m], p)
    ensures |replies[g].data| == qs[g].len && replies[g].data[p - qs[g].offset] == 0
  {
    hide StepOk;
    DroppedByte(c, qs[d], replies[d], disks[d], disks[d + 1], p);
    UntouchedByte(c, qs, replies, disks, d + 1, g, p);
    ReadByte(c, qs[g], replies[g], disks[g], disks[g + 1], p);
  }

  /**
   * Two stores that start from the same disk and serve the same requests, one with the handle cache and
   * one without: as long as both could serve every write in range, and whatever reads failed in either,
   * their disks are the same, and so are the answers to every read that succeeded in both.
   */
  lemma {:induction false} VariantsAgree(
    c: Collection, qs: seq<Request>, a: seq<Reply>, b: seq<Reply>, cs: seq<seq<byte>>, bs: seq<seq<byte>>, n: nat)
    requires c.Valid() && IsHistory(c, qs, a, cs) && IsHistory(c, qs, b, bs) && cs[0] == bs[0]
    requires n <= |a| && n <= |b|
    requires forall i :: 0 <= i < n && qs[i].Put? && Servable(c, qs[i]) ==> a[i].outcome == Ok && b[i].outcome == Ok
    ensures cs[n] == bs[n]
    ensures forall i :: 0 <= i < n && qs[i].Get? && a[i].outcome == Ok && b[i].outcome == Ok ==> a[i].data == b[i].data
  {
    if n > 0 {
      VariantsAgree(c, qs, a, b, cs, bs, n - 1);
      assert StepOk(c, qs[n - 1], a[n - 1], cs[n - 1], cs[n]) && StepOk(c, qs[n - 1], b[n - 1], bs[n - 1], bs[n]);
    }
  }
}
