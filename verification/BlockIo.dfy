/** Reads and writes of logical units: the lookup, the unformatted-disk flag, and whole runs over many units. */
module BlockIo {
  import opened Bytes
  import opened FileSystem
  import opened Placement
  import opened Geometry
  import opened ObjectOps
  import opened Recaching
  import opened ObjectStore
  import opened History
  import opened LunTable

  /** Object size 0, which reads and writes pass over with success, or a geometry the store can serve. */
  predicate InModel(c: Collection) {
    c.objectSize == 0 || c.Valid()
  }

  /** An index a caller may pass, of a unit in use or not. */
  ghost predicate Callable(t: Table, i: nat)
    reads t, t.k, t.luns
  {
    t.Valid() && i < NB_MAX_LUN && (i < |t.luns| ==> InModel(t.luns[i].collection))
  }

  /** The flat disk of a unit. */
  ghost function UnitDisk(t: Table, i: nat): seq<byte>
    requires t.Opened(i)
    reads t, t.k, t.luns
  {
    Disk(t.k.fs, t.luns[i].store.c)
  }

  /**
   * `simpleOSD_blk_read`: a unit without a file system answers without touching the buffer, and so does one
   * whose collection has no object size.
   */
  method BlkRead(t: Table, i: nat, buf: array<byte>, offset: nat) returns (r: Outcome)
    requires Callable(t, i) && offset + buf.Length < U64
    modifies t.k, buf
    ensures t.Valid() && SameBytes(old(t.k.fs), t.k.fs)
    ensures i >= |t.luns| ==> r == Error && buf[..] == old(buf[..]) && t.k.fs == old(t.k.fs)
    ensures i < |t.luns| && (!t.luns[i].isFsDone || t.luns[i].collection.objectSize == 0) ==>
      r == Ok && buf[..] == old(buf[..]) && t.k.fs == old(t.k.fs)
    ensures t.Opened(i) && t.luns[i].isFsDone ==>
      && StepOk(t.luns[i].store.c, Get(offset, buf.Length), Reply(r, buf[..]), old(UnitDisk(t, i)), UnitDisk(t, i))
      && (r == Stuck ==> !Intact(old(t.k.fs), t.luns[i].store.c))
      && (r == Error && t.luns[i].store.c.Accepts(offset, buf.Length) ==>
            || t.k.errors > old(t.k.errors)
            || SomeDenied(old(t.k.fs), t.luns[i].store.c, t.k.troubles > old(t.k.troubles), offset, buf.Length))
    ensures t.k.errors >= old(t.k.errors) && t.k.troubles >= old(t.k.troubles) && NamesKept(old(t.k.fs), t.k.fs)
    ensures t.Opened(i) && t.k.errors == old(t.k.errors) && Intact(old(t.k.fs), t.luns[i].store.c) ==>
      Intact(t.k.fs, t.luns[i].store.c)
  {
    hide Disk;
    hide Intact;
    hide StepOk;
    hide SomeDenied;
    hide Collection.Accepts;
    hide Store.LeftBy;
    assert |t.words| == NB_MAX_LUN && (t.words[i] != 0 <==> i < |t.luns|);
    hide SlotsOk;
    if t.words[i] == 0 {
      return Error;
    }
    var lun := t.luns[i];
    if !lun.isFsDone {
      return Ok;
    }
    if lun.store == null {
      return Ok;
    }
    var stage, breach;
    r, stage, breach := ReadInto(lun.store, buf, offset, t.k.fs.fds);
  }

  /** What a unit's write through its store does. */
  twostate predicate PutOnUnit(t: Table, i: nat, buf: seq<byte>, offset: nat, r: Outcome)
    requires old(t.Opened(i)) && t.Opened(i)
    reads t, t.k, t.luns
  {
    var c := t.luns[i].store.c;
    && StepOk(c, Put(offset, buf), Reply(r, []), old(UnitDisk(t, i)), UnitDisk(t, i))
    && SameElsewhere(old(t.k.fs), t.k.fs, c)
    && (r == Error && c.Accepts(offset, |buf|) ==>
          t.k.errors > old(t.k.errors) || SomeDenied(old(t.k.fs), c, t.k.troubles > old(t.k.troubles), offset, |buf|))
    && (t.k.errors == old(t.k.errors) && Intact(old(t.k.fs), c) ==> Intact(t.k.fs, c))
  }

  method PutThrough(t: Table, i: nat, buf: seq<byte>, offset: nat) returns (r: Outcome)
    requires t.Opened(i) && offset + |buf| < U64
    modifies t.k
    ensures t.Opened(i) && r != Stuck && PutOnUnit(t, i, buf, offset, r)
    ensures t.k.errors >= old(t.k.errors) && t.k.troubles >= old(t.k.troubles) && NamesKept(old(t.k.fs), t.k.fs)
  {
    hide Disk;
    hide Intact;
    hide SomeDenied;
    hide StepOk;
    hide SameElsewhere;
    hide Collection.Accepts;
    hide SlotsOk;
    var a, stage, breach := ServePut(t.luns[i].store, offset, buf, t.k.fs.fds);
    r := a.outcome;
  }

  /** `simpleOSD_blk_write`: the first write marks the unit as having a file system, even if the write fails. */
  method BlkWrite(t: Table, i: nat, buf: seq<byte>, offset: nat) returns (r: Outcome)
    requires Callable(t, i) && offset + |buf| < U64
    modifies t.k, t.luns
    ensures t.Valid() && r != Stuck
    ensures i >= |t.luns| ==> r == Error && t.k.fs == old(t.k.fs)
    ensures forall j :: 0 <= j < |t.luns| ==>
      && t.luns[j].store == old(t.luns[j].store) && t.luns[j].collection == old(t.luns[j].collection)
      && t.luns[j].isFsDone == (old(t.luns[j].isFsDone) || j == i)
    ensures i < |t.luns| && t.luns[i].collection.objectSize == 0 ==> r == Ok && t.k.fs == old(t.k.fs)
    ensures old(t.Opened(i)) ==> t.Opened(i) && PutOnUnit(t, i, buf, offset, r)
    ensures t.k.errors >= old(t.k.errors) && t.k.troubles >= old(t.k.troubles) && NamesKept(old(t.k.fs), t.k.fs)
  {
    assert |t.words| == NB_MAX_LUN && (t.words[i] != 0 <==> i < |t.luns|);
    hide SlotsOk;
    hide Disk;
    hide Intact;
    hide SomeDenied;
    hide StepOk;
    hide SameElsewhere;
    hide Collection.Accepts;
    if t.words[i] == 0 {
      return Error;
    }
    var lun := t.luns[i];
    if !lun.isFsDone {
      lun.isFsDone := true;
    }
    if lun.store == null {
      return Ok;
    }
    assert UnitDisk(t, i) == old(UnitDisk(t, i));
    r := PutThrough(t, i, buf, offset);
  }

  // ---------- runs over many units ----------

  datatype Command =
    | ReadUnit(unit: nat, offset: nat, len: nat)
    | WriteUnit(unit: nat, offset: nat, data: seq<byte>)
    | OpenUnit(path: string, oflag: int, info: Metadata, address: bv64)
    | CloseUnit(unit: nat)

  /** What a command answers; `index` is the slot an open claimed. */
  datatype Answer = Answer(reply: Reply, index: nat)

  ghost predicate CommandOk(root: string, q: Command) {
    match q
    case ReadUnit(unit, offset, len) => unit < NB_MAX_LUN && offset + len < U64
    case WriteUnit(unit, offset, data) => unit < NB_MAX_LUN && offset + |data| < U64
    case OpenUnit(path, _, info, address) =>
      Taggable(address) && (info.Volume? ==> InModel(info.AsCollection(root, path)))
    case CloseUnit(unit) => unit < NB_MAX_LUN
  }

  ghost predicate AllInModel(units: seq<Unit>) {
    forall i :: 0 <= i < |units| ==> InModel(units[i].c)
  }

  /** What one command does to the units. */
  ghost predicate UnitsStep(root: string, q: Command, a: Answer, units: seq<Unit>, units': seq<Unit>) {
    match q
    case WriteUnit(unit, _, _) =>
      units' == if unit < |units| then units[unit := units[unit].(isFs := true)] else units
    case OpenUnit(path, _, info, _) =>
      if a.index == NB_MAX_LUN then units' == units && a.reply.outcome == Error
      else
        && OpenedAt(units, units', a.index, root, path, info)
        && a.reply.outcome == if info.Volume? && info.objectSize > 0 then Ok else Error
    case _ => units' == units
  }

  /** The unit shows the volume under watch, with its geometry. */
  predicate Shows(units: seq<Unit>, unit: nat, watch: Collection) {
    unit < |units| && units[unit].c == watch
  }

  /** A write that may reach a volume's files. */
  predicate WritesVolume(q: Command, units: seq<Unit>, name: string) {
    q.WriteUnit? && q.unit < |units| && units[q.unit].c.name == name
  }

  /** What one command does to the disk of the volume under watch, and what it answers if it is for it. */
  ghost predicate DiskStep(watch: Collection, q: Command, a: Answer, units: seq<Unit>,
                           disk: seq<byte>, disk': seq<byte>)
    requires watch.Valid()
  {
    && (!WritesVolume(q, units, watch.name) ==> disk' == disk)
    && match q
       case ReadUnit(unit, offset, len) =>
         && (unit >= |units| ==> a.reply.outcome == Error)
         && (unit < |units| && (!units[unit].isFs || units[unit].c.objectSize == 0) ==>
               a.reply == Reply(Ok, Zeros(len)))
         && (Shows(units, unit, watch) && units[unit].isFs ==> StepOk(watch, Get(offset, len), a.reply, disk, disk'))
       case WriteUnit(unit, offset, data) =>
         && (unit >= |units| ==> a.reply.outcome == Error)
         && (Shows(units, unit, watch) ==> StepOk(watch, Put(offset, data), a.reply, disk, disk'))
       case _ => true
  }

  method RunRead(t: Table, unit: nat, offset: nat, len: nat, ghost watch: Collection) returns (a: Answer)
    requires t.Valid() && AllInModel(t.Units()) && CommandOk(t.root, ReadUnit(unit, offset, len)) && watch.Valid()
    modifies t.k
    ensures t.Valid()
    ensures DiskStep(watch, ReadUnit(unit, offset, len), a, t.Units(), Disk(old(t.k.fs), watch), Disk(t.k.fs, watch))
  {
    hide Disk;
    hide StepOk;
    hide SameBytes;
    hide SomeDenied;
    hide Intact;
    hide Collection.Accepts;
    hide SlotsOk;
    ghost var fs0 := t.k.fs;
    assert unit < |t.luns| ==> t.Units()[unit] == t.luns[unit].AsUnit();
    var buf := new byte[len](_ => 0);
    assert buf[..] == Zeros(len);
    var r := BlkRead(t, unit, buf, offset);
    a := Answer(Reply(r, buf[..]), 0);
    SameDisk(fs0, t.k.fs, watch);
  }

  method RunWrite(t: Table, unit: nat, offset: nat, data: seq<byte>, ghost watch: Collection) returns (a: Answer)
    requires t.Valid() && AllInModel(t.Units()) && CommandOk(t.root, WriteUnit(unit, offset, data))
    requires watch.Valid() && watch.root == t.root
    modifies t.k, t.luns
    ensures t.Valid() && UnitsStep(t.root, WriteUnit(unit, offset, data), a, old(t.Units()), t.Units())
    ensures var q := WriteUnit(unit, offset, data);
            DiskStep(watch, q, a, old(t.Units()), Disk(old(t.k.fs), watch), Disk(t.k.fs, watch))
  {
    hide Disk;
    hide StepOk;
    hide SameElsewhere;
    hide SomeDenied;
    hide Intact;
    hide Collection.Accepts;
    hide SlotsOk;
    ghost var fs0, units := t.k.fs, t.Units();
    assert unit < |t.luns| ==> units[unit] == t.luns[unit].AsUnit();
    var r := BlkWrite(t, unit, data, offset);
    a := Answer(Reply(r, []), 0);
    if t.Opened(unit) && t.luns[unit].collection.name != watch.name {
      VolumesApart(fs0, t.k.fs, t.luns[unit].collection, watch);
    }
  }

  method RunOpen(t: Table, path: string, oflag: int, info: Metadata, address: bv64) returns (a: Answer)
    requires t.Valid() && AllInModel(t.Units()) && CommandOk(t.root, OpenUnit(path, oflag, info, address))
    requires address !in t.addresses
    modifies t, t.luns
    ensures t.Valid() && AllInModel(t.Units()) && t.k.fs == old(t.k.fs)
    ensures UnitsStep(t.root, OpenUnit(path, oflag, info, address), a, old(t.Units()), t.Units())
    ensures t.addresses == old(t.addresses) || t.addresses == old(t.addresses) + [address]
    ensures old(t.luns) <= t.luns && forall i :: |old(t.luns)| <= i < |t.luns| ==> fresh(t.luns[i])
  {
    var ok, size, blockSize, index := t.Open(path, oflag, info, address);
    a := Answer(Reply(if ok then Ok else Error, []), index);
  }

  /** One command; a close must be of a slot that has memory. */
  method RunCommand(t: Table, q: Command, ghost watch: Collection) returns (a: Answer)
    requires t.Valid() && AllInModel(t.Units()) && CommandOk(t.root, q)
    requires q.OpenUnit? ==> q.address !in t.addresses
    requires q.CloseUnit? ==> q.unit < |t.luns|
    requires watch.Valid() && watch.root == t.root
    modifies t, t.k, t.luns
    ensures t.Valid() && AllInModel(t.Units())
    ensures UnitsStep(t.root, q, a, old(t.Units()), t.Units())
    ensures DiskStep(watch, q, a, old(t.Units()), Disk(old(t.k.fs), watch), Disk(t.k.fs, watch))
    ensures t.addresses == old(t.addresses) || (q.OpenUnit? && t.addresses == old(t.addresses) + [q.address])
    ensures old(t.luns) <= t.luns && forall i :: |old(t.luns)| <= i < |t.luns| ==> fresh(t.luns[i])
  {
    hide Table.Valid;
    hide Table.Units;
    hide Disk;
    hide InModel;
    hide OpenedAt;
    hide Taggable;
    match q {
      case ReadUnit(unit, offset, len) =>
        a := RunRead(t, unit, offset, len, watch);
      case WriteUnit(unit, offset, data) =>
        a := RunWrite(t, unit, offset, data, watch);
      case OpenUnit(path, oflag, info, address) =>
        a := RunOpen(t, path, oflag, info, address);
      case CloseUnit(unit) =>
        var ok := t.Close(unit);
        a := Answer(Reply(Ok, []), unit);
    }
  }

  /** A run, with the units and the disk under watch before each command and at the end. */
  ghost predicate IsTrace(root: string, cmds: seq<Command>, answers: seq<Answer>, units: seq<seq<Unit>>,
                          watch: Collection, disks: seq<seq<byte>>)
    requires watch.Valid()
  {
    && |answers| <= |cmds| && |units| == |disks| == |answers| + 1
    && forall i, j :: 0 <= i && j == i + 1 <= |answers| ==>
         && UnitsStep(root, cmds[i], answers[i], units[i], units[j])
         && DiskStep(watch, cmds[i], answers[i], units[i], disks[i], disks[j])
  }

  /** `malloc` never returns an address that is in use, and memory of a unit is never freed. */
  ghost predicate AddressesOk(cmds: seq<Command>, from: nat, addresses: seq<bv64>) {
    && (forall m :: from <= m < |cmds| && cmds[m].OpenUnit? ==> cmds[m].address !in addresses)
    && (forall m, n :: from <= m < n < |cmds| && cmds[m].OpenUnit? && cmds[n].OpenUnit? ==>
          cmds[m].address != cmds[n].address)
  }

  /**
   * A run of any commands on any units. It ends early only with a read that is stuck, or before a close of a
   * slot that never had memory, which the code does not survive.
   */
  method RunCommands(t: Table, cmds: seq<Command>, ghost watch: Collection)
    returns (answers: seq<Answer>, ghost units: seq<seq<Unit>>, ghost disks: seq<seq<byte>>)
    requires t.Valid() && AllInModel(t.Units()) && AddressesOk(cmds, 0, t.addresses)
    requires forall m :: 0 <= m < |cmds| ==> CommandOk(t.root, cmds[m])
    requires watch.Valid() && watch.root == t.root
    modifies t, t.k, t.luns
    ensures t.Valid()
    ensures IsTrace(t.root, cmds, answers, units, watch, disks)
    ensures units[0] == old(t.Units()) && units[|answers|] == t.Units()
    ensures disks[0] == Disk(old(t.k.fs), watch) && disks[|answers|] == Disk(t.k.fs, watch)
    ensures |answers| < |cmds| ==>
      || (|answers| > 0 && answers[|answers| - 1].reply.outcome == Stuck)
      || (cmds[|answers|].CloseUnit? && cmds[|answers|].unit >= |t.Units()|)
  {
    hide Disk;
    hide UnitsStep;
    hide DiskStep;
    hide AllInModel;
    hide CommandOk;
    answers, units, disks := [], [t.Units()], [Disk(t.k.fs, watch)];
    hide Table.Valid;
    ghost var luns := t.luns;
    while |answers| < |cmds|
      invariant t.Valid() && AllInModel(t.Units())
      invariant luns <= t.luns && forall i :: |luns| <= i < |t.luns| ==> fresh(t.luns[i])
      invariant |answers| <= |cmds| && AddressesOk(cmds, |answers|, t.addresses)
      invariant IsTrace(t.root, cmds, answers, units, watch, disks)
      invariant units[0] == old(t.Units()) && units[|answers|] == t.Units()
      invariant disks[0] == Disk(old(t.k.fs), watch) && disks[|answers|] == Disk(t.k.fs, watch)
    {
      var q := cmds[|answers|];
      if q.CloseUnit? && q.unit >= |t.luns| {
        return;
      }
      var a := RunCommand(t, q, watch);
      TraceGoesOn(t.root, cmds, answers, units, watch, disks, a, t.Units(), Disk(t.k.fs, watch));
      answers, units, disks := answers + [a], units + [t.Units()], disks + [Disk(t.k.fs, watch)];
      if a.reply.outcome == Stuck {
        return;
      }
    }
  }

  lemma TraceGoesOn(root: string, cmds: seq<Command>, answers: seq<Answer>, units: seq<seq<Unit>>, watch: Collection,
                    disks: seq<seq<byte>>, a: Answer, now: seq<Unit>, disk: seq<byte>)
    requires watch.Valid() && |answers| < |cmds| && IsTrace(root, cmds, answers, units, watch, disks)
    requires UnitsStep(root, cmds[|answers|], a, units[|answers|], now)
    requires DiskStep(watch, cmds[|answers|], a, units[|answers|], disks[|answers|], disk)
    ensures IsTrace(root, cmds, answers + [a], units + [now], watch, disks + [disk])
  {
    hide UnitsStep;
    hide DiskStep;
  }

  // ---------- what a run means to the users of its units ----------

  /** Isolation: a volume keeps its disk while no write goes to a unit that then bears its name. */
  lemma {:induction false} VolumeKept(root: string, cmds: seq<Command>, answers: seq<Answer>, units: seq<seq<Unit>>,
                                      watch: Collection, disks: seq<seq<byte>>, i: nat, j: nat)
    requires watch.Valid() && IsTrace(root, cmds, answers, units, watch, disks) && i <= j <= |answers|
    requires forall m :: i <= m < j ==> !WritesVolume(cmds[m], units[m], watch.name)
    ensures disks[j] == disks[i]
  {
    if i < j {
      VolumeKept(root, cmds, answers, units, watch, disks, i, j - 1);
      assert DiskStep(watch, cmds[j - 1], answers[j - 1], units[j - 1], disks[j - 1], disks[j]);
    }
  }

  /** Command o is the last before m whose open gave the unit a volume. */
  ghost predicate OpenedBy(cmds: seq<Command>, answers: seq<Answer>, o: nat, m: nat, unit: nat) {
    && o < m <= |answers| <= |cmds| && Gives(cmds[o], answers[o], unit)
    && forall x :: o < x < m ==> !Gives(cmds[x], answers[x], unit)
  }

  predicate Gives(q: Command, a: Answer, unit: nat) {
    q.OpenUnit? && q.info.Volume? && a.index == unit
  }

  lemma GivenStep(root: string, q: Command, a: Answer, units: seq<Unit>, units': seq<Unit>, unit: nat)
    requires UnitsStep(root, q, a, units, units') && unit < NB_MAX_LUN
    ensures Gives(q, a, unit) ==> unit < |units'| && units'[unit].c.name == q.path[..Min(|q.path|, 255)]
    ensures !Gives(q, a, unit) && unit < |units| ==> unit < |units'| && units'[unit].c == units[unit].c
  {
  }

  /** A unit bears the first 255 characters of the path it was last opened with. */
  lemma {:induction false} NamedByPath(root: string, cmds: seq<Command>, answers: seq<Answer>, units: seq<seq<Unit>>,
                                       watch: Collection, disks: seq<seq<byte>>, o: nat, m: nat, unit: nat)
    requires watch.Valid() && IsTrace(root, cmds, answers, units, watch, disks)
    requires OpenedBy(cmds, answers, o, m, unit) && unit < NB_MAX_LUN
    ensures unit < |units[m]| && units[m][unit].c.name == cmds[o].path[..Min(|cmds[o].path|, 255)]
  {
    assert UnitsStep(root, cmds[m - 1], answers[m - 1], units[m - 1], units[m]);
    hide UnitsStep;
    hide DiskStep;
    GivenStep(root, cmds[m - 1], answers[m - 1], units[m - 1], units[m], unit);
    if o < m - 1 {
      NamedByPath(root, cmds, answers, units, watch, disks, o, m - 1, unit);
    }
  }

  /**
   * Isolation by path: the volume of one path keeps its disk while all writes go to units that were last
   * opened with a path whose first 255 characters are others.
   */
  lemma VolumeOfPathKept(root: string, cmds: seq<Command>, answers: seq<Answer>, units: seq<seq<Unit>>,
                         watch: Collection, disks: seq<seq<byte>>, i: nat, j: nat, path: string)
    requires watch.Valid() && IsTrace(root, cmds, answers, units, watch, disks) && i <= j <= |answers|
    requires watch.name == path[..Min(|path|, 255)]
    requires forall m :: i <= m < j && cmds[m].WriteUnit? && cmds[m].unit < |units[m]| ==>
      cmds[m].unit < NB_MAX_LUN && OpenedElsewhere(cmds, answers, m, cmds[m].unit, path)
    ensures disks[j] == disks[i]
  {
    hide UnitsStep;
    hide DiskStep;
    forall m | i <= m < j ensures !WritesVolume(cmds[m], units[m], watch.name) {
      if cmds[m].WriteUnit? && cmds[m].unit < |units[m]| {
        var o: nat :| OpenedBy(cmds, answers, o, m, cmds[m].unit)
          && cmds[o].path[..Min(|cmds[o].path|, 255)] != path[..Min(|path|, 255)];
        NamedByPath(root, cmds, answers, units, watch, disks, o, m, cmds[m].unit);
      }
    }
    VolumeKept(root, cmds, answers, units, watch, disks, i, j);
  }

  ghost predicate OpenedElsewhere(cmds: seq<Command>, answers: seq<Answer>, m: nat, unit: nat, path: string) {
    exists o: nat :: OpenedBy(cmds, answers, o, m, unit)
      && cmds[o].path[..Min(|cmds[o].path|, 255)] != path[..Min(|path|, 255)]
  }

  /** Some command from i on and before j writes to the unit. */
  ghost predicate WrittenBetween(cmds: seq<Command>, i: nat, j: nat, unit: nat) {
    exists m :: i <= m < j <= |cmds| && cmds[m].WriteUnit? && cmds[m].unit == unit
  }

  /** An open that claims the unit. */
  predicate Opens(q: Command, a: Answer, unit: nat) {
    q.OpenUnit? && a.index == unit
  }

  lemma UnitStepKeeps(root: string, q: Command, a: Answer, units: seq<Unit>, units': seq<Unit>, unit: nat)
    requires UnitsStep(root, q, a, units, units') && unit < |units| && unit < NB_MAX_LUN && !Opens(q, a, unit)
    ensures unit < |units'| && units'[unit].c == units[unit].c
    ensures units'[unit].isFs <==> units[unit].isFs || (q.WriteUnit? && q.unit == unit)
  {
  }

  /**
   * Between two opens of it a unit keeps its volume, and it has a file system exactly if it had one or has
   * been written to, through all commands to other units and its own closing.
   */
  lemma {:induction false} FlagLatched(root: string, cmds: seq<Command>, answers: seq<Answer>, units: seq<seq<Unit>>,
                                       watch: Collection, disks: seq<seq<byte>>, i: nat, j: nat, unit: nat)
    requires watch.Valid() && IsTrace(root, cmds, answers, units, watch, disks) && i <= j <= |answers|
    requires unit < |units[i]| && unit < NB_MAX_LUN
    requires forall m :: i <= m < j ==> !Opens(cmds[m], answers[m], unit)
    ensures unit < |units[j]| && units[j][unit].c == units[i][unit].c
    ensures units[j][unit].isFs <==> units[i][unit].isFs || WrittenBetween(cmds, i, j, unit)
  {
    hide UnitsStep;
    hide DiskStep;
    if i < j {
      FlagLatched(root, cmds, answers, units, watch, disks, i, j - 1, unit);
      UnitStepKeeps(root, cmds[j - 1], answers[j - 1], units[j - 1], units[j], unit);
      WrittenOneMore(cmds, i, j, unit);
    }
  }

  lemma WrittenOneMore(cmds: seq<Command>, i: nat, j: nat, unit: nat)
    requires i < j <= |cmds|
    ensures WrittenBetween(cmds, i, j, unit) <==>
      WrittenBetween(cmds, i, j - 1, unit) || (cmds[j - 1].WriteUnit? && cmds[j - 1].unit == unit)
  {
    if m :| i <= m < j - 1 <= |cmds| && cmds[m].WriteUnit? && cmds[m].unit == unit {
      assert i <= m < j <= |cmds|;
    }
  }

  /** A write that may change byte p of the volume under watch. */
  predicate MayWriteByte(q: Command, units: seq<Unit>, watch: Collection, p: nat) {
    WritesVolume(q, units, watch.name) && (Shows(units, q.unit, watch) ==> q.offset <= p < q.offset + |q.data|)
  }

  lemma {:induction false} ByteKept(root: string, cmds: seq<Command>, answers: seq<Answer>, units: seq<seq<Unit>>,
                                    watch: Collection, disks: seq<seq<byte>>, i: nat, j: nat, p: nat)
    requires watch.Valid() && IsTrace(root, cmds, answers, units, watch, disks) && i <= j <= |answers|
    requires p < |disks[i]| && forall m :: i <= m < j ==> !MayWriteByte(cmds[m], units[m], watch, p)
    ensures p < |disks[j]| && disks[j][p] == disks[i][p]
  {
    hide StepOk;
    if i < j {
      ByteKept(root, cmds, answers, units, watch, disks, i, j - 1, p);
      var q, a := cmds[j - 1], answers[j - 1];
      assert DiskStep(watch, q, a, units[j - 1], disks[j - 1], disks[j]);
      if WritesVolume(q, units[j - 1], watch.name) {
        StepKeepsByte(watch, Put(q.offset, q.data), a.reply, disks[j - 1], disks[j], p);
      }
    }
  }

  /**
   * Volumes outlive units: what is written through one unit is read back through any formatted unit that
   * shows the same volume, whatever was opened, closed, read, or written elsewhere in between.
   */
  lemma WrittenThenRead(root: string, cmds: seq<Command>, answers: seq<Answer>, units: seq<seq<Unit>>,
                        watch: Collection, disks: seq<seq<byte>>, w: nat, g: nat, p: nat)
    requires watch.Valid() && IsTrace(root, cmds, answers, units, watch, disks) && w < g < |answers|
    requires cmds[w].WriteUnit? && Shows(units[w], cmds[w].unit, watch) && answers[w].reply.outcome == Ok
    requires cmds[w].offset <= p < cmds[w].offset + |cmds[w].data|
    requires cmds[g].ReadUnit? && Shows(units[g], cmds[g].unit, watch) && units[g][cmds[g].unit].isFs
    requires answers[g].reply.outcome == Ok && cmds[g].offset <= p < cmds[g].offset + cmds[g].len
    requires forall m :: w < m < g ==> !MayWriteByte(cmds[m], units[m], watch, p)
    ensures |answers[g].reply.data| == cmds[g].len
    ensures answers[g].reply.data[p - cmds[g].offset] == cmds[w].data[p - cmds[w].offset]
  {
    hide StepOk;
    assert DiskStep(watch, cmds[w], answers[w], units[w], disks[w], disks[w + 1]);
    assert DiskStep(watch, cmds[g], answers[g], units[g], disks[g], disks[g + 1]);
    WrittenByte(watch, Put(cmds[w].offset, cmds[w].data), answers[w].reply, disks[w], disks[w + 1], p);
    ByteKept(root, cmds, answers, units, watch, disks, w + 1, g, p);
    ReadByte(watch, Get(cmds[g].offset, cmds[g].len), answers[g].reply, disks[g], disks[g + 1], p);
  }
}
