/**
 * The SCSI commands of `bs_simpleOSD_request` as programs over a logical unit's reads and writes.
 * The commands are those of SBC-3 (INCITS 514), clause 5.
 */
module Scsi {
  import opened Arithmetic
  import opened Bytes
  import opened Naming
  import opened FileSystem
  import opened Placement
  import opened Geometry
  import opened ObjectOps
  import opened ObjectStore
  import opened History
  import opened LunTable
  import opened BlockIo

  datatype Sense = MediumError | IllegalRequest | HardwareError | Miscompare

  /** `Hung` when a read below never returns. */
  datatype Status = Good | CheckCondition(sense: Sense) | Hung

  /** `ret`, an int: the length on success, -1 on failure. */
  function Ret(ok: bool, length: nat): int {
    if !ok then -1 else if length < U32 / 2 then length else length - U32
  }

  /** The comparison of `ret` with an unsigned 32-bit length. */
  predicate SameLength(ret: int, length: nat) {
    ret % U32 == length
  }

  /** The commands take a transfer for a success exactly if it is one or has length 2^32 - 1. */
  lemma TakenForSuccess(ok: bool, length: nat)
    requires length < U32
    ensures SameLength(Ret(ok, length), length) <==> ok || length == U32 - 1
    ensures -0x8000_0000 <= Ret(ok, length) < 0x8000_0000 && (!ok ==> Ret(ok, length) == -1)
  {
    assert (length - U32) % U32 == length;
  }

  /** What a command needs: a unit that was opened, and addresses within 64 bits. */
  ghost predicate Ready(t: Table, unit: nat, offset: nat, length: nat)
    reads t, t.k, t.luns
  {
    t.Opened(unit) && offset + length < U64 && length < U32
  }

  /**
   * What a failed transfer needs: a failing call, or an object in its range for which no node is known and
   * whose file is not there or was not seen by `stat`.
   */
  twostate predicate Caused(t: Table, unit: nat, offset: nat, length: nat)
    requires old(t.Opened(unit))
    reads t, t.k, t.luns
  {
    || t.k.errors > old(t.k.errors)
    || SomeDenied(old(t.k.fs), old(t.luns[unit].store.c), t.k.troubles > old(t.k.troubles), offset, length)
  }

  ghost predicate Accepted(t: Table, unit: nat, offset: nat, length: nat)
    requires t.Opened(unit)
    reads t, t.k, t.luns
  {
    t.luns[unit].store.c.Accepts(offset, length)
  }

  ghost predicate Overlaid(disk: seq<byte>, disk': seq<byte>, offset: nat, data: seq<byte>) {
    offset + |data| <= |disk| && disk' == Overlay(disk, offset, data)
  }

  /** The disk is as before, or has a prefix of the data at offset. */
  ghost predicate AtMostLaid(disk: seq<byte>, disk': seq<byte>, offset: nat, data: seq<byte>) {
    disk' == disk || PrefixLaid(disk, disk', offset, data)
  }

  /**
   * READ, and the read step of the other commands: `medium` is what the caller takes for failure, `served`
   * tells whether the unit did answer.
   */
  method ReadStep(t: Table, unit: nat, buf: array<byte>, offset: nat)
    returns (medium: bool, hung: bool, ghost served: bool)
    requires Ready(t, unit, offset, buf.Length)
    modifies t.k, buf
    ensures t.Opened(unit) && UnitDisk(t, unit) == old(UnitDisk(t, unit))
    ensures t.k.errors >= old(t.k.errors) && t.k.troubles >= old(t.k.troubles) && NamesKept(old(t.k.fs), t.k.fs)
    ensures if hung then !served else medium <==> !served && buf.Length != U32 - 1
    ensures served && t.luns[unit].isFsDone ==> Holds(UnitDisk(t, unit), offset, buf[..])
    ensures !t.luns[unit].isFsDone ==> served && buf[..] == old(buf[..])
    ensures hung ==> !old(Intact(t.k.fs, t.luns[unit].store.c))
    ensures !served && !hung && Accepted(t, unit, offset, buf.Length) ==> Caused(t, unit, offset, buf.Length)
  {
    hide Disk;
    hide Intact;
    hide SomeDenied;
    hide NamesKept;
    hide Collection.Accepts;
    hide Collection.Valid;
    ghost var fs0 := t.k.fs;
    var r := BlkRead(t, unit, buf, offset);
    SameDisk(fs0, t.k.fs, t.luns[unit].store.c);
    TakenForSuccess(r == Ok, buf.Length);
    hide Ret;
    hide SameLength;
    hung, served := r == Stuck, r == Ok;
    medium := !SameLength(Ret(r == Ok, buf.Length), buf.Length);
  }

  /** The common tail of the writing commands; `page` tells whether the caching mode page exists. */
  method WriteStep(t: Table, unit: nat, data: seq<byte>, offset: nat, page: bool)
    returns (status: Status, ghost written: bool)
    requires Ready(t, unit, offset, |data|)
    modifies t.k, t.luns
    ensures t.Opened(unit) && t.luns[unit].isFsDone && t.luns[unit].store == old(t.luns[unit].store)
    ensures t.k.errors >= old(t.k.errors) && t.k.troubles >= old(t.k.troubles)
    ensures if written then Overlaid(old(UnitDisk(t, unit)), UnitDisk(t, unit), offset, data)
            else AtMostLaid(old(UnitDisk(t, unit)), UnitDisk(t, unit), offset, data)
    ensures status == if !written && |data| != U32 - 1 then CheckCondition(MediumError)
                      else if page then Good else CheckCondition(IllegalRequest)
    ensures Accepted(t, unit, offset, |data|) && !written ==> Caused(t, unit, offset, |data|)
    ensures NamesKept(old(t.k.fs), t.k.fs)
  {
    hide Disk;
    hide Intact;
    hide SomeDenied;
    hide NamesKept;
    hide Collection.Accepts;
    hide Collection.Valid;
    var r := BlkWrite(t, unit, data, offset);
    TakenForSuccess(r == Ok, |data|);
    hide Ret;
    hide SameLength;
    written := r == Ok;
    if !SameLength(Ret(r == Ok, |data|), |data|) {
      status := CheckCondition(MediumError);
    } else if page {
      status := Good;
    } else {
      status := CheckCondition(IllegalRequest);
    }
  }

  /**
   * How the commands that compare or combine begin: memory for the old data, and a read into it; `ok` if
   * the command goes on. `served` tells whether the unit did answer.
   */
  method ReadOld(t: Table, unit: nat, length: nat, offset: nat, memory: bool)
    returns (tmp: array<byte>, ok: bool, status: Status, ghost served: bool)
    requires Ready(t, unit, offset, length)
    modifies t.k
    ensures t.Opened(unit) && UnitDisk(t, unit) == old(UnitDisk(t, unit)) && t.k.errors >= old(t.k.errors)
    ensures t.k.troubles >= old(t.k.troubles) && NamesKept(old(t.k.fs), t.k.fs)
    ensures fresh(tmp) && (ok ==> tmp.Length == length && status == Good)
    ensures ok <==> memory && (served || (length == U32 - 1 && status != Hung))
    ensures !memory ==> !served && status == CheckCondition(HardwareError)
    ensures memory && !ok ==>
      status == CheckCondition(MediumError) || (status == Hung && !old(Intact(t.k.fs, t.luns[unit].store.c)))
    ensures served && t.luns[unit].isFsDone ==> Holds(UnitDisk(t, unit), offset, tmp[..])
    ensures memory && !t.luns[unit].isFsDone ==> served
    ensures memory && status != Hung && !served && Accepted(t, unit, offset, length) ==>
      Caused(t, unit, offset, length)
  {
    hide Disk;
    hide Intact;
    hide SomeDenied;
    hide NamesKept;
    hide Collection.Accepts;
    hide Collection.Valid;
    Unmoved(t.k.fs);
    if !memory {
      tmp := new byte[0];
      return tmp, false, CheckCondition(HardwareError), false;
    }
    tmp := new byte[length];
    var medium, hung;
    medium, hung, served := ReadStep(t, unit, tmp, offset);
    ok := !hung && !medium;
    status := if hung then Hung else if medium then CheckCondition(MediumError) else Good;
  }

  // ---------- ORWRITE ----------

  /** Each bit of `after` is set exactly if it is set in the given data or in the addressed bytes of the disk. */
  ghost predicate Ored(disk: seq<byte>, offset: nat, given: seq<byte>, after: seq<byte>) {
    && |after| == |given| && offset + |given| <= |disk|
    && forall i: nat, k: nat :: i < |given| && k < 8 ==>
         (Bit(after[i], k) <==> Bit(given[i], k) || Bit(disk[offset + i], k))
  }

  /** Each bit of the addressed range is set exactly if it was, or is set in the given data; nothing else changed. */
  ghost predicate OredOnDisk(disk: seq<byte>, disk': seq<byte>, offset: nat, given: seq<byte>) {
    && |disk'| == |disk| && offset + |given| <= |disk|
    && (forall i: nat, k: nat :: i < |given| && k < 8 ==>
          (Bit(disk'[offset + i], k) <==> Bit(given[i], k) || Bit(disk[offset + i], k)))
    && (forall p :: 0 <= p < |disk| && !(offset <= p < offset + |given|) ==> disk'[p] == disk[p])
  }

  lemma OredMeaning(disk: seq<byte>, offset: nat, given: seq<byte>, was: seq<byte>)
    requires |given| == |was| && Holds(disk, offset, was)
    ensures Ored(disk, offset, given, OrSeq(given, was))
  {
    hide Or;
    hide Bit;
    var after := OrSeq(given, was);
    forall i: nat, k: nat | i < |given| && k < 8
      ensures Bit(after[i], k) <==> Bit(given[i], k) || Bit(disk[offset + i], k)
    {
      assert was[i] == disk[offset + i];
      OrMeaning(given[i], was[i], k);
    }
  }

  lemma OredLaid(disk: seq<byte>, disk': seq<byte>, offset: nat, given: seq<byte>, after: seq<byte>)
    requires Ored(disk, offset, given, after) && Overlaid(disk, disk', offset, after)
    ensures OredOnDisk(disk, disk', offset, given)
  {
    hide Bit;
    forall i: nat, k: nat | i < |given| && k < 8
      ensures Bit(disk'[offset + i], k) <==> Bit(given[i], k) || Bit(disk[offset + i], k)
    {
      assert disk'[offset + i] == after[i];
    }
  }

  /**
   * ORWRITE: old data or-ed into the command's buffer, and the buffer written back. `served` and `written`
   * tell whether the unit read and wrote; a read that failed at length 2^32 - 1 goes unnoticed.
   */
  method OrWrite(t: Table, unit: nat, out: array<byte>, offset: nat, memory: bool, page: bool)
    returns (status: Status, ghost served: bool, ghost written: bool)
    requires Ready(t, unit, offset, out.Length)
    modifies t.k, t.luns, out
    ensures t.Opened(unit) && t.luns[unit].store == old(t.luns[unit].store) && t.k.errors >= old(t.k.errors)
    ensures if written then Overlaid(old(UnitDisk(t, unit)), UnitDisk(t, unit), offset, out[..])
            else AtMostLaid(old(UnitDisk(t, unit)), UnitDisk(t, unit), offset, out[..])
    ensures served && old(t.luns[unit].isFsDone) ==> Ored(old(UnitDisk(t, unit)), offset, old(out[..]), out[..])
    ensures served && written && old(t.luns[unit].isFsDone) ==>
      OredOnDisk(old(UnitDisk(t, unit)), UnitDisk(t, unit), offset, old(out[..]))
    ensures !memory ==> !served && status == CheckCondition(HardwareError)
    ensures memory && !served && out.Length != U32 - 1 ==>
      status == CheckCondition(MediumError) || (status == Hung && !old(Intact(t.k.fs, t.luns[unit].store.c)))
    ensures !memory || (!served && out.Length != U32 - 1) ==>
      !written && UnitDisk(t, unit) == old(UnitDisk(t, unit)) && out[..] == old(out[..])
    ensures served ==>
      status == if !written && out.Length != U32 - 1 then CheckCondition(MediumError)
                else if page then Good else CheckCondition(IllegalRequest)
    ensures memory && status != Hung && !(served && written) && Accepted(t, unit, offset, out.Length) ==>
      Caused(t, unit, offset, out.Length)
  {
    hide Disk;
    hide Intact;
    hide SomeDenied;
    hide NamesKept;
    hide Collection.Accepts;
    hide Collection.Valid;
    hide OrSeq;
    hide Holds;
    hide Overlaid;
    hide AtMostLaid;
    hide Ored;
    hide OredOnDisk;
    served, written := false, false;
    ghost var disk, given, fs0, c := UnitDisk(t, unit), out[..], t.k.fs, t.luns[unit].store.c;
    assert c.Valid();
    hide Table.Valid;
    hide UnitDisk;
    NothingLaid(disk, offset, given);
    Unmoved(fs0);
    var tmp, ok;
    tmp, ok, status, served := ReadOld(t, unit, out.Length, offset, memory);
    if !ok {
      return;
    }
    OrInPlace(out, tmp);
    if Holds(disk, offset, tmp[..]) {
      OredMeaning(disk, offset, given, tmp[..]);
    }
    ghost var mid, troubles := t.k.fs, t.k.troubles;
    status, written := WriteStep(t, unit, out[..], offset, page);
    DeniedStep(fs0, mid, c, t.k.troubles > troubles, t.k.troubles > old(t.k.troubles), offset, out.Length);
    DeniedStep(fs0, fs0, c, troubles > old(t.k.troubles), t.k.troubles > old(t.k.troubles), offset, out.Length);
    if written && Ored(disk, offset, given, out[..]) {
      OredLaid(disk, UnitDisk(t, unit), offset, given, out[..]);
    }
  }

  lemma NothingLaid(disk: seq<byte>, offset: nat, data: seq<byte>)
    ensures AtMostLaid(disk, disk, offset, data)
  {
  }

  /** What is denied in a later step of a command is denied in the command. */
  lemma DeniedStep(fs: Fs, mid: Fs, c: Collection, now: bool, ever: bool, offset: nat, len: nat)
    requires c.Valid() && NamesKept(fs, mid) && (now ==> ever)
    ensures SomeDenied(mid, c, now, offset, len) ==> SomeDenied(fs, c, ever, offset, len)
  {
    if SomeDenied(mid, c, now, offset, len) {
      DeniedEarlier(fs, mid, c, now, ever, offset, len, offset, len);
    }
  }

  method OrInPlace(out: array<byte>, tmp: array<byte>)
    requires out != tmp && out.Length == tmp.Length
    modifies out
    ensures out[..] == OrSeq(old(out[..]), tmp[..])
  {
    hide Or;
    for i := 0 to out.Length
      invariant forall j :: i <= j < out.Length ==> out[j] == old(out[j])
      invariant forall j :: 0 <= j < i ==> out[j] == Or(old(out[j]), tmp[j])
    {
      out[i] := Or(out[i], tmp[i]);
    }
  }

  // ---------- COMPARE AND WRITE ----------

  /** The first position at which two buffers differ. */
  ghost predicate FirstDifference(a: seq<byte>, b: seq<byte>, pos: nat) {
    pos < |a| && pos < |b| && a[pos] != b[pos] && a[..pos] == b[..pos]
  }

  /** The byte-by-byte search after a failed comparison. */
  method FindDifference(out: array<byte>, tmp: array<byte>) returns (pos: nat)
    requires tmp.Length <= out.Length && out[..tmp.Length] != tmp[..]
    ensures FirstDifference(out[..tmp.Length], tmp[..], pos)
  {
    pos := 0;
    while pos < tmp.Length && out[pos] == tmp[pos]
      invariant pos <= tmp.Length && out[..pos] == tmp[..pos]
    {
      pos := pos + 1;
    }
  }

  /** The addressed bytes of the disk differ from the expected ones, first at `info`. */
  ghost predicate Differs(disk: seq<byte>, offset: nat, expected: seq<byte>, info: nat) {
    && offset + |expected| <= |disk| && info < |expected|
    && expected[info] != disk[offset + info]
    && forall i :: 0 <= i < info ==> expected[i] == disk[offset + i]
  }

  lemma DiffersMeaning(disk: seq<byte>, offset: nat, expected: seq<byte>, was: seq<byte>, info: nat)
    requires |expected| == |was| && Holds(disk, offset, was) && FirstDifference(expected, was, info)
    ensures Differs(disk, offset, expected, info)
  {
    forall i | 0 <= i < info ensures expected[i] == disk[offset + i] {
      assert expected[..info][i] == was[..info][i];
    }
  }

  /**
   * COMPARE AND WRITE: the first half of the buffer is compared, the second half written if it agrees. `served`
   * and `written` tell whether the unit read and wrote.
   */
  method CompareAndWrite(t: Table, unit: nat, out: array<byte>, tl: nat, offset: nat, memory: bool, page: bool)
    returns (status: Status, info: nat, ghost served: bool, ghost written: bool)
    requires Ready(t, unit, offset, out.Length)
    modifies t.k, t.luns
    ensures t.Opened(unit) && t.luns[unit].store == old(t.luns[unit].store) && t.k.errors >= old(t.k.errors)
    ensures !served || status == CheckCondition(Miscompare) ==>
      !written && UnitDisk(t, unit) == old(UnitDisk(t, unit))
    ensures out.Length / 2 != tl ==> !served && status == CheckCondition(IllegalRequest)
    ensures out.Length / 2 == tl && !memory ==> !served && status == CheckCondition(HardwareError)
    ensures out.Length / 2 == tl && memory && !served ==>
      status == CheckCondition(MediumError) || (status == Hung && !old(Intact(t.k.fs, t.luns[unit].store.c)))
    ensures served && old(t.luns[unit].isFsDone) ==>
      if Holds(old(UnitDisk(t, unit)), offset, out[..tl]) then status != CheckCondition(Miscompare)
      else status == CheckCondition(Miscompare) && Differs(old(UnitDisk(t, unit)), offset, out[..tl], info)
    ensures served && status != CheckCondition(Miscompare) ==>
      && status == (if !written then CheckCondition(MediumError)
                    else if page then Good else CheckCondition(IllegalRequest))
      && (if written then Overlaid(old(UnitDisk(t, unit)), UnitDisk(t, unit), offset, out[tl..2 * tl])
          else AtMostLaid(old(UnitDisk(t, unit)), UnitDisk(t, unit), offset, out[tl..2 * tl]))
    ensures status != CheckCondition(Miscompare) ==> info == 0
    ensures out.Length / 2 == tl && memory && status != Hung && status != CheckCondition(Miscompare)
            && !(served && written) && Accepted(t, unit, offset, tl) ==>
      Caused(t, unit, offset, tl)
  {
    hide Disk;
    hide Intact;
    hide SomeDenied;
    hide NamesKept;
    hide Collection.Accepts;
    hide Collection.Valid;
    hide Overlaid;
    hide AtMostLaid;
    hide Differs;
    hide FirstDifference;
    served, written := false, false;
    ghost var disk, fs0, c := UnitDisk(t, unit), t.k.fs, t.luns[unit].store.c;
    assert c.Valid();
    hide Table.Valid;
    hide UnitDisk;
    info := 0;
    var length := out.Length / 2;
    if length != tl {
      return CheckCondition(IllegalRequest), info, served, written;
    }
    var tmp, ok;
    tmp, ok, status, served := ReadOld(t, unit, length, offset, memory);
    if !ok {
      return;
    }
    if out[..length] != tmp[..] {
      info := FindDifference(out, tmp);
      if Holds(disk, offset, tmp[..]) {
        DiffersMeaning(disk, offset, out[..length], tmp[..], info);
      }
      return CheckCondition(Miscompare), info, served, written;
    }
    ghost var mid, troubles := t.k.fs, t.k.troubles;
    status, written := WriteStep(t, unit, out[length..2 * length], offset, page);
    DeniedStep(fs0, mid, c, t.k.troubles > troubles, t.k.troubles > old(t.k.troubles), offset, tl);
  }

  // ---------- VERIFY and WRITE AND VERIFY ----------

  /** VERIFY: the disk compared with the buffer; `before` is the status so far. */
  method Verify(t: Table, unit: nat, out: array<byte>, offset: nat, memory: bool, before: Status)
    returns (status: Status, ghost served: bool)
    requires Ready(t, unit, offset, out.Length)
    modifies t.k
    ensures t.Opened(unit) && UnitDisk(t, unit) == old(UnitDisk(t, unit)) && t.k.errors >= old(t.k.errors)
    ensures t.k.troubles >= old(t.k.troubles)
    ensures !memory ==> !served && status == CheckCondition(HardwareError)
    ensures served && t.luns[unit].isFsDone ==>
      status == if Holds(UnitDisk(t, unit), offset, out[..]) then before else CheckCondition(Miscompare)
    ensures memory && !served && out.Length != U32 - 1 ==>
      status == CheckCondition(MediumError) || (status == Hung && !old(Intact(t.k.fs, t.luns[unit].store.c)))
    ensures memory && !t.luns[unit].isFsDone ==>
      served && (status == before || status == CheckCondition(Miscompare))
    ensures memory && status != Hung && !served && Accepted(t, unit, offset, out.Length) ==>
      Caused(t, unit, offset, out.Length)
  {
    hide Disk;
    hide Intact;
    hide SomeDenied;
    hide NamesKept;
    hide Collection.Accepts;
    hide Collection.Valid;
    var tmp, ok;
    tmp, ok, status, served := ReadOld(t, unit, out.Length, offset, memory);
    if ok {
      status := if out[..] != tmp[..] then CheckCondition(Miscompare) else before;
    }
  }

  /** The write step of WRITE AND VERIFY ended without the mode page: the verification is skipped. */
  predicate SkipsVerify(written: bool, length: nat, page: bool) {
    (written || length == U32 - 1) && !page
  }

  /**
   * WRITE AND VERIFY: without the mode page the verification is skipped; after a failed write it is not.
   * `written` and `served` tell whether the unit wrote and read back.
   */
  method WriteAndVerify(t: Table, unit: nat, out: array<byte>, offset: nat, memory: bool, page: bool)
    returns (status: Status, ghost served: bool, ghost written: bool)
    requires Ready(t, unit, offset, out.Length)
    modifies t.k, t.luns
    ensures t.Opened(unit) && t.luns[unit].store == old(t.luns[unit].store) && t.k.errors >= old(t.k.errors)
    ensures if written then Overlaid(old(UnitDisk(t, unit)), UnitDisk(t, unit), offset, out[..])
            else AtMostLaid(old(UnitDisk(t, unit)), UnitDisk(t, unit), offset, out[..])
    ensures written ==> Holds(UnitDisk(t, unit), offset, out[..])
    ensures SkipsVerify(written, out.Length, page) ==> !served && status == CheckCondition(IllegalRequest)
    ensures !SkipsVerify(written, out.Length, page) && !memory ==>
      !served && status == CheckCondition(HardwareError)
    ensures !SkipsVerify(written, out.Length, page) && memory && !served && out.Length != U32 - 1 ==>
      status == CheckCondition(MediumError) || status == Hung
    ensures served ==>
      status == if !Holds(UnitDisk(t, unit), offset, out[..]) then CheckCondition(Miscompare)
                else if written || out.Length == U32 - 1 then Good else CheckCondition(MediumError)
    ensures Accepted(t, unit, offset, out.Length) && !written ==> Caused(t, unit, offset, out.Length)
    ensures Accepted(t, unit, offset, out.Length) && memory && status != Hung && !served
            && !SkipsVerify(written, out.Length, page) ==>
      Caused(t, unit, offset, out.Length)
  {
    hide Disk;
    hide Intact;
    hide SomeDenied;
    hide NamesKept;
    hide Collection.Accepts;
    hide Collection.Valid;
    hide AtMostLaid;
    hide Overlaid;
    ghost var fs0, c := t.k.fs, t.luns[unit].store.c;
    Unmoved(fs0);
    status, written := WriteStep(t, unit, out[..], offset, page);
    if written {
      LaidHolds(old(UnitDisk(t, unit)), UnitDisk(t, unit), offset, out[..]);
    }
    if status == CheckCondition(IllegalRequest) {
      return status, false, written;
    }
    ghost var mid, troubles := t.k.fs, t.k.troubles;
    status, served := Verify(t, unit, out, offset, memory, status);
    DeniedStep(fs0, mid, c, t.k.troubles > troubles, t.k.troubles > old(t.k.troubles), offset, out.Length);
    DeniedStep(fs0, fs0, c, troubles > old(t.k.troubles), t.k.troubles > old(t.k.troubles), offset, out.Length);
  }

  lemma LaidHolds(disk: seq<byte>, disk': seq<byte>, offset: nat, data: seq<byte>)
    requires Overlaid(disk, disk', offset, data)
    ensures Holds(disk', offset, data)
  {
  }

  // ---------- WRITE SAME ----------

  /** The LBDATA and PBDATA bits: nothing, or the block's own byte offset in 4 or 8 bytes. */
  datatype Stamp = NoStamp | Stamp32 | Stamp64

  function StampLen(stamp: Stamp): nat {
    match stamp case NoStamp => 0 case Stamp32 => 4 case Stamp64 => 8
  }

  function StampBytes(stamp: Stamp, offset: nat): (bs: seq<byte>)
    ensures |bs| == StampLen(stamp)
  {
    match stamp
    case NoStamp => []
    case Stamp32 => CounterBytes(offset % U32)
    case Stamp64 => CounterBytes(offset / U32 % U32) + CounterBytes(offset % U32)
  }

  /** Read back most significant byte first, a stamp is the offset, as far as it has room. */
  lemma StampMeans(offset: nat)
    requires offset < U64
    ensures var bs := StampBytes(Stamp32, offset);
            (bs[0] as int) * 0x100_0000 + (bs[1] as int) * 0x1_0000 + (bs[2] as int) * 0x100 + bs[3] as int
            == offset % U32
    ensures StampBytes(Stamp64, offset) == StampBytes(Stamp32, offset / U32) + StampBytes(Stamp32, offset)
  {
    WordBytesRoundTrip(offset % U32);
  }

  function Stamped(buf: seq<byte>, stamp: Stamp, offset: nat): (r: seq<byte>)
    requires StampLen(stamp) <= |buf|
    ensures |r| == |buf|
  {
    StampBytes(stamp, offset) + buf[StampLen(stamp)..]
  }

  /** What one block should hold: the buffer's block, stamped with that block's own offset. */
  function Block(buf: seq<byte>, stamp: Stamp, size: nat, offset: nat): (b: seq<byte>)
    requires StampLen(stamp) <= |buf| && size <= |buf|
    ensures |b| == size
  {
    Stamped(buf, stamp, offset)[..size]
  }

  /** n blocks from a position on. */
  function Blocks(buf: seq<byte>, stamp: Stamp, size: nat, offset: nat, n: nat): (bs: seq<byte>)
    requires StampLen(stamp) <= |buf| && size <= |buf|
    ensures |bs| == n * size
  {
    if n == 0 then []
    else Blocks(buf, stamp, size, offset, n - 1) + Block(buf, stamp, size, offset + (n - 1) * size)
  }

  /** Block k of the range. */
  lemma {:induction false} BlocksAt(buf: seq<byte>, stamp: Stamp, size: nat, offset: nat, n: nat, k: nat)
    requires StampLen(stamp) <= |buf| && size <= |buf| && k < n
    ensures k * size + size <= n * size
    ensures Blocks(buf, stamp, size, offset, n)[k * size..k * size + size] == Block(buf, stamp, size, offset + k * size)
  {
    hide Block;
    hide StampBytes;
    RowsApart(k, n, size);
    var before, last := Blocks(buf, stamp, size, offset, n - 1), Block(buf, stamp, size, offset + (n - 1) * size);
    var at := k * size;
    assert Blocks(buf, stamp, size, offset, n) == before + last;
    if k < n - 1 {
      BlocksAt(buf, stamp, size, offset, n - 1, k);
      SliceOfFront(before, last, at, at + size);
    } else {
      assert |before| == at && (before + last)[at..at + size] == last;
    }
  }

  lemma SliceOfFront(front: seq<byte>, back: seq<byte>, lo: nat, hi: nat)
    requires lo <= hi <= |front|
    ensures (front + back)[lo..hi] == front[lo..hi]
  {
  }

  /** Subtraction on 32 bits. */
  function Minus32(a: nat, b: nat): nat {
    (a - b) % U32
  }

  /** What is left of the 32-bit transfer length after n turns of the loop. */
  function LeftAfter(tl: nat, size: nat, n: nat): int {
    (tl - n * size) % U32
  }

  /** After some number of turns nothing is left. */
  ghost predicate Ends(tl: nat, size: nat) {
    exists n: nat :: LeftAfter(tl, size, n) == 0
  }

  /** The loop comes to an end if and only if the length is a multiple of the block size. */
  lemma WriteSameEndsIff(tl: nat, size: nat)
    requires tl < U32 && size > 0 && U32 % size == 0
    ensures Ends(tl, size) <==> tl % size == 0
  {
    if tl % size == 0 {
      DivMod(tl, size);
      assert LeftAfter(tl, size, tl / size) == 0;
    }
    if n: nat :| LeftAfter(tl, size, n) == 0 {
      MultipleOfBoth(tl, size, n);
    }
  }

  lemma MultipleOfBoth(tl: nat, size: nat, n: nat)
    requires size > 0 && U32 % size == 0 && (tl - n * size) % U32 == 0
    ensures tl % size == 0
  {
    var q := (tl - n * size) / U32;
    DivMod(U32, size);
    var w := U32 / size;
    assert tl == n * size + q * (w * size);
    assert q * (w * size) == (q * w) * size;
    assert tl == (n + q * w) * size by {
      assert (n + q * w) * size == n * size + (q * w) * size;
    }
    MulCancel(-1, n + q * w, size);
    DivModOf(n + q * w, 0, size);
  }

  ghost predicate BlocksAccepted(c: Collection, size: nat, offset: nat, n: nat)
    requires c.Valid()
  {
    forall k: nat :: k < n ==> c.Accepts(offset + k * size, size)
  }

  lemma BlockAccepted(c: Collection, size: nat, offset: nat, n: nat, k: nat, at: nat)
    requires c.Valid() && k < n && at == offset + k * size
    ensures BlocksAccepted(c, size, offset, n) ==> c.Accepts(at, size)
  {
  }

  function BlockCount(tl: nat, size: nat): nat
    requires size > 0
  {
    tl / size
  }

  /** One turn of the loop: the stamp goes into the command's own buffer, then one block is written. */
  method WriteSameTurn(t: Table, unit: nat, out: array<byte>, size: nat, stamp: Stamp, offset: nat) returns (ok: bool)
    requires t.Opened(unit) && offset + size < U64
    requires size <= out.Length && StampLen(stamp) <= out.Length
    modifies t.k, t.luns, out
    ensures t.Opened(unit) && t.luns[unit].store == old(t.luns[unit].store) && t.k.errors >= old(t.k.errors)
    ensures out[..] == Stamped(old(out[..]), stamp, offset)
    ensures var block := Block(old(out[..]), stamp, size, offset);
            if ok then Overlaid(old(UnitDisk(t, unit)), UnitDisk(t, unit), offset, block)
            else AtMostLaid(old(UnitDisk(t, unit)), UnitDisk(t, unit), offset, block)
    ensures !ok && Accepted(t, unit, offset, size) ==> Caused(t, unit, offset, size)
    ensures t.k.troubles >= old(t.k.troubles) && NamesKept(old(t.k.fs), t.k.fs)
  {
    hide Disk;
    hide Intact;
    hide SomeDenied;
    hide NamesKept;
    hide Collection.Accepts;
    hide Collection.Valid;
    var bytes := StampBytes(stamp, offset);
    hide StampBytes;
    forall i | 0 <= i < |bytes| {
      out[i] := bytes[i];
    }
    assert out[..] == Stamped(old(out[..]), stamp, offset);
    var r := BlkWrite(t, unit, out[..size], offset);
    ok := r == Ok;
  }

  /** A stamp overwrites the stamp before it. */
  lemma StampedAgain(buf: seq<byte>, now: seq<byte>, stamp: Stamp, size: nat, earlier: nat, offset: nat)
    requires StampLen(stamp) <= |buf| && size <= |buf|
    requires now == buf || now == Stamped(buf, stamp, earlier)
    ensures |now| == |buf|
    ensures Stamped(now, stamp, offset) == Stamped(buf, stamp, offset)
    ensures Block(now, stamp, size, offset) == Block(buf, stamp, size, offset)
  {
  }

  /**
   * Nothing but the range of n blocks differs, and there each byte is the old one or its block's; if
   * every write succeeded, the range holds the blocks.
   */
  ghost predicate Filling(disk: seq<byte>, now: seq<byte>, buf: seq<byte>, stamp: Stamp, size: nat, offset: nat,
                          n: nat, all: bool)
    requires StampLen(stamp) <= |buf| && size <= |buf|
  {
    && |now| == |disk|
    && (forall p :: 0 <= p < |disk| ==>
          || now[p] == disk[p]
          || (offset <= p < offset + n * size && now[p] == Blocks(buf, stamp, size, offset, n)[p - offset]))
    && (all && n > 0 ==> Overlaid(disk, now, offset, Blocks(buf, stamp, size, offset, n)))
  }

  /** A byte after a write that succeeded or failed part way. */
  lemma LaidByte(disk: seq<byte>, now: seq<byte>, at: nat, data: seq<byte>, p: nat)
    requires (Overlaid(disk, now, at, data) || AtMostLaid(disk, now, at, data)) && p < |disk|
    ensures |now| == |disk|
    ensures now[p] == disk[p] || (at <= p < at + |data| && now[p] == data[p - at])
  {
  }

  lemma FillingTurns(disk: seq<byte>, mid: seq<byte>, now: seq<byte>, buf: seq<byte>, stamp: Stamp, size: nat,
                     offset: nat, n: nat, at: nat, all: bool, ok: bool)
    requires StampLen(stamp) <= |buf| && size <= |buf|
    requires Filling(disk, mid, buf, stamp, size, offset, n, all)
    requires at == offset + n * size
    requires var block := Block(buf, stamp, size, at);
             if ok then Overlaid(mid, now, at, block) else AtMostLaid(mid, now, at, block)
    requires n == 0 ==> mid == disk
    ensures Filling(disk, now, buf, stamp, size, offset, n + 1, all && ok)
  {
    hide Block;
    hide StampBytes;
    hide Stamped;
    hide Overlaid;
    hide AtMostLaid;
    var before, block := Blocks(buf, stamp, size, offset, n), Block(buf, stamp, size, at);
    assert (n + 1) * size == n * size + size;
    assert Blocks(buf, stamp, size, offset, n + 1) == before + block;
    hide Blocks;
    LaidSize(mid, now, at, block);
    forall p | 0 <= p < |disk|
      ensures now[p] == disk[p] || (offset <= p < at + size && now[p] == (before + block)[p - offset])
    {
      LaidByte(mid, now, at, block, p);
    }
    if all && ok {
      LaidNext(disk, mid, now, offset, before, block);
    }
  }

  lemma LaidSize(disk: seq<byte>, now: seq<byte>, at: nat, data: seq<byte>)
    requires Overlaid(disk, now, at, data) || AtMostLaid(disk, now, at, data)
    ensures |now| == |disk|
  {
  }

  lemma LaidNext(disk: seq<byte>, mid: seq<byte>, now: seq<byte>, offset: nat, before: seq<byte>, block: seq<byte>)
    requires (before == [] && mid == disk) || Overlaid(disk, mid, offset, before)
    requires Overlaid(mid, now, offset + |before|, block)
    ensures Overlaid(disk, now, offset, before + block)
  {
    if before == [] {
      assert before + block == block;
      assert mid == disk;
    } else {
      OverlayTwice(disk, offset, before, block);
    }
  }

  lemma OverlaySlice(disk: seq<byte>, at: nat, data: seq<byte>, lo: nat, hi: nat)
    requires at + |data| <= |disk| && lo <= hi <= |data|
    ensures Overlay(disk, at, data)[at + lo..at + hi] == data[lo..hi]
  {
  }

  /** Four bytes, most significant first. */
  function Big32(b: seq<byte>): nat
    requires |b| >= 4
  {
    (b[0] as int) * 0x100_0000 + (b[1] as int) * 0x1_0000 + (b[2] as int) * 0x100 + b[3] as int
  }

  /** A block of WRITE SAME at byte offset `at`: the buffer's, with that offset in its first bytes if so asked. */
  ghost predicate ShowsBlock(b: seq<byte>, buf: seq<byte>, stamp: Stamp, size: nat, at: nat)
    requires size <= |buf|
  {
    && |b| == size
    && match stamp
       case NoStamp => b == buf[..size]
       case Stamp32 => size >= 4 ==> Big32(b) == at % 0x1_0000_0000 && b[4..] == buf[4..size]
       case Stamp64 => size >= 8 ==> Big32(b) * 0x1_0000_0000 + Big32(b[4..]) == at && b[8..] == buf[8..size]
  }

  lemma CounterBig32(n: nat, rest: seq<byte>)
    requires n < U32
    ensures Big32(CounterBytes(n) + rest) == n
  {
    WordBytesRoundTrip(n);
    hide WordByte;
  }

  lemma TwoWords(at: nat)
    requires at < U64
    ensures at / U32 % U32 * 0x1_0000_0000 + at % U32 == at
  {
  }

  lemma BlockShowsShort(buf: seq<byte>, size: nat, at: nat)
    requires 4 <= size <= |buf|
    ensures ShowsBlock(Block(buf, Stamp32, size, at), buf, Stamp32, size, at)
  {
    var word := CounterBytes(at % U32);
    CounterBig32(at % U32, buf[4..size]);
    hide CounterBytes;
    hide Big32;
    assert Block(buf, Stamp32, size, at) == word + buf[4..size];
    assert (word + buf[4..size])[4..] == buf[4..size];
  }

  lemma BlockShowsLong(buf: seq<byte>, size: nat, at: nat)
    requires 8 <= size <= |buf| && at < U64
    ensures ShowsBlock(Block(buf, Stamp64, size, at), buf, Stamp64, size, at)
  {
    var high, low, rest := CounterBytes(at / U32 % U32), CounterBytes(at % U32), buf[8..size];
    CounterBig32(at / U32 % U32, low + rest);
    CounterBig32(at % U32, rest);
    TwoWords(at);
    hide CounterBytes;
    hide Big32;
    var b := Block(buf, Stamp64, size, at);
    assert b == high + (low + rest);
    assert b[4..] == low + rest;
    assert b[8..] == rest;
  }

  lemma BlockShows(buf: seq<byte>, stamp: Stamp, size: nat, at: nat)
    requires StampLen(stamp) <= |buf| && size <= |buf| && at < U64
    ensures ShowsBlock(Block(buf, stamp, size, at), buf, stamp, size, at)
  {
    match stamp {
      case NoStamp =>
        assert Block(buf, stamp, size, at) == buf[..size];
      case Stamp32 =>
        if size >= 4 {
          BlockShowsShort(buf, size, at);
        }
      case Stamp64 =>
        if size >= 8 {
          BlockShowsLong(buf, size, at);
        }
    }
    hide StampBytes;
  }

  /** Nothing outside the range differs. */
  ghost predicate RestKept(disk: seq<byte>, now: seq<byte>, offset: nat, tl: nat) {
    |now| == |disk| && forall p :: 0 <= p < |disk| && !(offset <= p < offset + tl) ==> now[p] == disk[p]
  }

  /** Each byte of a block's place is the old one or the block's, and if all went well it is the block's. */
  ghost predicate BlockDone(disk: seq<byte>, now: seq<byte>, buf: seq<byte>, stamp: Stamp, size: nat, at: nat,
                            good: bool)
    requires size <= |buf|
  {
    exists b: seq<byte> :: ShowsBlock(b, buf, stamp, size, at)
      && (forall i: nat :: i < size && at + i < |disk| && at + i < |now| ==>
            now[at + i] == disk[at + i] || now[at + i] == b[i])
      && (good ==> at + size <= |now| && now[at..at + size] == b)
  }

  /** Bytes that are old or those of a filling, in one slice of the filling. */
  lemma MixedSlice(disk: seq<byte>, now: seq<byte>, whole: seq<byte>, offset: nat, lo: nat, b: seq<byte>)
    requires |now| == |disk| && lo + |b| <= |whole| && whole[lo..lo + |b|] == b
    requires forall p :: 0 <= p < |disk| ==>
      now[p] == disk[p] || (offset <= p < offset + |whole| && now[p] == whole[p - offset])
    ensures forall i: nat :: i < |b| && offset + lo + i < |disk| ==>
      now[offset + lo + i] == disk[offset + lo + i] || now[offset + lo + i] == b[i]
  {
    forall i: nat | i < |b| && offset + lo + i < |disk|
      ensures now[offset + lo + i] == disk[offset + lo + i] || now[offset + lo + i] == b[i]
    {
      assert b[i] == whole[lo + i];
    }
  }

  lemma FillingParts(disk: seq<byte>, now: seq<byte>, buf: seq<byte>, stamp: Stamp, size: nat, offset: nat,
                     n: nat, all: bool)
    requires StampLen(stamp) <= |buf| && size <= |buf| && n > 0
    requires Filling(disk, now, buf, stamp, size, offset, n, all)
    ensures var whole := Blocks(buf, stamp, size, offset, n);
            && |now| == |disk| && (all ==> Overlaid(disk, now, offset, whole))
            && forall p :: 0 <= p < |disk| ==>
                 now[p] == disk[p] || (offset <= p < offset + |whole| && now[p] == whole[p - offset])
  {
    hide Blocks;
    hide Overlaid;
  }

  lemma OverlaidSlice(disk: seq<byte>, now: seq<byte>, at: nat, data: seq<byte>, lo: nat, hi: nat)
    requires Overlaid(disk, now, at, data) && lo <= hi <= |data|
    ensures at + hi <= |now| && now[at + lo..at + hi] == data[lo..hi]
  {
    OverlaySlice(disk, at, data, lo, hi);
  }

  /** A slice of the filling that is a block, read off the disk. */
  lemma FilledSlice(disk: seq<byte>, now: seq<byte>, buf: seq<byte>, stamp: Stamp, size: nat, offset: nat,
                    whole: seq<byte>, lo: nat, all: bool, b: seq<byte>)
    requires size <= |buf| && |b| == size && lo + |b| <= |whole| && whole[lo..lo + |b|] == b
    requires ShowsBlock(b, buf, stamp, size, offset + lo)
    requires |now| == |disk| && (all ==> Overlaid(disk, now, offset, whole))
    requires forall p :: 0 <= p < |disk| ==>
      now[p] == disk[p] || (offset <= p < offset + |whole| && now[p] == whole[p - offset])
    ensures BlockDone(disk, now, buf, stamp, size, offset + lo, all)
  {
    hide ShowsBlock;
    hide BlockDone;
    hide Overlaid;
    MixedSlice(disk, now, whole, offset, lo, b);
    if all {
      OverlaidSlice(disk, now, offset, whole, lo, lo + size);
    }
    BlockDoneBy(disk, now, buf, stamp, size, offset + lo, all, b);
  }

  lemma BlockSlice(buf: seq<byte>, stamp: Stamp, size: nat, offset: nat, n: nat, k: nat) returns (lo: nat)
    requires StampLen(stamp) <= |buf| && size <= |buf| && k < n
    ensures lo == k * size && lo + size <= |Blocks(buf, stamp, size, offset, n)|
    ensures Blocks(buf, stamp, size, offset, n)[lo..lo + size] == Block(buf, stamp, size, offset + lo)
  {
    hide *;
    BlocksAt(buf, stamp, size, offset, n, k);
    lo := k * size;
  }

  /** Block k of a filled range, read off the disk. */
  lemma FilledBlock(disk: seq<byte>, now: seq<byte>, buf: seq<byte>, stamp: Stamp, size: nat, offset: nat,
                    n: nat, k: nat, all: bool)
    requires StampLen(stamp) <= |buf| && size <= |buf| && k < n
    requires offset + |Blocks(buf, stamp, size, offset, n)| < U64
    requires Filling(disk, now, buf, stamp, size, offset, n, all)
    ensures BlockDone(disk, now, buf, stamp, size, offset + k * size, all)
  {
    FillingParts(disk, now, buf, stamp, size, offset, n, all);
    hide *;
    var whole := Blocks(buf, stamp, size, offset, n);
    var lo := BlockSlice(buf, stamp, size, offset, n, k);
    BlockShows(buf, stamp, size, offset + lo);
    FilledSlice(disk, now, buf, stamp, size, offset, whole, lo, all, Block(buf, stamp, size, offset + lo));
  }

  lemma BlockDoneBy(disk: seq<byte>, now: seq<byte>, buf: seq<byte>, stamp: Stamp, size: nat, at: nat, good: bool,
                    b: seq<byte>)
    requires size <= |buf| && |now| == |disk| && ShowsBlock(b, buf, stamp, size, at)
    requires forall i: nat :: i < |b| && at + i < |disk| ==> now[at + i] == disk[at + i] || now[at + i] == b[i]
    requires good ==> at + size <= |now| && now[at..at + size] == b
    ensures BlockDone(disk, now, buf, stamp, size, at, good)
  {
  }

  /** So it is with every block that begins within the length. */
  ghost predicate BlocksDone(disk: seq<byte>, now: seq<byte>, buf: seq<byte>, stamp: Stamp, size: nat, offset: nat,
                             tl: nat, good: bool)
    requires size <= |buf|
  {
    forall k: nat :: k * size < tl ==> BlockDone(disk, now, buf, stamp, size, offset + k * size, good)
  }

  lemma FilledMeaning(disk: seq<byte>, now: seq<byte>, buf: seq<byte>, stamp: Stamp, size: nat, offset: nat,
                      tl: nat, good: bool)
    requires StampLen(stamp) <= |buf| && 0 < size <= |buf| && tl % size == 0 && offset + tl < U64
    requires Filling(disk, now, buf, stamp, size, offset, BlockCount(tl, size), good)
    ensures RestKept(disk, now, offset, tl) && BlocksDone(disk, now, buf, stamp, size, offset, tl, good)
  {
    DivMod(tl, size);
    var n := BlockCount(tl, size);
    assert n * size == tl;
    forall k: nat | k * size < tl ensures BlockDone(disk, now, buf, stamp, size, offset + k * size, good) {
      MulCancel(k, n, size);
      FilledBlock(disk, now, buf, stamp, size, offset, n, k, good);
    }
    hide BlockDone;
  }

  /**
   * WRITE SAME. Punching holes is not supported; otherwise the block is written over the whole range,
   * going on after a failed write. A length that is no multiple of the block size is never used up: `Hung`
   * says so, and nothing of what the endless loop does.
   */
  method WriteSame(t: Table, unit: nat, out: array<byte>, tl: nat, size: nat, stamp: Stamp, offset: nat, unmap: bool)
    returns (status: Status)
    requires t.Opened(unit) && offset + tl < U64 && tl < U32 && size > 0 && U32 % size == 0
    requires size <= out.Length && StampLen(stamp) <= out.Length
    modifies t.k, t.luns, out
    ensures t.Opened(unit) && t.luns[unit].store == old(t.luns[unit].store) && t.k.errors >= old(t.k.errors)
    ensures unmap ==> status == CheckCondition(HardwareError) && UnitDisk(t, unit) == old(UnitDisk(t, unit))
    ensures !unmap ==> (status == Hung <==> !Ends(tl, size))
    ensures !unmap && status != Hung ==>
      && (status == Good || status == CheckCondition(MediumError))
      && Filling(old(UnitDisk(t, unit)), UnitDisk(t, unit), old(out[..]), stamp, size, offset,
                 BlockCount(tl, size), status == Good)
    ensures !unmap && status != Hung ==>
      && RestKept(old(UnitDisk(t, unit)), UnitDisk(t, unit), offset, tl)
      && BlocksDone(old(UnitDisk(t, unit)), UnitDisk(t, unit), old(out[..]), stamp, size, offset, tl, status == Good)
    ensures !unmap && status == CheckCondition(MediumError)
            && BlocksAccepted(t.luns[unit].store.c, size, offset, BlockCount(tl, size)) ==>
      Caused(t, unit, offset, tl)
  {
    if unmap {
      return CheckCondition(HardwareError);
    }
    WriteSameEndsIff(tl, size);
    if tl % size != 0 {
      return Hung;
    }
    ghost var disk, buf := UnitDisk(t, unit), out[..];
    status := WriteBlocks(t, unit, out, tl, size, stamp, offset);
    hide Filling;
    hide BlocksAccepted;
    FilledMeaning(disk, UnitDisk(t, unit), buf, stamp, size, offset, tl, status == Good);
  }

  /** The command's buffer as it was, or with a stamp on it. */
  ghost predicate StampedOver(buf: seq<byte>, now: seq<byte>, stamp: Stamp)
    requires StampLen(stamp) <= |buf|
  {
    now == buf || exists earlier: nat :: now == Stamped(buf, stamp, earlier)
  }

  lemma StampedOverAgain(buf: seq<byte>, now: seq<byte>, stamp: Stamp, size: nat, offset: nat)
    requires StampLen(stamp) <= |buf| && size <= |buf| && StampedOver(buf, now, stamp)
    ensures |now| == |buf|
    ensures StampedOver(buf, Stamped(now, stamp, offset), stamp)
    ensures Block(now, stamp, size, offset) == Block(buf, stamp, size, offset)
  {
    hide StampBytes;
    if now == buf {
      StampedAgain(buf, now, stamp, size, 0, offset);
    } else {
      var earlier: nat :| now == Stamped(buf, stamp, earlier);
      StampedAgain(buf, now, stamp, size, earlier, offset);
    }
  }

  /** One turn of the loop as a step of the filling: block n, which begins at `at`. */
  method FillTurn(t: Table, unit: nat, out: array<byte>, size: nat, stamp: Stamp, at: nat, ghost disk: seq<byte>,
                  ghost buf: seq<byte>, ghost offset: nat, ghost n: nat, ghost all: bool)
    returns (ok: bool)
    requires t.Opened(unit) && at + size < U64 && size <= |buf| && StampLen(stamp) <= |buf| == out.Length
    requires at == offset + n * size && StampedOver(buf, out[..], stamp)
    requires Filling(disk, UnitDisk(t, unit), buf, stamp, size, offset, n, all)
    requires n == 0 ==> UnitDisk(t, unit) == disk
    modifies t.k, t.luns, out
    ensures t.Opened(unit) && t.luns[unit].store == old(t.luns[unit].store) && t.k.errors >= old(t.k.errors)
    ensures StampedOver(buf, out[..], stamp)
    ensures Filling(disk, UnitDisk(t, unit), buf, stamp, size, offset, n + 1, all && ok)
    ensures !ok && Accepted(t, unit, at, size) ==> Caused(t, unit, at, size)
    ensures t.k.troubles >= old(t.k.troubles) && NamesKept(old(t.k.fs), t.k.fs)
  {
    hide Table.Valid;
    hide UnitDisk;
    hide Filling;
    hide Collection.Accepts;
    hide SomeDenied;
    hide NamesKept;
    hide Stamped;
    hide StampedOver;
    hide Block;
    hide Overlaid;
    hide AtMostLaid;
    StampedOverAgain(buf, out[..], stamp, size, at);
    ghost var mid := UnitDisk(t, unit);
    ok := WriteSameTurn(t, unit, out, size, stamp, at);
    FillingTurns(disk, mid, UnitDisk(t, unit), buf, stamp, size, offset, n, at, all, ok);
  }

  lemma StampedOverFirst(buf: seq<byte>, stamp: Stamp)
    requires StampLen(stamp) <= |buf|
    ensures StampedOver(buf, buf, stamp)
  {
  }

  /** The loop of WRITE SAME. */
  method WriteBlocks(t: Table, unit: nat, out: array<byte>, tl: nat, size: nat, stamp: Stamp, offset: nat)
    returns (status: Status)
    requires t.Opened(unit) && offset + tl < U64 && tl < U32 && size > 0 && tl % size == 0
    requires size <= out.Length && StampLen(stamp) <= out.Length
    modifies t.k, t.luns, out
    ensures t.Opened(unit) && t.luns[unit].store == old(t.luns[unit].store) && t.k.errors >= old(t.k.errors)
    ensures status == Good || status == CheckCondition(MediumError)
    ensures Filling(old(UnitDisk(t, unit)), UnitDisk(t, unit), old(out[..]), stamp, size, offset,
                    BlockCount(tl, size), status == Good)
    ensures status == CheckCondition(MediumError)
            && BlocksAccepted(t.luns[unit].store.c, size, offset, BlockCount(tl, size)) ==>
      Caused(t, unit, offset, tl)
  {
    ghost var disk, buf, c := UnitDisk(t, unit), out[..], t.luns[unit].store.c;
    assert c.Valid();
    hide Table.Valid;
    hide Collection.Valid;
    hide UnitDisk;
    hide Filling;
    hide BlocksAccepted;
    hide Collection.Accepts;
    hide SomeDenied;
    hide NamesKept;
    hide Spans;
    hide Stamped;
    hide StampedOver;
    hide Minus32;
    hide BlockCount;
    hide RowAt;
    ghost var store, errors, troubles, fs0 := t.luns[unit].store, t.k.errors, t.k.troubles, t.k.fs;
    ghost var accepted := BlocksAccepted(c, size, offset, BlockCount(tl, size));
    ghost var trouble := false;
    Unmoved(fs0);
    RowsStart(tl, size, offset);
    StampedOverFirst(buf, stamp);
    status := Good;
    var left: nat, at: nat := tl, offset;
    ghost var n: nat, all := 0, true;
    FillingStarts(disk, buf, stamp, size, offset);
    while left > 0
      invariant t.Opened(unit) && t.luns[unit].store == store && t.k.errors >= errors
      invariant t.k.troubles >= troubles && trouble == (t.k.troubles > troubles) && NamesKept(fs0, t.k.fs)
      invariant RowAt(tl, size, offset, n, left, at)
      invariant StampedOver(buf, out[..], stamp)
      invariant Filling(disk, UnitDisk(t, unit), buf, stamp, size, offset, n, all)
      invariant n == 0 ==> UnitDisk(t, unit) == disk
      invariant status == if all then Good else CheckCondition(MediumError)
      invariant !all && accepted ==>
        t.k.errors > errors || SomeDenied(fs0, c, trouble, offset, tl)
      decreases left
    {
      RowTurns(tl, size, offset, n, left, at);
      ghost var fs, soFar := t.k.fs, t.k.troubles;
      BlockAccepted(c, size, offset, BlockCount(tl, size), n, at);
      var ok := FillTurn(t, unit, out, size, stamp, at, disk, buf, offset, n, all);
      ghost var now := t.k.troubles > soFar;
      DeniedInBlock(fs0, fs, t.k.fs, c, now, trouble, trouble || now, offset, tl, at, size);
      trouble := trouble || now;
      if !ok {
        status := CheckCondition(MediumError);
      }
      all, n := all && ok, n + 1;
      at := at + size;
      left := Minus32(left, size);
    }
    RowsEnd(tl, size, offset, n, at);
  }

  /** What is denied in a block, or was in an earlier one, is denied in the range. */
  lemma DeniedInBlock(fs: Fs, mid: Fs, fs': Fs, c: Collection, now: bool, before: bool, ever: bool,
                      offset: nat, tl: nat, at: nat, size: nat)
    requires c.Valid() && NamesKept(fs, mid) && NamesKept(mid, fs') && (now || before ==> ever)
    requires offset <= at && at + size <= offset + tl
    ensures SomeDenied(mid, c, now, at, size) || SomeDenied(fs, c, before, offset, tl) ==>
      SomeDenied(fs, c, ever, offset, tl)
    ensures NamesKept(fs, fs')
  {
    if SomeDenied(mid, c, now, at, size) {
      DeniedEarlier(fs, mid, c, now, ever, offset, tl, at, size);
    } else if SomeDenied(fs, c, before, offset, tl) {
      DeniedEarlier(fs, fs, c, before, ever, offset, tl, offset, tl);
    }
  }

  lemma FillingStarts(disk: seq<byte>, buf: seq<byte>, stamp: Stamp, size: nat, offset: nat)
    requires StampLen(stamp) <= |buf| && size <= |buf|
    ensures Filling(disk, disk, buf, stamp, size, offset, 0, true)
  {
  }

  /** The loop's position before block n. */
  ghost predicate RowAt(tl: nat, size: nat, offset: nat, n: nat, left: nat, at: nat)
    requires size > 0
  {
    n <= BlockCount(tl, size) && n * size + left == tl && at == offset + n * size
  }

  lemma RowsStart(tl: nat, size: nat, offset: nat)
    requires size > 0
    ensures RowAt(tl, size, offset, 0, tl, offset)
  {
    DivMod(tl, size);
  }

  lemma RowTurns(tl: nat, size: nat, offset: nat, n: nat, left: nat, at: nat)
    requires tl < U32 && size > 0 && tl % size == 0 && left > 0 && RowAt(tl, size, offset, n, left, at)
    ensures n < BlockCount(tl, size) && left >= size
    ensures at == offset + n * size && offset <= at && at + size <= offset + tl
    ensures Minus32(left, size) == left - size
    ensures RowAt(tl, size, offset, n + 1, left - size, at + size)
  {
    DivMod(tl, size);
    MulCancel(n, BlockCount(tl, size), size);
    RowsApart(n, BlockCount(tl, size), size);
    assert (n + 1) * size == n * size + size;
  }

  lemma RowsEnd(tl: nat, size: nat, offset: nat, n: nat, at: nat)
    requires size > 0 && tl % size == 0 && RowAt(tl, size, offset, n, 0, at)
    ensures n == BlockCount(tl, size)
  {
    DivMod(tl, size);
    if n < BlockCount(tl, size) {
      RowsApart(n, BlockCount(tl, size), size);
    }
  }
}
