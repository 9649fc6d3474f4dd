/** The table of logical units: tagged pointers, opening, closing, and the dispatch of reads and writes. */
module LunTable {
  import opened Bytes
  import opened Naming
  import opened FileSystem
  import opened Placement
  import opened Geometry
  import opened ObjectOps
  import opened ObjectStore

  const NB_MAX_LUN := 20
  const MAX_NAME_SIZE := 256

  // ---------- tagged pointers ----------

  function ValPointer(p: bv64): bv64 {
    p & 0x0FFF_FFFF_FFFF_FFF8
  }

  function UseLun(p: bv64): bv64 {
    (p & 0x0FFF_FFFF_FFFF_FFF8) | 1
  }

  function FreeLun(p: bv64): bv64 {
    (p & 0x0FFF_FFFF_FFFF_FFF8) | 0
  }

  predicate IsFree(p: bv64) {
    p & 1 == 0
  }

  /** An address the macros can carry: 8-aligned and below 2^60. */
  predicate Taggable(p: bv64) {
    p != 0 && p & 7 == 0 && p < 0x1000_0000_0000_0000
  }

  /** Masking an address changes nothing exactly when the macros can carry it. */
  lemma TaggableIffKept(p: bv64)
    ensures p & 0x0FFF_FFFF_FFFF_FFF8 == p <==> (p & 7 == 0 && p < 0x1000_0000_0000_0000)
  {
  }

  lemma MaskKeepsAddress(p: bv64)
    ensures ((p & 0x0FFF_FFFF_FFFF_FFF8) | 1) & 0x0FFF_FFFF_FFFF_FFF8 == p & 0x0FFF_FFFF_FFFF_FFF8
    ensures ((p & 0x0FFF_FFFF_FFFF_FFF8) | 0) & 0x0FFF_FFFF_FFFF_FFF8 == p & 0x0FFF_FFFF_FFFF_FFF8
  {
  }

  lemma MaskFreesTag(p: bv64)
    ensures ((p & 0x0FFF_FFFF_FFFF_FFF8) | 1) & 1 == 1
    ensures ((p & 0x0FFF_FFFF_FFFF_FFF8) | 0) & 1 == 0
    ensures ((p & 0x0FFF_FFFF_FFFF_FFF8) | 1) != 0
    ensures p & 0x0FFF_FFFF_FFFF_FFF8 != 0 ==> (p & 0x0FFF_FFFF_FFFF_FFF8) | 0 != 0
  {
  }

  /** Tagging keeps a taggable address and sets exactly the state bit. */
  lemma TagsRoundTrip(p: bv64)
    ensures ValPointer(p) == p && p != 0 <==> Taggable(p)
    ensures ValPointer(UseLun(p)) == ValPointer(p) && ValPointer(FreeLun(p)) == ValPointer(p)
    ensures !IsFree(UseLun(p)) && IsFree(FreeLun(p)) && UseLun(p) != 0
    ensures ValPointer(p) != 0 ==> FreeLun(p) != 0
  {
    TaggableIffKept(p);
    MaskKeepsAddress(p);
    MaskFreesTag(p);
  }

  // ---------- the table as a sequence of words ----------

  /**
   * Slots are filled from the front, each with memory allocated for it once: a slot's word is the
   * address of its block, tagged, and no two blocks share an address.
   */
  ghost predicate SlotsOk(words: seq<bv64>, addresses: seq<bv64>) {
    && |words| == NB_MAX_LUN && |addresses| <= |words|
    && (forall i :: 0 <= i < |words| ==> (words[i] != 0 <==> i < |addresses|))
    && (forall i :: 0 <= i < |addresses| ==> addresses[i] == ValPointer(words[i]) && Taggable(addresses[i]))
    && (forall i, j :: 0 <= i < j < |addresses| ==> addresses[i] != addresses[j])
  }

  predicate Available(word: bv64) {
    word == 0 || IsFree(word)
  }

  function UsedSlots(words: seq<bv64>): (n: nat)
    ensures n <= |words|
  {
    if words == [] then 0
    else UsedSlots(words[..|words| - 1]) + (if Available(words[|words| - 1]) then 0 else 1)
  }

  lemma {:induction false} UsedSlotsUpdated(words: seq<bv64>, i: nat, word: bv64)
    requires i < |words|
    ensures UsedSlots(words[i := word]) + (if Available(words[i]) then 0 else 1)
         == UsedSlots(words) + (if Available(word) then 0 else 1)
  {
    var n := |words| - 1;
    if i == n {
      assert words[i := word][..n] == words[..n];
    } else {
      assert words[i := word][..n] == words[..n][i := word];
      UsedSlotsUpdated(words[..n], i, word);
    }
  }

  lemma {:induction false} AllUsedIff(words: seq<bv64>)
    ensures UsedSlots(words) == |words| <==> forall i :: 0 <= i < |words| ==> !Available(words[i])
  {
    if words != [] {
      var n := |words| - 1;
      AllUsedIff(words[..n]);
      assert forall i :: 0 <= i < n ==> words[..n][i] == words[i];
    }
  }

  /** The first slot that is empty or free, if there is one. */
  ghost predicate FirstAvailable(words: seq<bv64>, i: nat) {
    i < |words| && Available(words[i]) && forall j :: 0 <= j < i ==> !Available(words[j])
  }

  /** The addresses after a claim: one more if the slot never had memory. */
  function Claimed(addresses: seq<bv64>, i: nat, address: bv64): seq<bv64> {
    if i < |addresses| then addresses else addresses + [address]
  }

  /** Claiming the first available slot keeps the table in order and every block where it is. */
  lemma ClaimOk(words: seq<bv64>, addresses: seq<bv64>, i: nat, address: bv64)
    requires SlotsOk(words, addresses) && FirstAvailable(words, i)
    requires Taggable(address) && address !in addresses
    ensures i <= |addresses| && (words[i] == 0 <==> i == |addresses|)
    ensures var word := if i < |addresses| then words[i] else address;
            && SlotsOk(words[i := UseLun(word)], Claimed(addresses, i, address))
            && UsedSlots(words[i := UseLun(word)]) == UsedSlots(words) + 1
  {
    assert |addresses| < |words| ==> Available(words[|addresses|]);
    var word := if i < |addresses| then words[i] else address;
    TagsRoundTrip(word);
    UsedSlotsUpdated(words, i, UseLun(word));
    hide ValPointer;
    hide UseLun;
  }

  lemma ReleaseOk(words: seq<bv64>, addresses: seq<bv64>, i: nat)
    requires SlotsOk(words, addresses) && i < |addresses|
    ensures SlotsOk(words[i := FreeLun(words[i])], addresses)
    ensures UsedSlots(words[i := FreeLun(words[i])]) + (if IsFree(words[i]) then 0 else 1) == UsedSlots(words)
  {
    TagsRoundTrip(words[i]);
    TagsRoundTrip(addresses[i]);
    UsedSlotsUpdated(words, i, FreeLun(words[i]));
    hide ValPointer;
    hide FreeLun;
  }

  // ---------- logical units ----------

  /** What the metadata service answers about a volume. */
  datatype Metadata =
    | Unavailable
    | Volume(nbObjects: nat, objectSize: nat, startOid: seq<byte>, nodes: seq<Node>, isFs: bool)
  {
    function AsCollection(root: string, path: string): Collection
      requires Volume?
    {
      Collection(root, CollectionName(path), objectSize, nbObjects, startOid, nodes)
    }
  }

  /** `snprintf` into a name buffer. */
  function CollectionName(path: string): string {
    if |path| < MAX_NAME_SIZE then path else path[..MAX_NAME_SIZE - 1]
  }

  /** Two paths give one collection name exactly if their first 255 characters agree; below 256 the path is the name. */
  lemma CollectionNameIs(path: string, other: string)
    ensures CollectionName(path) == path[..Min(|path|, 255)]
    ensures CollectionName(path) == CollectionName(other) <==>
      path[..Min(|path|, 255)] == other[..Min(|other|, 255)]
    ensures |path| < 256 && |other| < 256 ==> (CollectionName(path) == CollectionName(other) <==> path == other)
  {
    assert |path| <= 255 ==> path[..|path|] == path;
    assert |other| <= 255 ==> other[..|other|] == other;
  }

  /** What readers and writers see of a unit: its collection, of object size 0 at first, and its flag. */
  datatype Unit = Unit(c: Collection, isFs: bool)

  function BlankUnit(root: string): Unit {
    Unit(Collection(root, "", 0, 0, Zeros(OID_LEN), []), false)
  }

  /** A unit after an open: the metadata replace it, whatever they say, unless there are none. */
  function Reopened(before: Unit, root: string, path: string, info: Metadata): Unit {
    if info.Volume? then Unit(info.AsCollection(root, path), info.isFs) else before
  }

  /** The unit shows what the metadata say of the volume at a path. */
  ghost predicate ShowsVolume(u: Unit, root: string, path: string, info: Metadata)
    requires info.Volume?
  {
    && u.c.root == root && u.c.name == path[..Min(|path|, 255)]
    && u.c.nbObjects == info.nbObjects && u.c.objectSize == info.objectSize
    && u.c.startOid == info.startOid && u.c.nodes == info.nodes
    && u.isFs == info.isFs
  }

  /**
   * The units after an open that claimed slot `index`: the others as they were, this one showing the volume,
   * and without metadata as it was, or without an object size if the slot is new.
   */
  ghost predicate OpenedAt(units: seq<Unit>, units': seq<Unit>, index: nat, root: string, path: string, info: Metadata)
  {
    && index <= |units| && |units'| == (if index < |units| then |units| else |units| + 1)
    && (forall j :: 0 <= j < |units| && j != index ==> units'[j] == units[j])
    && (info.Volume? ==> ShowsVolume(units'[index], root, path, info))
    && (info.Unavailable? ==>
          if index < |units| then units'[index] == units[index]
          else units'[index].c.objectSize == 0 && !units'[index].isFs)
  }

  lemma UnitsOpenedMeaning(before: seq<Unit>, index: nat, root: string, path: string, info: Metadata)
    requires index <= |before|
    ensures OpenedAt(before, UnitsOpened(before, index, root, path, info), index, root, path, info)
  {
    CollectionNameIs(path, path);
    hide CollectionName;
  }

  /** The units after an open that claimed slot `index`, the first that never had memory or one that has. */
  function UnitsOpened(before: seq<Unit>, index: nat, root: string, path: string, info: Metadata): seq<Unit> {
    if index < |before| then before[index := Reopened(before[index], root, path, info)]
    else before + [Reopened(BlankUnit(root), root, path, info)]
  }

  /** `osd_lun_t`; it has a store exactly if its collection has a geometry the store can serve. */
  class Lun {
    var lunIndex: nat
    var volume: string
    var ioFlag: int
    var blockSize: nat
    var capacity: nat
    var isFsDone: bool
    var collection: Collection
    var store: Store?

    constructor (root: string, index: nat)
      ensures lunIndex == index && AsUnit() == BlankUnit(root)
      ensures forall k: Kernel :: StoreOk(k, root)
    {
      lunIndex, volume, ioFlag, blockSize, capacity, isFsDone, store := index, "", 0, 0, 0, false, null;
      collection := BlankUnit(root).c;
    }

    ghost function AsUnit(): Unit
      reads this
    {
      Unit(collection, isFsDone)
    }

    ghost predicate StoreOk(k: Kernel, root: string)
      reads this
    {
      && collection.root == root && (store != null <==> collection.Valid())
      && (store != null ==> store.k == k && !store.recache && store.Made() && store.c == collection)
    }

    /** `simpleOSD_get_lun_info` with `osd_init_collection`. */
    method Fill(k: Kernel, root: string, path: string, oflag: int, info: Metadata) returns (ok: bool)
      requires k.fs.Valid() && StoreOk(k, root)
      modifies this
      ensures StoreOk(k, root) && AsUnit() == Reopened(old(AsUnit()), root, path, info)
      ensures lunIndex == old(lunIndex) && volume == path && ioFlag == oflag
      ensures ok <==> info.Volume? && info.objectSize > 0
      ensures ok ==> capacity == info.nbObjects * info.objectSize % U64 && blockSize == 4096
    {
      hide Fits;
      volume, ioFlag := path, oflag;
      if info.Unavailable? {
        return false;
      }
      capacity, isFsDone := info.nbObjects * info.objectSize % U64, info.isFs;
      collection, store, blockSize := info.AsCollection(root, path), null, 4096;
      if collection.Valid() {
        var served := new Store(k, collection, false);
        store := served;
      }
      ok := info.objectSize > 0;
    }

    /** `osd_free_collection`: a unit without a store has no handles either. */
    method Release(k: Kernel, root: string) returns (ok: bool)
      requires k.fs.Valid() && StoreOk(k, root)
      modifies k
      ensures ok && unchanged(k)
    {
      ok := true;
      if store != null {
        NoSlotsOk(k.fs, store.c);
        store.CoherentClosable();
        ok := store.FreeCollection(k.fs.fds);
      }
    }
  }

  /** The global table, in the default build: no handle cache. */
  class Table {
    const k: Kernel
    const root: string
    var words: seq<bv64>
    var addresses: seq<bv64>  // what `malloc` returned, in order
    var luns: seq<Lun>        // the structures at those addresses
    ghost var opens: nat      // opens that succeeded
    ghost var claims: nat     // opens that failed after claiming a slot
    ghost var closes: nat     // closes of used slots

    constructor (k: Kernel, root: string)
      requires k.fs.Valid()
      ensures Valid() && this.k == k && this.root == root && luns == []
      ensures UsedSlots(words) == 0 && opens == claims == closes == 0
    {
      this.k, this.root := k, root;
      words, addresses, luns := seq(NB_MAX_LUN, _ => 0), [], [];
      opens, claims, closes := 0, 0, 0;
      new;
      NoneUsed(words);
    }

    /** Used slots are those opened, or claimed in vain, and not closed since. */
    ghost predicate Valid()
      reads this, k, luns
    {
      && k.fs.Valid() && SlotsOk(words, addresses) && |luns| == |addresses|
      && (forall i :: 0 <= i < |luns| ==> luns[i].lunIndex == i && luns[i].StoreOk(k, root))
      && (forall i, j :: 0 <= i < j < |luns| ==> luns[i] != luns[j])
      && UsedSlots(words) + closes == opens + claims
    }

    ghost function Units(): (us: seq<Unit>)
      reads this, luns
      ensures |us| == |luns|
      ensures forall i :: 0 <= i < |us| ==> us[i] == luns[i].AsUnit()
    {
      seq(|luns|, i requires 0 <= i < |luns| reads this, luns => luns[i].AsUnit())
    }

    /** A slot in which an open has put a geometry that the store can serve. */
    ghost predicate Opened(i: nat)
      reads this, k, luns
    {
      Valid() && i < |luns| && luns[i].store != null
    }

    /** The scan for a slot. */
    method FindSlot() returns (next: nat)
      requires Valid()
      ensures next < NB_MAX_LUN ==> FirstAvailable(words, next)
      ensures next >= NB_MAX_LUN <==> UsedSlots(words) == NB_MAX_LUN
      ensures next <= NB_MAX_LUN
    {
      next := 0;
      while next < NB_MAX_LUN && words[next] != 0
        invariant next <= NB_MAX_LUN
        invariant forall j :: 0 <= j < next ==> !Available(words[j])
      {
        if IsFree(words[next]) {
          break;
        }
        next := next + 1;
      }
      AllUsedIff(words);
    }

    /** The words after a claim of slot `index`. */
    function WordsClaimed(index: nat, address: bv64): seq<bv64>
      requires index < |words|
      reads this
    {
      words[index := UseLun(if index < |addresses| then words[index] else address)]
    }

    /** The claim: memory for a slot that never had any, and the state bit. It counts as failed until it succeeds. */
    method ClaimSlot(index: nat, address: bv64)
      requires Valid() && FirstAvailable(words, index) && Taggable(address) && address !in addresses
      modifies this
      ensures Valid() && index < |luns|
      ensures words == old(WordsClaimed(index, address))
      ensures addresses == Claimed(old(addresses), index, address)
      ensures UsedSlots(words) == UsedSlots(old(words)) + 1
      ensures opens == old(opens) && claims == old(claims) + 1 && closes == old(closes)
      ensures old(luns) <= luns && forall i :: |old(luns)| <= i < |luns| ==> fresh(luns[i])
      ensures Units() == if index < |old(luns)| then old(Units()) else old(Units()) + [BlankUnit(root)]
    {
      ClaimOk(words, addresses, index, address);
      hide SlotsOk;
      hide FirstAvailable;
      hide UsedSlots;
      hide UseLun;
      hide Taggable;
      hide Lun.StoreOk;
      hide BlankUnit;
      var word := words[index];
      if word == 0 {
        var lun := new Lun(root, index);
        addresses, luns := addresses + [address], luns + [lun];
        word := address;
      }
      words := words[index := UseLun(word)];
      claims := claims + 1;
      assert forall i :: 0 <= i < |old(luns)| ==> luns[i].AsUnit() == old(luns[i].AsUnit());
    }

    /** The unit just claimed gets its metadata; the claim counts as an open if they are good. */
    method FillUnit(index: nat, path: string, oflag: int, info: Metadata) returns (ok: bool)
      requires Valid() && index < |luns| && claims > 0
      modifies `opens, `claims, luns[index]
      ensures Valid() && k.fs == old(k.fs)
      ensures ok <==> info.Volume? && info.objectSize > 0
      ensures luns[index].volume == path && luns[index].ioFlag == oflag
      ensures opens == old(opens) + (if ok then 1 else 0) && claims == old(claims) - (if ok then 1 else 0)
      ensures Units() == old(Units())[index := Reopened(old(Units())[index], root, path, info)]
      ensures ok ==> luns[index].capacity == info.nbObjects * info.objectSize % U64 && luns[index].blockSize == 4096
    {
      hide SlotsOk;
      hide UsedSlots;
      hide Lun.StoreOk;
      hide Lun.AsUnit;
      hide Reopened;
      ok := luns[index].Fill(k, root, path, oflag, info);
      if ok {
        claims, opens := claims - 1, opens + 1;
      }
    }

    /** The part of an open after the scan. */
    method OpenSlot(index: nat, path: string, oflag: int, info: Metadata, address: bv64) returns (ok: bool)
      requires Valid() && FirstAvailable(words, index) && Taggable(address) && address !in addresses
      modifies this, luns
      ensures Valid() && k.fs == old(k.fs) && index < |luns| && index <= |old(Units())|
      ensures words == old(WordsClaimed(index, address)) && addresses == Claimed(old(addresses), index, address)
      ensures UsedSlots(words) == UsedSlots(old(words)) + 1
      ensures ok <==> info.Volume? && info.objectSize > 0
      ensures luns[index].volume == path && luns[index].ioFlag == oflag
      ensures opens == old(opens) + (if ok then 1 else 0) && claims == old(claims) + (if ok then 0 else 1)
      ensures closes == old(closes) && Units() == UnitsOpened(old(Units()), index, root, path, info)
      ensures ok ==> luns[index].capacity == info.nbObjects * info.objectSize % U64 && luns[index].blockSize == 4096
      ensures old(luns) <= luns && forall i :: |old(luns)| <= i < |luns| ==> fresh(luns[i])
    {
      hide SlotsOk;
      hide UsedSlots;
      hide UseLun;
      hide Taggable;
      hide Lun.StoreOk;
      hide Lun.AsUnit;
      hide Reopened;
      ClaimSlot(index, address);
      hide Valid;
      hide Units;
      ok := FillUnit(index, path, oflag, info);
    }

    /**
     * `simpleOSD_lun_open`; `address` is what `malloc` returns if it is called. An open whose metadata
     * are missing or without an object size fails, and still keeps the slot it claimed.
     */
    method Open(path: string, oflag: int, info: Metadata, address: bv64)
      returns (ok: bool, size: nat, blockSize: nat, index: nat)
      requires Valid() && Taggable(address) && address !in addresses
      modifies this, luns
      ensures Valid() && k.fs == old(k.fs)
      ensures index == NB_MAX_LUN <==> UsedSlots(old(words)) == NB_MAX_LUN
      ensures index == NB_MAX_LUN ==> !ok && unchanged(this) && unchanged(luns)
      ensures index != NB_MAX_LUN ==>
        && FirstAvailable(old(words), index) && index < |luns|
        && words == old(WordsClaimed(index, address)) && addresses == Claimed(old(addresses), index, address)
        && UsedSlots(words) == UsedSlots(old(words)) + 1
        && (ok <==> info.Volume? && info.objectSize > 0)
        && luns[index].volume == path && luns[index].ioFlag == oflag
        && opens == old(opens) + (if ok then 1 else 0) && claims == old(claims) + (if ok then 0 else 1)
        && closes == old(closes) && OpenedAt(old(Units()), Units(), index, root, path, info)
      ensures ok ==> size == info.nbObjects * info.objectSize % U64 && blockSize == 4096
      ensures old(luns) <= luns && forall i :: |old(luns)| <= i < |luns| ==> fresh(luns[i])
    {
      size, blockSize := 0, 0;
      index := FindSlot();
      hide *;
      if index >= NB_MAX_LUN {
        return false, 0, 0, index;
      }
      ok := OpenSlot(index, path, oflag, info, address);
      UnitsOpenedMeaning(old(Units()), index, root, path, info);
      if ok {
        size, blockSize := luns[index].capacity, luns[index].blockSize;
      }
    }

    /** `simpleOSD_lun_close`, of a unit in use or not. */
    method Close(index: nat) returns (ok: bool)
      requires Valid() && index < |luns|
      modifies this, k
      ensures Valid() && k.fs == old(k.fs) && luns == old(luns) && addresses == old(addresses)
      ensures Units() == old(Units())
      ensures ok && words == old(words)[index := FreeLun(old(words)[index])]
      ensures opens == old(opens) && claims == old(claims)
      ensures closes == old(closes) + (if IsFree(old(words)[index]) then 0 else 1)
      ensures UsedSlots(words) + (if IsFree(old(words)[index]) then 0 else 1) == UsedSlots(old(words))
    {
      ReleaseOk(words, addresses, index);
      hide SlotsOk;
      hide UsedSlots;
      hide FreeLun;
      hide IsFree;
      hide Lun.StoreOk;
      hide Lun.AsUnit;
      ok := luns[index].Release(k, root);
      if !IsFree(words[index]) {
        closes := closes + 1;
      }
      words := words[index := FreeLun(words[index])];
    }
  }

  lemma {:induction false} NoneUsed(words: seq<bv64>)
    requires forall i :: 0 <= i < |words| ==> words[i] == 0
    ensures UsedSlots(words) == 0
  {
    if words != [] {
      NoneUsed(words[..|words| - 1]);
    }
  }
}
