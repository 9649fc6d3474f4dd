/**
 * Fetching as threads see it: 256 mutexes shared by all volumes, a first look at the file outside
 * the lock, a second one inside, then create and allocate, in every interleaving.
 */
module FetchProtocol {
  import opened Bytes

  const MAX_GET_OBJECT_LOCK := 256

  datatype File = File(volume: string, index: nat)

  function Stripe(f: File): nat {
    f.index % MAX_GET_OBJECT_LOCK
  }

  /** Where a thread stands, between two calls that others can see. */
  datatype Pc =
    | Idle
    | Looking(f: File)                    // about to stat, outside the lock
    | Waiting(f: File)                    // about to lock
    | Locked(f: File)                     // about to stat, inside the lock
    | Creating(f: File)                   // about to open with O_CREAT
    | Allocating(f: File, made: bool)   // about to fallocate
    | Unlocking(f: File, ok: bool)        // about to unlock
    | Opening(f: File)                    // about to open for input and output
    | Using(f: File)                      // transferring bytes
  {
    /** Past the point where the file was seen or made. */
    predicate HasFile() {
      Using? || Opening? || (Unlocking? && ok) || (Allocating? && made)
    }

    predicate Holds() {
      Locked? || Creating? || Allocating? || Unlocking?
    }
  }

  /**
   * `files` is the directory, `written` what all writes so far, in order, would have left by themselves;
   * `starved` collects the files whose allocation failed.
   */
  datatype State = State(
    sizes: map<string, nat>,
    files: map<File, seq<byte>>,
    written: map<File, seq<byte>>,
    locks: map<nat, nat>,
    pcs: map<nat, Pc>,
    starved: set<File>)
  {
    function PcOf(t: nat): Pc {
      if t in pcs then pcs[t] else Idle
    }

    function Size(f: File): nat {
      if f.volume in sizes then sizes[f.volume] else 0
    }

    function Contents(f: File): seq<byte> {
      if f in files then files[f] else []
    }

    function Written(f: File): seq<byte> {
      if f in written then written[f] else []
    }

    function At(t: nat, pc: Pc): State {
      this.(pcs := pcs[t := pc])
    }
  }

  /** One call of one thread, with what the kernel answers. */
  datatype Action =
    | Begin(f: File)
    | StatOutside(seen: bool)
    | Lock
    | StatInside(seen: bool)
    | Create(ok: bool)
    | Allocate(ok: bool, reached: nat)
    | Unlock
    | Open(ok: bool)
    | Write(off: nat, data: seq<byte>)
    | Finish

  /** A call the thread may make now, with an answer the kernel may give now. */
  ghost predicate Enabled(s: State, t: nat, a: Action) {
    var pc := s.PcOf(t);
    match a
    case Begin(_) => pc.Idle?
    case StatOutside(seen) => pc.Looking? && (seen ==> pc.f in s.files)
    case Lock => pc.Waiting? && Stripe(pc.f) !in s.locks
    case StatInside(seen) => pc.Locked? && (seen ==> pc.f in s.files)
    case Create(_) => pc.Creating?
    case Allocate(ok, reached) =>
      pc.Allocating? && reached <= s.Size(pc.f) && (ok ==> pc.made && reached == s.Size(pc.f))
    case Unlock => pc.Unlocking?
    case Open(ok) => pc.Opening? && (ok ==> pc.f in s.files)
    case Write(off, data) => pc.Using? && off + |data| <= s.Size(pc.f)
    case Finish => pc.Using?
  }

  ghost function Do(s: State, t: nat, a: Action): State
    requires Enabled(s, t, a)
  {
    var pc := s.PcOf(t);
    match a
    case Begin(f) => s.At(t, Looking(f))
    case StatOutside(seen) => s.At(t, if seen then Opening(pc.f) else Waiting(pc.f))
    case Lock => s.(locks := s.locks[Stripe(pc.f) := t]).At(t, Locked(pc.f))
    case StatInside(seen) => s.At(t, if seen then Unlocking(pc.f, true) else Creating(pc.f))
    case Create(ok) =>
      if ok then s.(files := s.files[pc.f := s.Contents(pc.f)]).At(t, Allocating(pc.f, true))
      else s.At(t, Allocating(pc.f, false))
    case Allocate(ok, reached) =>
      var grown := if pc.made then s.(files := s.files[pc.f := Grow(s.Contents(pc.f), reached)]) else s;
      if ok then grown.At(t, Unlocking(pc.f, true))
      else grown.(starved := s.starved + {pc.f}).At(t, Unlocking(pc.f, false))
    case Unlock => s.(locks := s.locks - {Stripe(pc.f)}).At(t, if pc.ok then Opening(pc.f) else Idle)
    case Open(ok) => s.At(t, if ok then Using(pc.f) else Idle)
    case Write(off, data) =>
      s.(files := s.files[pc.f := WriteAt(s.Contents(pc.f), off, data)],
         written := s.written[pc.f := WriteAt(s.Written(pc.f), off, data)])
    case Finish => s.At(t, Idle)
  }

  /** Every thread idle, every lock free, every file there is of full length and all its bytes written. */
  ghost predicate Init(s: State) {
    && s.locks == map[] && s.starved == {}
    && (forall t :: t in s.pcs ==> s.pcs[t].Idle?)
    && s.written == s.files
    && forall f :: f in s.files ==> |s.files[f]| >= s.Size(f)
  }

  ghost predicate Legal(s: State, steps: seq<(nat, Action)>)
    decreases |steps|
  {
    steps != [] ==>
      && Enabled(s, steps[0].0, steps[0].1)
      && Legal(Do(s, steps[0].0, steps[0].1), steps[1..])
  }

  ghost function Exec(s: State, steps: seq<(nat, Action)>): State
    requires Legal(s, steps)
    decreases |steps|
  {
    if steps == [] then s else Exec(Do(s, steps[0].0, steps[0].1), steps[1..])
  }

  // ---------- the invariant ----------

  /** Locks and threads agree on who holds what. */
  ghost predicate LocksAgree(s: State) {
    && (forall t: nat :: s.PcOf(t).Holds() ==> Stripe(s.PcOf(t).f) in s.locks && s.locks[Stripe(s.PcOf(t).f)] == t)
    && (forall l :: l in s.locks ==> s.PcOf(s.locks[l]).Holds() && Stripe(s.PcOf(s.locks[l]).f) == l)
  }

  /** Every file shows exactly the bytes that were written to it, and zeros elsewhere. */
  ghost predicate NothingLost(s: State) {
    forall f, j: nat :: Bytes.At(s.Contents(f), j) == Bytes.At(s.Written(f), j)
  }

  /** A file is short only while its creator is about to allocate it, or since its allocation failed. */
  ghost predicate FullLength(s: State) {
    forall f :: f in s.files && |s.files[f]| < s.Size(f) ==>
      f in s.starved || exists t: nat :: s.PcOf(t) == Allocating(f, true)
  }

  ghost predicate UsersHaveFiles(s: State) {
    forall t: nat :: s.PcOf(t).HasFile() ==> s.PcOf(t).f in s.files
  }

  ghost predicate Inv(s: State) {
    LocksAgree(s) && NothingLost(s) && FullLength(s) && UsersHaveFiles(s)
  }

  /** A call leaves every other thread where it is. */
  lemma OthersStay(s: State, t: nat, a: Action, u: nat)
    requires Enabled(s, t, a) && u != t
    ensures Do(s, t, a).PcOf(u) == s.PcOf(u)
  {
  }

  /** After a call every thread between lock and unlock still has its mutex. */
  lemma HoldersStep(s: State, t: nat, a: Action, u: nat)
    requires LocksAgree(s) && Enabled(s, t, a)
    ensures var s' := Do(s, t, a);
            s'.PcOf(u).Holds() ==> Stripe(s'.PcOf(u).f) in s'.locks && s'.locks[Stripe(s'.PcOf(u).f)] == u
  {
    var s' := Do(s, t, a);
    if u != t && s'.PcOf(u).Holds() {
      OthersStay(s, t, a, u);
      assert s.PcOf(u).Holds();
    }
  }

  /** And every mutex that is taken still has its thread. */
  lemma TakenStep(s: State, t: nat, a: Action, l: nat)
    requires LocksAgree(s) && Enabled(s, t, a)
    ensures var s' := Do(s, t, a);
            l in s'.locks ==> s'.PcOf(s'.locks[l]).Holds() && Stripe(s'.PcOf(s'.locks[l]).f) == l
  {
    var s' := Do(s, t, a);
    if l in s'.locks && s'.locks[l] != t {
      OthersStay(s, t, a, s'.locks[l]);
    }
  }

  lemma LocksStep(s: State, t: nat, a: Action)
    requires LocksAgree(s) && Enabled(s, t, a)
    ensures LocksAgree(Do(s, t, a))
  {
    var s' := Do(s, t, a);
    forall u: nat | s'.PcOf(u).Holds()
      ensures Stripe(s'.PcOf(u).f) in s'.locks && s'.locks[Stripe(s'.PcOf(u).f)] == u
    {
      HoldersStep(s, t, a, u);
      hide Do;
    }
    forall l | l in s'.locks ensures s'.PcOf(s'.locks[l]).Holds() && Stripe(s'.PcOf(s'.locks[l]).f) == l {
      TakenStep(s, t, a, l);
      hide Do;
    }
  }

  /** Writing the same bytes at the same place keeps files and what was written in step. */
  lemma WriteInStep(file: seq<byte>, written: seq<byte>, off: nat, data: seq<byte>, j: nat)
    requires Bytes.At(file, j) == Bytes.At(written, j)
    ensures Bytes.At(WriteAt(file, off, data), j) == Bytes.At(WriteAt(written, off, data), j)
  {
    hide WriteAt;
  }

  /** A written file after the write: like what its writes left. */
  lemma ContentsWritten(s: State, t: nat, a: Action, f: File)
    requires Enabled(s, t, a) && a.Write?
    ensures var s', same := Do(s, t, a), f != s.PcOf(t).f;
            && s'.Contents(f) == (if same then s.Contents(f) else WriteAt(s.Contents(f), a.off, a.data))
            && s'.Written(f) == (if same then s.Written(f) else WriteAt(s.Written(f), a.off, a.data))
  {
    hide WriteAt;
  }

  /** A file after an allocation: as it was, or grown. */
  lemma ContentsGrown(s: State, t: nat, a: Action, f: File)
    requires Enabled(s, t, a) && a.Allocate?
    ensures var s' := Do(s, t, a);
            && s'.Written(f) == s.Written(f)
            && (s'.Contents(f) == s.Contents(f) || s'.Contents(f) == Grow(s.Contents(f), a.reached))
  {
    hide Grow;
    hide State.PcOf;
    hide State.Size;
  }

  /** Every other call leaves all files as they are. */
  lemma ContentsKept(s: State, t: nat, a: Action, f: File)
    requires Enabled(s, t, a) && !a.Write? && !a.Allocate?
    ensures Do(s, t, a).Written(f) == s.Written(f) && Do(s, t, a).Contents(f) == s.Contents(f)
  {
    hide State.PcOf;
    hide Stripe;
  }

  lemma BytesStep(s: State, t: nat, a: Action)
    requires NothingLost(s) && Enabled(s, t, a)
    ensures NothingLost(Do(s, t, a))
  {
    hide WriteAt;
    hide Grow;
    var s' := Do(s, t, a);
    forall f, j: nat ensures Bytes.At(s'.Contents(f), j) == Bytes.At(s'.Written(f), j) {
      assert Bytes.At(s.Contents(f), j) == Bytes.At(s.Written(f), j);
      if a.Write? {
        ContentsWritten(s, t, a, f);
        WriteInStep(s.Contents(f), s.Written(f), a.off, a.data, j);
      } else if a.Allocate? {
        ContentsGrown(s, t, a, f);
      } else {
        ContentsKept(s, t, a, f);
      }
      hide Do;
      hide State.Contents;
      hide State.Written;
    }
  }

  lemma UsersStep(s: State, t: nat, a: Action)
    requires UsersHaveFiles(s) && Enabled(s, t, a)
    ensures UsersHaveFiles(Do(s, t, a))
  {
    var s' := Do(s, t, a);
    forall u: nat | s'.PcOf(u).HasFile() ensures s'.PcOf(u).f in s'.files
    {
      if u != t {
        OthersStay(s, t, a, u);
      }
    }
  }

  lemma LengthStep(s: State, t: nat, a: Action)
    requires UsersHaveFiles(s) && FullLength(s) && Enabled(s, t, a)
    ensures FullLength(Do(s, t, a))
  {
    var s' := Do(s, t, a);
    forall f | f in s'.files && |s'.files[f]| < s'.Size(f)
      ensures f in s'.starved || exists u: nat :: s'.PcOf(u) == Allocating(f, true)
    {
      if a.Create? && a.ok && f == s.PcOf(t).f {
        assert s'.PcOf(t) == Allocating(f, true);
      } else if f !in s.starved {
        var u: nat :| s.PcOf(u) == Allocating(f, true);
        if u != t {
          OthersStay(s, t, a, u);
        }
      }
    }
  }

  lemma InvInitially(s: State)
    requires Init(s)
    ensures Inv(s)
  {
  }

  lemma {:induction false} InvAlways(s: State, steps: seq<(nat, Action)>)
    requires Inv(s) && Legal(s, steps)
    ensures Inv(Exec(s, steps))
    decreases |steps|
  {
    if steps != [] {
      var (t, a) := steps[0];
      LocksStep(s, t, a);
      BytesStep(s, t, a);
      UsersStep(s, t, a);
      LengthStep(s, t, a);
      InvAlways(Do(s, t, a), steps[1..]);
    }
  }

  // ---------- what holds in every run ----------

  /**
   * At most one thread is between lock and unlock for indices that are equal modulo 256, so for one file of
   * one volume.
   */
  lemma MutualExclusion(s: State, steps: seq<(nat, Action)>, t: nat, u: nat)
    requires Init(s) && Legal(s, steps)
    requires var now := Exec(s, steps);
             && now.PcOf(t).Holds() && now.PcOf(u).Holds()
             && now.PcOf(t).f.index % 256 == now.PcOf(u).f.index % 256
    ensures t == u
  {
    InvInitially(s);
    InvAlways(s, steps);
  }

  /**
   * And nothing else excludes: a waiting thread may lock exactly if no thread is between lock and unlock for
   * an index that is equal modulo 256.
   */
  lemma LockFreeIff(s: State, steps: seq<(nat, Action)>, t: nat)
    requires Init(s) && Legal(s, steps) && Exec(s, steps).PcOf(t).Waiting?
    ensures var now := Exec(s, steps);
            Enabled(now, t, Lock) <==>
              !exists u: nat :: now.PcOf(u).Holds() && now.PcOf(u).f.index % 256 == now.PcOf(t).f.index % 256
  {
    InvInitially(s);
    InvAlways(s, steps);
    var now := Exec(s, steps);
    var stripe := now.PcOf(t).f.index % 256;
    if stripe in now.locks {
      assert now.PcOf(now.locks[stripe]).Holds() && now.PcOf(now.locks[stripe]).f.index % 256 == stripe;
    }
  }

  /** No interleaving loses a byte that any thread wrote. */
  lemma NoLostBytes(s: State, steps: seq<(nat, Action)>, f: File, j: nat)
    requires Init(s) && Legal(s, steps)
    ensures Bytes.At(Exec(s, steps).Contents(f), j) == Bytes.At(Exec(s, steps).Written(f), j)
  {
    InvInitially(s);
    InvAlways(s, steps);
  }

  /** A mutex is taken only by a thread on its way to unlocking: whoever is idle, failed or done has none. */
  lemma LocksReleased(s: State, steps: seq<(nat, Action)>)
    requires Init(s) && Legal(s, steps)
    ensures var now := Exec(s, steps);
            && (forall l :: l in now.locks ==> now.PcOf(now.locks[l]).Holds())
            && ((forall t: nat :: now.PcOf(t).Idle?) ==> now.locks == map[])
  {
    InvInitially(s);
    InvAlways(s, steps);
    var now := Exec(s, steps);
    if forall t: nat :: now.PcOf(t).Idle? {
      assert forall l :: l in now.locks ==> now.PcOf(now.locks[l]).Idle?;
    }
  }

  /** Who is about to open a file, after a look at it or after a fetch, finds it there. */
  lemma OpenersHaveFiles(s: State, steps: seq<(nat, Action)>, t: nat)
    requires Init(s) && Legal(s, steps) && Exec(s, steps).PcOf(t).Opening?
    ensures Exec(s, steps).PcOf(t).f in Exec(s, steps).files
  {
    InvInitially(s);
    InvAlways(s, steps);
  }

  /**
   * In every run: after a fetch that succeeded the thread unlocks and can open its file, and after one that
   * failed it unlocks and gives up.
   */
  lemma FetchEnds(s: State, steps: seq<(nat, Action)>, t: nat)
    requires Init(s) && Legal(s, steps) && Exec(s, steps).PcOf(t).Unlocking?
    ensures var now := Exec(s, steps);
            var f := now.PcOf(t).f;
            if now.PcOf(t).ok then
              && Legal(now, [(t, Unlock), (t, Open(true))])
              && Exec(now, [(t, Unlock), (t, Open(true))]).PcOf(t) == Using(f)
            else
              && Legal(now, [(t, Unlock)])
              && Exec(now, [(t, Unlock)]).PcOf(t).Idle?
  {
    InvInitially(s);
    InvAlways(s, steps);
    var now := Exec(s, steps);
    var free := Do(now, t, Unlock);
    if now.PcOf(t).ok {
      var using := Do(free, t, Open(true));
      RunOne(free, using, t, Open(true), []);
      RunOne(now, free, t, Unlock, [(t, Open(true))]);
    } else {
      RunOne(now, free, t, Unlock, []);
    }
  }

  ghost predicate Begins(steps: seq<(nat, Action)>, t: nat) {
    exists k :: 0 <= k < |steps| && steps[k].0 == t && steps[k].1.Begin?
  }

  lemma BeginsLater(steps: seq<(nat, Action)>, t: nat)
    requires steps != []
    ensures Begins(steps[1..], t) ==> Begins(steps, t)
  {
    if k :| 0 <= k < |steps[1..]| && steps[1..][k].0 == t && steps[1..][k].1.Begin? {
      assert steps[k + 1] == steps[1..][k];
    }
  }

  /** Where a thread is after it saw its file, outside the lock or inside, until it starts on another. */
  predicate SawFile(pc: Pc) {
    pc.Opening? || pc.Using? || pc.Idle? || (pc.Unlocking? && pc.ok)
  }

  lemma SawFileStep(s: State, u: nat, a: Action, t: nat)
    requires SawFile(s.PcOf(t)) && Enabled(s, u, a) && (u == t ==> !a.Begin?)
    ensures SawFile(Do(s, u, a).PcOf(t))
    ensures u == t ==> a.Unlock? || a.Open? || a.Write? || a.Finish?
  {
    hide Grow;
    hide WriteAt;
  }

  /**
   * Who sees the file, at its first look or at the second one under the lock, neither creates nor allocates
   * nor locks before it starts on another file, whatever the others do.
   */
  lemma SeenNotCreated(s: State, t: nat, look: Action, rest: seq<(nat, Action)>, k: nat)
    requires look == StatOutside(true) || look == StatInside(true)
    requires Enabled(s, t, look) && Legal(Do(s, t, look), rest)
    requires k < |rest| && !Begins(rest[..k], t) && rest[k].0 == t
    ensures var a := rest[k].1; !a.Create? && !a.Allocate? && !a.Lock?
  {
    StaysAway(Do(s, t, look), t, rest, k);
  }

  lemma {:induction false} StaysAway(s: State, t: nat, rest: seq<(nat, Action)>, k: nat)
    requires SawFile(s.PcOf(t)) && Legal(s, rest)
    requires k < |rest| && !Begins(rest[..k], t) && rest[k].0 == t
    ensures var a := rest[k].1; !a.Create? && !a.Allocate? && !a.Lock?
    decreases k
  {
    var (u, a) := rest[0];
    if k > 0 {
      assert rest[..k][0] == rest[0];
      SawFileStep(s, u, a, t);
      BeginsLater(rest[..k], t);
      assert rest[1..][..k - 1] == rest[..k][1..];
      StaysAway(Do(s, u, a), t, rest[1..], k - 1);
    }
  }

  /** Where a thread goes when all its calls succeed and its file is not there, call by call. */
  lemma FetchSucceeds(s: State, t: nat, f: File) returns (steps: seq<(nat, Action)>)
    requires s.PcOf(t).Idle? && f !in s.files && f.index % 256 !in s.locks
    ensures steps == [(t, Begin(f)), (t, StatOutside(false)), (t, Lock), (t, StatInside(false)), (t, Create(true)),
                      (t, Allocate(true, s.Size(f))), (t, Unlock), (t, Open(true))]
    ensures Legal(s, steps) && Fetched(s, Exec(s, steps), t, f) && Exec(s, steps).locks == s.locks
  {
    var s1, s2 := s.At(t, Looking(f)), s.At(t, Looking(f)).At(t, Waiting(f));
    var rest, s' := LockedFetch(s2, t, f);
    RunOne(s1, s2, t, StatOutside(false), rest);
    RunOne(s, s1, t, Begin(f), [(t, StatOutside(false))] + rest);
    steps := [(t, Begin(f))] + ([(t, StatOutside(false))] + rest);
  }

  lemma LockedFetch(s: State, t: nat, f: File) returns (steps: seq<(nat, Action)>, s': State)
    requires s.PcOf(t) == Waiting(f) && f !in s.files && f.index % 256 !in s.locks
    ensures steps == [(t, Lock), (t, StatInside(false)), (t, Create(true)), (t, Allocate(true, s.Size(f))),
                      (t, Unlock), (t, Open(true))]
    ensures Legal(s, steps) && Exec(s, steps) == s' && Fetched(s, s', t, f) && s'.locks == s.locks
  {
    var s1 := Do(s, t, Lock);
    var s2 := Do(s1, t, StatInside(false));
    var rest;
    rest, s' := CreatedFile(s2, t, f);
    RunOne(s1, s2, t, StatInside(false), rest);
    RunOne(s, s1, t, Lock, [(t, StatInside(false))] + rest);
    steps := [(t, Lock)] + ([(t, StatInside(false))] + rest);
    hide Do;
    assert s'.locks == s.locks;
  }

  /** The thread has its file, full of zeros, and no other file differs. */
  ghost predicate Fetched(s: State, s': State, t: nat, f: File) {
    && s'.PcOf(t) == Using(f) && |s'.Contents(f)| >= s.Size(f)
    && (forall j: nat :: Bytes.At(s'.Contents(f), j) == 0)
    && s'.starved == s.starved && (forall g :: g != f ==> s'.Contents(g) == s.Contents(g))
  }

  lemma CreatedFile(s: State, t: nat, f: File) returns (rest: seq<(nat, Action)>, s': State)
    requires s.PcOf(t) == Creating(f) && f !in s.files
    ensures rest == [(t, Create(true)), (t, Allocate(true, s.Size(f))), (t, Unlock), (t, Open(true))]
    ensures Legal(s, rest) && Exec(s, rest) == s' && Fetched(s, s', t, f) && s'.locks == s.locks - {Stripe(f)}
  {
    var s1 := Do(s, t, Create(true));
    var more;
    more, s' := MadeFile(s1, t, f);
    RunOne(s, s1, t, Create(true), more);
    rest := [(t, Create(true))] + more;
  }

  lemma MadeFile(s: State, t: nat, f: File) returns (rest: seq<(nat, Action)>, s': State)
    requires s.PcOf(t) == Allocating(f, true) && f in s.files && s.Contents(f) == []
    ensures rest == [(t, Allocate(true, s.Size(f))), (t, Unlock), (t, Open(true))]
    ensures Legal(s, rest) && Exec(s, rest) == s' && Fetched(s, s', t, f) && s'.locks == s.locks - {Stripe(f)}
  {
    hide Grow;
    var s1 := Do(s, t, Allocate(true, s.Size(f)));
    var s2 := Do(s1, t, Unlock);
    s' := Do(s2, t, Open(true));
    RunOne(s2, s', t, Open(true), []);
    RunOne(s1, s2, t, Unlock, [(t, Open(true))]);
    RunOne(s, s1, t, Allocate(true, s.Size(f)), [(t, Unlock), (t, Open(true))]);
    rest := [(t, Allocate(true, s.Size(f))), (t, Unlock), (t, Open(true))];
  }

  /** A thread that finds the file under the lock unlocks and opens it. */
  lemma LateLookSucceeds(s: State, t: nat, f: File)
    requires s.PcOf(t) == Locked(f) && f in s.files
    ensures var steps := [(t, StatInside(true)), (t, Unlock), (t, Open(true))];
            Legal(s, steps) && Exec(s, steps).PcOf(t) == Using(f) && Exec(s, steps).files == s.files
  {
    var s1 := Do(s, t, StatInside(true));
    var s2 := Do(s1, t, Unlock);
    RunOne(s2, Do(s2, t, Open(true)), t, Open(true), []);
    RunOne(s1, s2, t, Unlock, [(t, Open(true))]);
    RunOne(s, s1, t, StatInside(true), [(t, Unlock), (t, Open(true))]);
  }

  /** A thread whose `open` and then, for want of a descriptor, `fallocate` fail unlocks and gives up. */
  lemma CreationFails(s: State, t: nat, f: File)
    requires s.PcOf(t) == Creating(f)
    ensures var steps := [(t, Create(false)), (t, Allocate(false, 0)), (t, Unlock)];
            && Legal(s, steps)
            && Exec(s, steps).PcOf(t).Idle? && Exec(s, steps).files == s.files
            && Exec(s, steps).locks == s.locks - {Stripe(f)}
  {
    var s1 := Do(s, t, Create(false));
    AllocationFails(s1, t, f, false, 0);
    RunOne(s, s1, t, Create(false), [(t, Allocate(false, 0)), (t, Unlock)]);
  }

  /** And so does one whose `fallocate` alone fails, however much it allocated. */
  lemma AllocationFails(s: State, t: nat, f: File, made: bool, reached: nat)
    requires s.PcOf(t) == Allocating(f, made) && reached <= s.Size(f)
    ensures var steps := [(t, Allocate(false, reached)), (t, Unlock)];
            && Legal(s, steps)
            && Exec(s, steps).PcOf(t).Idle? && Exec(s, steps).locks == s.locks - {Stripe(f)}
            && Exec(s, steps).starved == s.starved + {f} && (!made ==> Exec(s, steps).files == s.files)
  {
    hide Grow;
    var s1 := Do(s, t, Allocate(false, reached));
    RunOne(s1, Do(s1, t, Unlock), t, Unlock, []);
    RunOne(s, s1, t, Allocate(false, reached), [(t, Unlock)]);
  }

  /** A write by one thread to byte j of one file. */
  predicate WritesByte(s: State, t: nat, a: Action, f: File, j: nat) {
    a.Write? && s.PcOf(t).Using? && s.PcOf(t).f == f && a.off <= j < a.off + |a.data|
  }

  /** Some call of the run writes byte j of the file. */
  ghost predicate RunWrites(s: State, steps: seq<(nat, Action)>, f: File, j: nat)
    requires Legal(s, steps)
    decreases |steps|
  {
    steps != [] &&
    (WritesByte(s, steps[0].0, steps[0].1, f, j) || RunWrites(Do(s, steps[0].0, steps[0].1), steps[1..], f, j))
  }

  lemma WriteAtByte(file: seq<byte>, off: nat, data: seq<byte>, j: nat)
    ensures Bytes.At(WriteAt(file, off, data), j) ==
      if off <= j < off + |data| then data[j - off] else Bytes.At(file, j)
  {
    hide WriteAt;
  }

  lemma UserWrites(s: State, t: nat, a: Action)
    requires Enabled(s, t, a) && a.Write?
    ensures s.PcOf(t).Using?
  {
  }

  lemma ByteStep(s: State, t: nat, a: Action, f: File, j: nat)
    requires Enabled(s, t, a)
    ensures Bytes.At(Do(s, t, a).Contents(f), j) ==
      if WritesByte(s, t, a, f, j) then a.data[j - a.off] else Bytes.At(s.Contents(f), j)
  {
    hide Do;
    hide Enabled;
    hide WriteAt;
    hide Grow;
    hide State.Contents;
    hide State.Written;
    hide State.PcOf;
    if a.Write? {
      UserWrites(s, t, a);
      ContentsWritten(s, t, a, f);
      WriteAtByte(s.Contents(f), a.off, a.data, j);
    } else if a.Allocate? {
      ContentsGrown(s, t, a, f);
    } else {
      ContentsKept(s, t, a, f);
    }
  }

  /** A byte that nobody writes stays, through creations, allocations and writes elsewhere. */
  lemma {:induction false} ByteStays(s: State, steps: seq<(nat, Action)>, f: File, j: nat)
    requires Legal(s, steps) && !RunWrites(s, steps, f, j)
    ensures Bytes.At(Exec(s, steps).Contents(f), j) == Bytes.At(s.Contents(f), j)
    decreases |steps|
  {
    if steps != [] {
      var (t, a) := steps[0];
      ByteStep(s, t, a, f, j);
      ByteStays(Do(s, t, a), steps[1..], f, j);
    }
  }

  /** In every run, a byte that a thread wrote is what the file shows until some thread writes it again. */
  lemma WrittenByteStays(s: State, t: nat, off: nat, data: seq<byte>, rest: seq<(nat, Action)>, j: nat)
    requires Enabled(s, t, Write(off, data)) && off <= j < off + |data|
    requires Legal(Do(s, t, Write(off, data)), rest)
    requires !RunWrites(Do(s, t, Write(off, data)), rest, s.PcOf(t).f, j)
    ensures Bytes.At(Exec(Do(s, t, Write(off, data)), rest).Contents(s.PcOf(t).f), j) == data[j - off]
  {
    ByteStep(s, t, Write(off, data), s.PcOf(t).f, j);
    ByteStays(Do(s, t, Write(off, data)), rest, s.PcOf(t).f, j);
  }

  /** How many more calls a holder makes before its mutex is free again. */
  function CallsToUnlock(pc: Pc): nat {
    match pc
    case Locked(_) => 4
    case Creating(_) => 3
    case Allocating(_, _) => 2
    case Unlocking(_, _) => 1
    case _ => 0
  }

  /** Every call of a holder, failing ones included, brings it closer to unlocking; only unlocking frees the mutex. */
  lemma HolderAdvances(s: State, t: nat, a: Action)
    requires LocksAgree(s) && s.PcOf(t).Holds() && Enabled(s, t, a)
    ensures CallsToUnlock(Do(s, t, a).PcOf(t)) < CallsToUnlock(s.PcOf(t))
    ensures Stripe(s.PcOf(t).f) !in Do(s, t, a).locks <==> a == Unlock
  {
    hide Grow;
    hide WriteAt;
  }

  lemma HolderCanMove(s: State, t: nat)
    requires s.PcOf(t).Holds()
    ensures exists a :: Enabled(s, t, a)
  {
    match s.PcOf(t) {
      case Locked(_) => assert Enabled(s, t, StatInside(false));
      case Creating(_) => assert Enabled(s, t, Create(false));
      case Allocating(_, _) => assert Enabled(s, t, Allocate(false, 0));
      case Unlocking(_, _) => assert Enabled(s, t, Unlock);
    }
  }

  /** No deadlock: a thread that cannot go on waits for one that can. */
  lemma SomeoneCanMove(s: State, steps: seq<(nat, Action)>, t: nat)
    requires Init(s) && Legal(s, steps) && !Exec(s, steps).PcOf(t).Idle?
    ensures var now := Exec(s, steps);
            exists u: nat, a ::
              Enabled(now, u, a)
              && (u == t ||
                    (now.PcOf(t).Waiting? && now.PcOf(u).Holds() && Stripe(now.PcOf(u).f) == Stripe(now.PcOf(t).f)))
  {
    InvInitially(s);
    InvAlways(s, steps);
    var now := Exec(s, steps);
    match now.PcOf(t) {
      case Looking(_) => assert Enabled(now, t, StatOutside(false));
      case Waiting(f) =>
        if Stripe(f) in now.locks {
          HolderCanMove(now, now.locks[Stripe(f)]);
        } else {
          assert Enabled(now, t, Lock);
        }
      case Opening(_) => assert Enabled(now, t, Open(false));
      case Using(_) => assert Enabled(now, t, Finish);
      case _ => HolderCanMove(now, t);
    }
  }

  /** The thread is about to transfer, and a read at off inside the object would meet the end of the file. */
  ghost predicate CanReadEmpty(s: State, t: nat, f: File, off: nat) {
    s.PcOf(t) == Using(f) && off < s.Size(f) && |s.Contents(f)| <= off
  }

  /**
   * A read inside the object returns no bytes, which is what hangs the transfer loop, only on a file
   * whose allocation failed or that another thread has created and not yet allocated.
   */
  lemma EmptyReadsExplained(s: State, steps: seq<(nat, Action)>, t: nat, f: File, off: nat)
    requires Init(s) && Legal(s, steps)
    requires CanReadEmpty(Exec(s, steps), t, f, off)
    ensures var now := Exec(s, steps);
            f in now.starved || exists u: nat :: u != t && now.PcOf(u) == Allocating(f, true)
  {
    InvInitially(s);
    InvAlways(s, steps);
  }

  /** A thread that starts on a file that is there goes on to use it as it is, without ever waiting. */
  lemma EarlyReader(s: State, t: nat, f: File) returns (late: seq<(nat, Action)>)
    requires s.PcOf(t).Idle? && f in s.files
    ensures late == [(t, Begin(f)), (t, StatOutside(true)), (t, Open(true))] && Legal(s, late)
    ensures Exec(s, late) == s.At(t, Looking(f)).At(t, Opening(f)).At(t, Using(f))
    ensures Exec(s, late).PcOf(t) == Using(f) && Exec(s, late).Contents(f) == s.Contents(f)
  {
    var s1 := s.At(t, Looking(f));
    var s2 := s1.At(t, Opening(f));
    var s3 := s2.At(t, Using(f));
    RunOne(s2, s3, t, Open(true), []);
    RunOne(s1, s2, t, StatOutside(true), [(t, Open(true))]);
    RunOne(s, s1, t, Begin(f), [(t, StatOutside(true)), (t, Open(true))]);
    late := [(t, Begin(f)), (t, StatOutside(true)), (t, Open(true))];
  }

  /**
   * The converse: at whatever moment a file is there and short, three calls of any idle thread take it to
   * where a read inside the object returns no bytes. So a file can be read empty exactly while it is short.
   */
  lemma ShortFileCanBeReadEmpty(s: State, steps: seq<(nat, Action)>, t: nat, f: File, off: nat)
    requires Init(s) && Legal(s, steps)
    requires var now := Exec(s, steps); now.PcOf(t).Idle? && f in now.files && |now.files[f]| <= off < now.Size(f)
    ensures var late := steps + [(t, Begin(f)), (t, StatOutside(true)), (t, Open(true))];
            Legal(s, late) && CanReadEmpty(Exec(s, late), t, f, off)
  {
    var late := EarlyReader(Exec(s, steps), t, f);
    RunOn(s, steps, late);
  }

  /** One run after another. */
  lemma {:induction false} RunOn(s: State, steps: seq<(nat, Action)>, late: seq<(nat, Action)>)
    requires Legal(s, steps) && Legal(Exec(s, steps), late)
    ensures Legal(s, steps + late) && Exec(s, steps + late) == Exec(Exec(s, steps), late)
    decreases |steps|
  {
    if steps == [] {
      assert steps + late == late;
    } else {
      var (t, a) := steps[0];
      RunOn(Do(s, t, a), steps[1..], late);
      RunOne(s, Do(s, t, a), t, a, steps[1..] + late);
      assert steps + late == [(t, a)] + (steps[1..] + late);
    }
  }

  /**
   * And it does happen: the first look, outside the lock, sees a file that its creator has not allocated
   * yet, and the reader goes on without waiting.
   */
  lemma EarlyReaderMeetsEmptyFile(f: File, size: nat)
    requires size > 0
    ensures var s := State(map[f.volume := size], map[], map[], map[], map[], {});
            var steps := [(0, Begin(f)), (0, StatOutside(false)), (0, Lock), (0, StatInside(false)), (0, Create(true)),
                          (1, Begin(f)), (1, StatOutside(true)), (1, Open(true))];
            && Init(s) && Legal(s, steps)
            && CanReadEmpty(Exec(s, steps), 1, f, 0) && Exec(s, steps).starved == {}
  {
    var s0 := State(map[f.volume := size], map[], map[], map[], map[], {});
    var s1 := Do(s0, 0, Begin(f));
    var s2 := Do(s1, 0, StatOutside(false));
    var made, s3 := Creator(s2, f);
    RunOne(s1, s2, 0, StatOutside(false), made);
    RunOne(s0, s1, 0, Begin(f), [(0, StatOutside(false))] + made);
    var steps := [(0, Begin(f))] + ([(0, StatOutside(false))] + made);
    var late := EarlyReader(s3, 1, f);
    RunOn(s0, steps, late);
    assert steps + late
        == [(0, Begin(f)), (0, StatOutside(false)), (0, Lock), (0, StatInside(false)), (0, Create(true)),
            (1, Begin(f)), (1, StatOutside(true)), (1, Open(true))];
  }

  lemma Creator(s: State, f: File) returns (made: seq<(nat, Action)>, s': State)
    requires s.PcOf(0) == Waiting(f) && s.PcOf(1).Idle? && s.locks == map[] && f !in s.files
    ensures made == [(0, Lock), (0, StatInside(false)), (0, Create(true))]
    ensures Legal(s, made) && Exec(s, made) == s'
    ensures s'.PcOf(1).Idle? && f in s'.files && s'.Contents(f) == []
    ensures s'.starved == s.starved && s'.sizes == s.sizes
  {
    var s1 := Do(s, 0, Lock);
    var s2 := Do(s1, 0, StatInside(false));
    s' := Do(s2, 0, Create(true));
    RunOne(s2, s', 0, Create(true), []);
    RunOne(s1, s2, 0, StatInside(false), [(0, Create(true))]);
    made := [(0, Lock), (0, StatInside(false)), (0, Create(true))];
    RunOne(s, s1, 0, Lock, made[1..]);
  }

  lemma RunOne(s: State, s': State, t: nat, a: Action, rest: seq<(nat, Action)>)
    requires Enabled(s, t, a) && s' == Do(s, t, a) && Legal(s', rest)
    ensures Legal(s, [(t, a)] + rest) && Exec(s, [(t, a)] + rest) == Exec(s', rest)
  {
    assert ([(t, a)] + rest)[1..] == rest;
  }
}
