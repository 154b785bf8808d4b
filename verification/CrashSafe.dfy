/** Saving by writing register.reg.tmp and renaming it, with a crash allowed between any two steps and with writes
    of which only a part reaches the file. */
module CrashSafe {
  import opened Basics
  import opened KeyArena
  import opened RegFile
  import opened ArenaTree

  datatype Disk = Disk(reg: Option<Bytes>, tmp: Option<Bytes>)

  /** Where the process is: between hooks, about to save, in the middle of the writes, or about to rename. */
  datatype Phase = Idle | Saving | Writing(pending: seq<Bytes>)

  /** The tree in memory, every tree a hook has produced so far (and those at a start), the tree of the last rename
      that succeeded, the two files, and the phase. `whole`: every write of the save under way has been complete;
      `intact`: every write of the save that was last renamed was. */
  datatype Sys = Sys(tree: Key, log: seq<Key>, saved: Option<Key>, disk: Disk, phase: Phase, whole: bool, intact: bool)

  /** Mutate: a hook changed the tree and AutoSave begins. OpenTemp: the temporary file is created (or not), and the
      image will be written in the given pieces. Write: of the next piece, n bytes reach the file; the source never
      looks. Rename: the file is closed and renamed; on failure it is deleted. Crash: the process dies and starts
      again, loading register.reg; of a file cut short, or with values on the root, it makes whatever `junk` says. */
  datatype Event =
    | Mutate(t: Key)
    | OpenTemp(ok: bool, pieces: seq<Bytes>)
    | Write(n: nat)
    | Rename(ok: bool)
    | Crash(junk: Key)

  function Flatten(ps: seq<Bytes>): Bytes {
    if ps == [] then [] else ps[0] + Flatten(ps[1..])
  }

  /** Trees the hooks can leave: everything fits the DWORD it gets in the file, value names differ, the root is
      unnamed. */
  ghost predicate Storable(t: Key) {
    KeyFits(t) && UniqueValues(t) && t.name == []
  }

  const EMPTY_TREE := Key([], [], [])

  /** What start-up makes of the disk. */
  function Restarted(d: Disk): Key {
    if d.reg.None? then EMPTY_TREE
    else match Loaded(d.reg.value) case None => EMPTY_TREE case Some(t) => t
  }

  /** The file is intact and its tree one the loader reads back. */
  predicate Loads(s: Sys) {
    s.saved.Some? && s.intact && s.saved.value.vals == []
  }

  /** One event; an event that does not fit the phase changes nothing. */
  ghost function Step(s: Sys, e: Event): (s': Sys)
    requires Storable(s.tree)
  {
    match e
    case Mutate(t) =>
      if s.phase.Idle? && Storable(t) then s.(tree := t, log := s.log + [t], phase := Saving) else s
    case OpenTemp(ok, pieces) =>
      if !s.phase.Saving? || Flatten(pieces) != FileImage(s.tree) then s
      else if ok then s.(disk := s.disk.(tmp := Some([])), phase := Writing(pieces), whole := true)
      else s.(phase := Idle)
    case Write(n) =>
      if s.phase.Writing? && s.phase.pending != [] && s.disk.tmp.Some? && n <= |s.phase.pending[0]| then
        s.(disk := s.disk.(tmp := Some(s.disk.tmp.value + s.phase.pending[0][..n])),
           phase := Writing(s.phase.pending[1..]), whole := s.whole && n == |s.phase.pending[0]|)
      else s
    case Rename(ok) =>
      if s.phase == Writing([]) then
        if ok then s.(disk := Disk(s.disk.tmp, None), saved := Some(s.tree), phase := Idle, intact := s.whole)
        else s.(disk := s.disk.(tmp := None), phase := Idle)
      else s
    case Crash(junk) =>
      var t := if s.saved.None? || Loads(s) then Restarted(s.disk) else junk;
      var u := if Storable(t) then t else EMPTY_TREE;
      s.(tree := u, log := s.log + [u], phase := Idle)
  }

  /** register.reg is the image of the last tree saved exactly if that save was intact, and a save under way has
      written a prefix of its image exactly if it is whole. */
  ghost predicate Inv(s: Sys) {
    && Storable(s.tree) && s.tree in s.log
    && (forall t :: t in s.log ==> Storable(t))
    && (s.saved.None? ==> s.disk.reg.None?)
    && (s.saved.Some? ==>
          s.saved.value in s.log && s.disk.reg.Some? && (s.disk.reg.value == FileImage(s.saved.value) <==> s.intact))
    && (s.phase.Writing? ==> s.disk.tmp.Some? && Underway(s))
  }

  ghost predicate Underway(s: Sys)
    requires Storable(s.tree) && s.phase.Writing? && s.disk.tmp.Some?
  {
    var left := Flatten(s.phase.pending);
    if s.whole then s.disk.tmp.value + left == FileImage(s.tree)
    else |s.disk.tmp.value| + |left| < |FileImage(s.tree)|
  }

  ghost function Start(): (s: Sys)
    ensures Storable(s.tree)
  {
    Sys(EMPTY_TREE, [EMPTY_TREE], None, Disk(None, None), Idle, true, true)
  }

  lemma StartInv()
    ensures Inv(Start())
  {
  }

  lemma EmptyStorable()
    ensures Storable(EMPTY_TREE)
  {
  }

  lemma MirrorShape(t: Key)
    ensures Mirror(t).name == t.name && |Mirror(t).vals| == |t.vals|
  {
  }

  /** The mirror of a storable tree without values on the root is storable, and is what start-up makes of its image. */
  lemma {:induction false} RestartMirrors(t: Key, tmp: Option<Bytes>)
    requires Storable(t) && t.vals == []
    ensures Storable(Mirror(t)) && Restarted(Disk(Some(FileImage(t)), tmp)) == Mirror(t)
  {
    hide KeyImage, LoadFile, KeyFits, UniqueValues;
    MirrorFits(t);
    LoadSavedIff(t);
    MirrorShape(t);
  }

  /** The trees the hooks build are storable, and load back as their mirror exactly when nothing has put a value on
      the root. */
  lemma {:induction false} HookTreesStorable(a: Arena)
    requires Wf(a) && ValuesUnique(a) && a[0].name == [] && KeyFits(TreeOf(a, 0))
    ensures Storable(TreeOf(a, 0))
    ensures Loaded(FileImage(TreeOf(a, 0))) == Some(Mirror(TreeOf(a, 0))) <==> a[0].vals == []
  {
    hide KeyFits, UniqueValues, FileImage, Loaded, Mirror;
    TreeNamed(a, 0);
    SavedLoads(TreeOf(a, 0));
  }

  lemma {:induction false} WriteInv(s: Sys, n: nat)
    requires Inv(s)
    ensures Inv(Step(s, Write(n)))
  {
    hide FileImage, KeyFits, UniqueValues, Loaded, Storable;
    if s.phase.Writing? && s.phase.pending != [] && n <= |s.phase.pending[0]| {
      var p := s.phase.pending;
      if n == |p[0]| { assert p[0][..n] == p[0]; }
      assert s.disk.tmp.value + Flatten(p) == s.disk.tmp.value + p[0] + Flatten(p[1..]);
    }
  }

  lemma {:induction false} CrashInv(s: Sys, junk: Key)
    requires Inv(s)
    ensures Inv(Step(s, Crash(junk)))
    ensures Loads(s) ==> Step(s, Crash(junk)).tree == Mirror(s.saved.value)
    ensures s.saved.None? ==> Step(s, Crash(junk)).tree == EMPTY_TREE
  {
    hide FileImage, KeyFits, UniqueValues, Loaded, Storable, Mirror, Restarted;
    EmptyStorable();
    if s.saved.None? {
      assert Restarted(s.disk) == EMPTY_TREE by { NoFile(s.disk); }
    } else if Loads(s) {
      RestartMirrors(s.saved.value, s.disk.tmp);
      StorableFits(s.saved.value);
      assert s.disk == Disk(Some(FileImage(s.saved.value)), s.disk.tmp);
    }
  }

  lemma NoFile(d: Disk)
    requires d.reg.None?
    ensures Restarted(d) == EMPTY_TREE
  {
  }

  /** Every event, short writes and crashes included, keeps the invariant, and only a rename changes register.reg. */
  lemma {:induction false} StepInv(s: Sys, e: Event)
    requires Inv(s)
    ensures Inv(Step(s, e))
    ensures Step(s, e).disk.reg == s.disk.reg || (e == Rename(true) && s.phase == Writing([]))
    ensures e == Rename(true) && s.phase == Writing([]) ==>
              (Step(s, e).disk.reg == Some(FileImage(s.tree)) <==> s.whole)
  {
    hide FileImage, KeyFits, UniqueValues, Loaded, Storable, Restarted;
    match e
    case Mutate(t) =>
    case OpenTemp(ok, pieces) => assert [] + Flatten(pieces) == Flatten(pieces);
    case Write(n) => WriteInv(s, n);
    case Rename(ok) => if s.phase == Writing([]) { assert s.disk.tmp.value + [] == s.disk.tmp.value; }
    case Crash(junk) => CrashInv(s, junk);
  }

  ghost function Run(s: Sys, es: seq<Event>): (r: Sys)
    requires Storable(s.tree)
    decreases |es|
  {
    if es == [] then s else StepStorable(s, es[0]); Run(Step(s, es[0]), es[1..])
  }

  lemma StepStorable(s: Sys, e: Event)
    requires Storable(s.tree)
    ensures Storable(Step(s, e).tree)
  {
    hide KeyFits, UniqueValues, FileImage, Loaded;
    EmptyStorable();
  }

  lemma {:induction false} RunInv(s: Sys, es: seq<Event>)
    requires Inv(s)
    ensures Inv(Run(s, es))
    decreases |es|
  {
    hide Storable, Step, FileImage;
    if es != [] {
      StepInv(s, es[0]);
      RunInv(Step(s, es[0]), es[1..]);
    }
  }

  /** What a crash, and a second crash right after it, bring back when the file loads. */
  lemma {:induction false} CrashRestores(s: Sys, j1: Key, j2: Key)
    requires Inv(s)
    ensures Storable(Step(s, Crash(j1)).tree)
    ensures Loads(s) ==> Step(s, Crash(j1)).tree == Mirror(s.saved.value)
    ensures Loads(s) ==> Step(Step(s, Crash(j1)), Crash(j2)).tree == Mirror(s.saved.value)
    ensures s.saved.None? ==> s.disk.reg == None && Step(s, Crash(j1)).tree == EMPTY_TREE
  {
    hide FileImage, KeyFits, UniqueValues, Mirror, Restarted, Storable;
    CrashInv(s, j1);
    CrashInv(Step(s, Crash(j1)), j2);
  }

  /** Crash consistency over every run whatever, crashes, failed renames and short writes included: register.reg is
      absent, or the save last renamed was of a tree some hook had left in memory; the file is that tree's image exactly
      if all the writes of that one save were complete, and then loads to its mirror exactly if the root had no
      values. */
  lemma {:induction false} CrashConsistent(es: seq<Event>, junk: Key)
    ensures var s := Run(Start(), es);
            && Storable(s.tree)
            && (s.saved.None? ==> s.disk.reg == None && Step(s, Crash(junk)).tree == EMPTY_TREE)
            && (s.saved.Some? ==>
                  && s.saved.value in s.log && Storable(s.saved.value) && s.disk.reg.Some?
                  && (s.disk.reg.value == FileImage(s.saved.value) <==> s.intact)
                  && (s.intact ==> (Loaded(s.disk.reg.value) == Some(Mirror(s.saved.value))
                      <==> s.saved.value.vals == []))
                  && (Loads(s) ==> Step(s, Crash(junk)).tree == Mirror(s.saved.value)))
  {
    hide FileImage, KeyFits, UniqueValues, Mirror, Loaded, Run, Step, Restarted, Storable;
    StartInv();
    RunInv(Start(), es);
    var s := Run(Start(), es);
    CrashInv(s, junk);
    if s.saved.Some? && s.intact { SavedLoads(s.saved.value); }
  }

  lemma {:induction false} SavedLoads(t: Key)
    requires Storable(t)
    ensures Loaded(FileImage(t)) == Some(Mirror(t)) <==> t.vals == []
  {
    hide KeyFits, UniqueValues, FileImage, Loaded, Mirror;
    LoadSavedIff(t);
  }

  // ---------- One whole save ----------

  /** What a save leaves in the temporary file when ns[i] bytes of piece i reach it. */
  function Received(ps: seq<Bytes>, ns: seq<nat>): Bytes
    requires |ps| == |ns| && forall i :: 0 <= i < |ps| ==> ns[i] <= |ps[i]|
  {
    if ps == [] then [] else ps[0][..ns[0]] + Received(ps[1..], ns[1..])
  }

  lemma {:induction false} ReceivedLength(ps: seq<Bytes>, ns: seq<nat>)
    requires |ps| == |ns| && forall i :: 0 <= i < |ps| ==> ns[i] <= |ps[i]|
    ensures |Received(ps, ns)| <= |Flatten(ps)|
    ensures |Received(ps, ns)| == |Flatten(ps)| ==> forall i :: 0 <= i < |ps| ==> ns[i] == |ps[i]|
    decreases |ps|
  {
    if ps != [] {
      ReceivedLength(ps[1..], ns[1..]);
      if |Received(ps, ns)| == |Flatten(ps)| {
        assert forall i :: 1 <= i < |ps| ==> ns[i] == ns[1..][i - 1] && ps[i] == ps[1..][i - 1];
      }
    }
  }

  /** Because the outcome of WriteFile is never checked, a save that reports success has put the current tree's
      image in place exactly when every piece was written in full. */
  lemma {:induction false} SaveExact(t: Key, ps: seq<Bytes>, ns: seq<nat>)
    requires KeyFits(t) && Flatten(ps) == FileImage(t)
    requires |ps| == |ns| && forall i :: 0 <= i < |ps| ==> ns[i] <= |ps[i]|
    ensures Received(ps, ns) == FileImage(t) <==> forall i :: 0 <= i < |ps| ==> ns[i] == |ps[i]|
  {
    hide FileImage;
    ReceivedLength(ps, ns);
    if forall i :: 0 <= i < |ps| ==> ns[i] == |ps[i]| { ReceivedAll(ps, ns); }
  }

  lemma {:induction false} ReceivedAll(ps: seq<Bytes>, ns: seq<nat>)
    requires |ps| == |ns| && forall i :: 0 <= i < |ps| ==> ns[i] == |ps[i]|
    ensures Received(ps, ns) == Flatten(ps)
    decreases |ps|
  {
    if ps != [] {
      assert ps[0][..ns[0]] == ps[0];
      ReceivedAll(ps[1..], ns[1..]);
    }
  }

  /** The save as steps: opening, writing every piece, renaming. */
  ghost function SaveEvents(ps: seq<Bytes>, ns: seq<nat>): seq<Event>
    requires |ps| == |ns|
  {
    [OpenTemp(true, ps)] + seq(|ns|, i requires 0 <= i < |ns| => Write(ns[i])) + [Rename(true)]
  }

  ghost predicate Complete(ps: seq<Bytes>, ns: seq<nat>)
    requires |ps| == |ns|
  {
    forall i :: 0 <= i < |ps| ==> ns[i] == |ps[i]|
  }

  lemma {:induction false} WritesLeave(s: Sys, ps: seq<Bytes>, ns: seq<nat>, es: seq<Event>)
    requires Storable(s.tree) && s.phase == Writing(ps) && s.disk.tmp.Some?
    requires |ps| == |ns| && forall i :: 0 <= i < |ps| ==> ns[i] <= |ps[i]|
    requires |es| == |ns| + 1 && es[|ns|] == Rename(true) && forall i :: 0 <= i < |ns| ==> es[i] == Write(ns[i])
    ensures var b := s.whole && Complete(ps, ns);
            Run(s, es) == s.(disk := Disk(Some(s.disk.tmp.value + Received(ps, ns)), None),
                             saved := Some(s.tree), phase := Idle,
                             whole := b, intact := b)
    decreases |ps|
  {
    hide Storable, Step, Complete;
    var s1 := Step(s, es[0]);
    StepStorable(s, es[0]);
    if ps == [] {
      assert es[1..] == [];
      RenameStep(s);
      NoPieces(ps, ns);
      assert Run(s1, []) == s1;
      assert s.disk.tmp.value + [] == s.disk.tmp.value;
    } else {
      assert es[0] == Write(ns[0]);
      assert forall i :: 0 <= i < |ns[1..]| ==> es[1..][i] == es[i + 1];
      WriteStep(s, ps, ns[0]);
      WritesLeave(s1, ps[1..], ns[1..], es[1..]);
      CompleteTail(ps, ns);
      assert s.disk.tmp.value + ps[0][..ns[0]] + Received(ps[1..], ns[1..]) == s.disk.tmp.value + Received(ps, ns);
    }
  }

  lemma NoPieces(ps: seq<Bytes>, ns: seq<nat>)
    requires ps == [] && |ns| == 0
    ensures Received(ps, ns) == [] && Complete(ps, ns)
  {
  }

  lemma RenameStep(s: Sys)
    requires Storable(s.tree) && s.phase == Writing([])
    ensures Step(s, Rename(true))
         == s.(disk := Disk(s.disk.tmp, None), saved := Some(s.tree), phase := Idle, intact := s.whole)
  {
    hide Storable, FileImage, Restarted;
  }

  lemma WriteStep(s: Sys, ps: seq<Bytes>, n: nat)
    requires Storable(s.tree) && s.phase == Writing(ps) && s.disk.tmp.Some? && ps != [] && n <= |ps[0]|
    ensures Step(s, Write(n))
         == s.(disk := Disk(s.disk.reg, Some(s.disk.tmp.value + ps[0][..n])), phase := Writing(ps[1..]),
               whole := s.whole && n == |ps[0]|)
  {
    hide Storable, FileImage, Restarted;
  }

  lemma {:induction false} CompleteTail(ps: seq<Bytes>, ns: seq<nat>)
    requires |ps| == |ns| > 0
    ensures Complete(ps, ns) <==> ns[0] == |ps[0]| && Complete(ps[1..], ns[1..])
  {
    assert forall i :: 1 <= i < |ps| ==> ns[i] == ns[1..][i - 1] && ps[i] == ps[1..][i - 1];
  }

  /** A whole save, short writes and all, started by a hook that left the tree t: it always reports success, and
      register.reg is then the image of t exactly if every write was complete, and so loads to its mirror exactly if the
      root has no values. */
  lemma {:induction false} SaveRun(s: Sys, ps: seq<Bytes>, ns: seq<nat>)
    requires Storable(s.tree) && s.phase == Saving && Flatten(ps) == FileImage(s.tree)
    requires |ps| == |ns| && forall i :: 0 <= i < |ps| ==> ns[i] <= |ps[i]|
    ensures var s' := Run(s, SaveEvents(ps, ns));
            && s'.phase == Idle && s'.saved == Some(s.tree) && s'.disk.reg.Some?
            && (s'.intact <==> Complete(ps, ns))
            && (s'.disk.reg.value == FileImage(s.tree) <==> Complete(ps, ns))
            && (Complete(ps, ns) ==> (Loaded(s'.disk.reg.value) == Some(Mirror(s.tree)) <==> s.tree.vals == []))
  {
    hide KeyFits, UniqueValues, FileImage, Loaded, Mirror, Storable, Restarted;
    var es := SaveEvents(ps, ns);
    var s1 := Step(s, es[0]);
    StepStorable(s, es[0]);
    assert es[0] == OpenTemp(true, ps);
    assert forall i :: 0 <= i < |ns| ==> es[1..][i] == Write(ns[i]);
    WritesLeave(s1, ps, ns, es[1..]);
    assert [] + Received(ps, ns) == Received(ps, ns);
    StorableFits(s.tree);
    SaveExact(s.tree, ps, ns);
    SavedLoads(s.tree);
  }

  lemma StorableFits(t: Key)
    requires Storable(t)
    ensures KeyFits(t)
  {
  }
}
