/** The hooks, the saves they end with, and crashes together: what register.reg holds over the life of a process and
    of those that come after it. */
module Sessions {
  import opened Basics
  import opened KeyArena
  import opened Values
  import opened RegFile
  import opened ArenaTree
  import H = Handles
  import C = CrashSafe

  datatype Live = Live(r: H.Reg, s: C.Sys)

  /** Hook: one hook up to its save. Disk: a step of the save under way. Restart: the process dies, and the next one
      loads the tree it finds into the arena a; of a file cut short, or with values on the root, it makes what `junk`
      says. */
  datatype Event = Hook(op: H.RegOp) | Disk(e: C.Event) | Restart(a: Arena, junk: Key)

  /** The hook changed the tree and goes on to AutoSave. */
  ghost predicate Saves(r: H.Reg, op: H.RegOp)
    requires H.Usable(r, op.h)
  {
    match op
    case OpOpen(_, _, _) => false
    case OpCreate(h, _, ex) => H.BaseKey(r, h, ex).Some?
    case OpDelete(h, name) => H.HandleToKey(r, h).Some? && Kid(r.a, H.HandleToKey(r, h).value, name).Some?
    case OpSetValue(h, _, _, _) => H.HandleToKey(r, h).Some?
    case OpDeleteValue(h, name) =>
      var k := H.HandleToKey(r, h);
      k.Some? && IndexOf(r.a[k.value].vals, name) < |r.a[k.value].vals|
  }

  /** The hook may run: no save is under way, its handle does not lead to freed memory, and the sizes and counts of the
      tree it leaves fit 32 bits. */
  ghost predicate Ready(l: Live, op: H.RegOp) {
    && l.s.phase.Idle? && H.Usable(l.r, op.h)
    && var a := H.Step(l.r, op).a;
       Wf(a) && Has(a, 0) && C.Storable(TreeOf(a, 0))
  }

  ghost predicate Loads(a: Arena, t: Key) {
    Wf(a) && ValuesUnique(a) && Has(a, 0) && TreeOf(a, 0) == t
  }

  ghost function Step(l: Live, e: Event): Live
    requires C.Storable(l.s.tree)
  {
    match e
    case Hook(op) =>
      if Ready(l, op) then
        var r := H.Step(l.r, op);
        Live(r, if Saves(l.r, op) then C.Step(l.s, C.Mutate(TreeOf(r.a, 0))) else l.s)
      else l
    case Disk(d) =>
      if d.OpenTemp? || d.Write? || d.Rename? then l.(s := C.Step(l.s, d)) else l
    case Restart(a, junk) =>
      var s := C.Step(l.s, C.Crash(junk));
      if Loads(a, s.tree) then Live(H.Reg(a, [], [], [], l.r.wow64), s) else l
  }

  /** What the disk invariant says, and that the tree in memory is the one the saves are about. */
  ghost predicate Inv(l: Live) {
    C.Inv(l.s) && Loads(l.r.a, l.s.tree)
  }

  /** No file yet, an unnamed root and nothing else. */
  ghost function Start(wow64: bool): (l: Live)
    ensures Inv(l)
  {
    StartInv(H.Reg([Node(true, -1, [], [], [])], [], [], [], wow64));
    Live(H.Reg([Node(true, -1, [], [], [])], [], [], [], wow64), C.Start())
  }

  lemma {:induction false} StartInv(r: H.Reg)
    requires r.a == [Node(true, -1, [], [], [])]
    ensures Inv(Live(r, C.Start()))
  {
    hide FileImage;
    C.StartInv();
    assert TreeOf(r.a, 0).kids == [];
  }

  lemma {:induction false} UnsavedSame(r: H.Reg, op: H.RegOp)
    requires H.Usable(r, op.h) && !Saves(r, op)
    ensures H.Step(r, op).a == r.a
  {
    hide Kid, Grow, Walk, Wf;
    if op.OpDeleteValue? && H.HandleToKey(r, op.h).Some? {
      var k := H.HandleToKey(r, op.h).value;
      DropValAt(r.a[k].vals, op.sub);
      assert r.a[k := r.a[k]] == r.a;
    }
  }

  lemma {:induction false} HookInv(l: Live, op: H.RegOp)
    requires Inv(l)
    ensures Inv(Step(l, Hook(op)))
  {
    hide C.Underway, FileImage, C.Step, C.Storable, H.Step, Wf, ValuesUnique, Saves, TreeOf;
    if Ready(l, op) {
      H.StepKeepsForest(l.r, op);
      if Saves(l.r, op) {
        C.StepInv(l.s, C.Mutate(TreeOf(H.Step(l.r, op).a, 0)));
        MutatedTree(l.s, TreeOf(H.Step(l.r, op).a, 0));
      } else {
        UnsavedSame(l.r, op);
      }
    }
  }

  lemma MutatedTree(s: C.Sys, t: Key)
    requires C.Storable(s.tree) && s.phase.Idle? && C.Storable(t)
    ensures C.Step(s, C.Mutate(t)).tree == t && C.Step(s, C.Mutate(t)).phase == C.Saving
  {
  }

  lemma {:induction false} DiskInv(l: Live, d: C.Event)
    requires Inv(l)
    ensures Inv(Step(l, Disk(d)))
  {
    hide C.Inv, C.Storable, Wf, ValuesUnique, TreeOf, FileImage;
    C.StepInv(l.s, d);
  }

  lemma {:induction false} StepInv(l: Live, e: Event)
    requires Inv(l)
    ensures Inv(Step(l, e))
  {
    hide C.Inv, C.Step, C.Storable, Wf, ValuesUnique, TreeOf;
    match e
    case Hook(op) => HookInv(l, op);
    case Disk(d) => DiskInv(l, d);
    case Restart(a, junk) => C.StepInv(l.s, C.Crash(junk));
  }

  ghost function Run(l: Live, es: seq<Event>): (l': Live)
    requires Inv(l)
    ensures Inv(l')
    decreases |es|
  {
    if es == [] then l else StepInv(l, es[0]); Run(Step(l, es[0]), es[1..])
  }

  /** Over the life of any number of processes, each making any calls, with saves that fail, are cut short or are
      interrupted at any point: register.reg is absent or was last renamed by the save of a tree the hooks had built,
      and if that save was complete it loads to that tree's mirror exactly if the root had no values. */
  lemma {:induction false} FileFollowsHooks(wow64: bool, es: seq<Event>)
    ensures var l := Run(Start(wow64), es);
            && Loads(l.r.a, l.s.tree) && l.s.tree in l.s.log && C.Storable(l.s.tree)
            && (l.s.saved.None? ==> l.s.disk.reg == None)
            && (l.s.saved.Some? ==>
                  && l.s.saved.value in l.s.log && C.Storable(l.s.saved.value) && l.s.disk.reg.Some?
                  && (l.s.disk.reg.value == FileImage(l.s.saved.value) <==> l.s.intact)
                  && (l.s.intact ==>
                        (Loaded(l.s.disk.reg.value) == Some(Mirror(l.s.saved.value)) <==> l.s.saved.value.vals == [])))
  {
    hide FileImage, Mirror, Loaded, Wf, ValuesUnique, TreeOf, Run, Step, C.Underway, KeyFits, UniqueValues, C.Storable;
    var l := Run(Start(wow64), es);
    SavedFacts(l.s);
  }

  lemma {:induction false} SavedFacts(s: C.Sys)
    requires C.Inv(s)
    ensures s.saved.Some? ==> C.Storable(s.saved.value)
    ensures s.saved.Some? && s.intact ==>
              s.disk.reg.Some? && (Loaded(s.disk.reg.value) == Some(Mirror(s.saved.value))
                  <==> s.saved.value.vals == [])
  {
    hide FileImage, Mirror, Loaded, KeyFits, UniqueValues, C.Underway, C.Storable;
    if s.saved.Some? && s.intact { C.SavedLoads(s.saved.value); }
  }

  /** A hook that changes the tree, and then its save with every write complete: register.reg loads to the mirror of
      the tree now in memory exactly if the root has no values. */
  lemma {:induction false} HookThenSave(l: Live, op: H.RegOp, ps: seq<Bytes>, ns: seq<nat>)
    requires Inv(l) && Ready(l, op) && Saves(l.r, op)
    requires C.Flatten(ps) == FileImage(TreeOf(H.Step(l.r, op).a, 0))
    requires |ps| == |ns| && C.Complete(ps, ns)
    ensures var m := Step(l, Hook(op));
            && C.Storable(m.s.tree) && m.s.tree == TreeOf(H.Step(l.r, op).a, 0)
            && var s := C.Run(m.s, C.SaveEvents(ps, ns));
               && s.disk.reg == Some(FileImage(TreeOf(m.r.a, 0)))
               && (Loaded(s.disk.reg.value) == Some(Mirror(TreeOf(m.r.a, 0))) <==> TreeOf(m.r.a, 0).vals == [])
  {
    hide FileImage, Mirror, Loaded, Wf, ValuesUnique, TreeOf, C.Step, C.Run, H.Step, C.Storable, C.SaveEvents,
        C.Underway, Saves;
    var t := TreeOf(H.Step(l.r, op).a, 0);
    HookInv(l, op);
    MutatedTree(l.s, t);
    C.SaveRun(Step(l, Hook(op)).s, ps, ns);
  }
}
