/** Whole runs of the hooks over the linked objects: whatever is called, the objects stay those of the registry as a
    value, so every result about runs of the hooks as functions holds of the objects. */
module RegistryRuns {
  import opened Basics
  import opened KeyArena
  import opened ArenaTree
  import opened Handles
  import opened RegHeap

  /** What a hook answers. */
  ghost function Answer(r: Reg, op: RegOp): Outcome
    requires Usable(r, op.h)
  {
    match op
    case OpOpen(h, sub, ex) => OpenKey(r, h, sub, ex).1
    case OpCreate(h, sub, ex) => CreateKey(r, h, sub, ex).1
    case OpDelete(h, name) => DeleteKey(r, h, name).1
    case OpSetValue(h, name, typ, data) => SetValueEx(r, h, name, typ, data).1
    case OpDeleteValue(h, name) => DeleteValue(r, h, name).1
  }

  ghost function Answers(r: Reg, ops: seq<RegOp>): seq<Outcome>
    requires UsableThroughout(r, ops)
    decreases |ops|
  {
    if ops == [] then [] else [Answer(r, ops[0])] + Answers(Handles.Step(r, ops[0]), ops[1..])
  }

  method Perform(g: Registry, op: RegOp) returns (o: Outcome)
    requires g.Valid() && Usable(g.View(), op.h)
    modifies g, g.keys, g.cells, g.cache
    ensures g.Valid() && g.View() == Handles.Step(old(g.View()), op) && o == Answer(old(g.View()), op)
    ensures forall i :: 0 <= i < |g.keys| ==> g.keys[i] in old(g.keys) || fresh(g.keys[i])
    ensures forall v :: v in g.cells ==> v in old(g.cells) || fresh(v)
  {
    hide Registry.Valid, Registry.View, OpenKey, CreateKey, DeleteKey, SetValueEx, DeleteValue, Usable;
    match op
    case OpOpen(h, sub, ex) => o := g.OpenKeyHook(h, sub, ex);
    case OpCreate(h, sub, ex) => var existed; o, existed := g.CreateKeyHook(h, sub, ex);
    case OpDelete(h, name) => o := g.DeleteKeyHook(h, name);
    case OpSetValue(h, name, typ, data) => o := g.SetValueHook(h, name, typ, data);
    case OpDeleteValue(h, name) => o := g.DeleteValueHook(h, name);
  }

  lemma {:induction false} RunSnoc(r: Reg, ops: seq<RegOp>, n: nat)
    requires n < |ops| && UsableThroughout(r, ops)
    ensures UsableThroughout(r, ops[..n]) && UsableThroughout(r, ops[..n + 1]) && Usable(RunOps(r, ops[..n]), ops[n].h)
    ensures RunOps(r, ops[..n + 1]) == Handles.Step(RunOps(r, ops[..n]), ops[n])
    ensures Answers(r, ops[..n + 1]) == Answers(r, ops[..n]) + [Answer(RunOps(r, ops[..n]), ops[n])]
    decreases n
  {
    hide Handles.Step, Usable, Answer;
    if n == 0 {
      assert ops[..1] == [ops[0]] && ops[..1][1..] == [] && ops[..0] == [];
    } else {
      assert ops[..n + 1][1..] == ops[1..][..n] && ops[..n][1..] == ops[1..][..n - 1];
      RunSnoc(Handles.Step(r, ops[0]), ops[1..], n - 1);
    }
  }

  /** Any run of hooks on objects that are a registry leaves objects that are the registry after the run, and each
      hook answered as specified. */
  method RunHooks(g: Registry, ops: seq<RegOp>) returns (os: seq<Outcome>)
    requires g.Valid() && UsableThroughout(g.View(), ops)
    modifies g, g.keys, g.cells, g.cache
    ensures g.Valid() && g.View() == RunOps(old(g.View()), ops) && os == Answers(old(g.View()), ops)
  {
    hide Registry.TreeOk, Registry.View, Handles.Step, Usable, Answer;
    ghost var r := g.View();
    os := [];
    assert ops[..0] == [];
    for n := 0 to |ops|
      invariant g.Valid() && UsableThroughout(r, ops[..n])
      invariant g.View() == RunOps(r, ops[..n]) && os == Answers(r, ops[..n])
      invariant forall i :: 0 <= i < |g.keys| ==> g.keys[i] in old(g.keys) || fresh(g.keys[i])
      invariant forall v :: v in g.cells ==> v in old(g.cells) || fresh(v)
    {
      RunSnoc(r, ops, n);
      var o := Perform(g, ops[n]);
      os := os + [o];
    }
    assert ops[..|ops|] == ops;
  }

  /** From the start of a process: the tree in memory is a forest with distinct names after any run, and handles and
      cache lead where their paths do throughout exactly if every hook of the run was guarded. */
  method Session(wow64: bool, ops: seq<RegOp>) returns (g: Registry, os: seq<Outcome>)
    requires UsableThroughout(Empty(wow64), ops) && |ops| <= TABLE_LIMIT
    ensures g.Valid() && g.View() == RunOps(Empty(wow64), ops) && os == Answers(Empty(wow64), ops)
    ensures Wf(g.arena) && ValuesUnique(g.arena)
    ensures CoherentThroughout(Empty(wow64), ops) <==> GuardedThroughout(Empty(wow64), ops)
  {
    hide Registry.Valid, Handles.Step, Usable, Answer, Wf, ValuesUnique, CoherentThroughout, GuardedThroughout;
    g := new Registry(wow64);
    os := RunHooks(g, ops);
    EmptyForest(wow64);
    RunKeepsForest(Empty(wow64), ops);
    RunCoherentIff(Empty(wow64), ops);
  }

  lemma {:induction false} EmptyForest(wow64: bool)
    ensures Wf(Empty(wow64).a) && ValuesUnique(Empty(wow64).a) && Coherent(Empty(wow64))
  {
    assert KidsOk(Empty(wow64).a, 0, []);
    FreshIsCoherent(Empty(wow64));
  }

  function Empty(wow64: bool): Reg {
    Reg([Node(true, -1, [], [], [])], [], [], [], wow64)
  }
}
