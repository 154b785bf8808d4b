/** Runs from a fresh start that end where the code does not do what it is for. */
module Counterexamples {
  import opened Basics
  import opened WideStrings
  import opened Redirect
  import opened KeyArena
  import opened Values
  import opened Handles
  import RE = ReadEngine
  import RS = ReadStatus

  /** A process that has just started, whatever tree it loaded. */
  ghost predicate Fresh(r: Reg) {
    Wf(r.a) && r.table == [] && r.paths == [] && r.cache == []
  }

  const H0 := FAKE_HANDLE_BASE
  const H1 := FAKE_HANDLE_BASE + 1

  ghost predicate Plain(name: WStr) {
    name != [] && BACKSLASH !in name && |name| < 512
  }

  lemma {:induction false} RootOpened(r: Reg)
    requires Fresh(r)
    ensures Usable(r, HKEY_LOCAL_MACHINE)
    ensures OpenKey(r, HKEY_LOCAL_MACHINE, [], true)
         == (r.(table := [0], paths := [[]], cache := [Cached([], H0)]), Done(ERROR_SUCCESS, H0))
  {
    hide Wf, Redirected;
    assert Truncate([], 512) == [] && Tokens([]) == [];
    assert RedirectSubKey(r.wow64, []) == [] by { EmptyPath(r.wow64); }
    assert !Contains([], RVPNNETMP);
    assert Has(r.a, 0) by { RootThere(r); }
    assert Split([]) == [] && Walk(r.a, 0, []) == Some(0);
    var e: seq<Cached> := [];
    assert CacheIndex(e, []) == 0;
    assert r.table + [0] == [0] && r.paths + [[]] == [[]] && r.cache + [Cached([], H0)] == [Cached([], H0)];
    assert Register(r, 0, []) == (r.(table := [0], paths := [[]], cache := [Cached([], H0)]), H0);
  }

  lemma RootThere(r: Reg)
    requires Wf(r.a)
    ensures Has(r.a, 0)
  {
  }

  lemma EmptyPath(active: bool)
    ensures RedirectSubKey(active, []) == []
  {
    assert Tokens(Truncate([], 512)) == [];
  }

  lemma {:induction false} RootCoherent(r: Reg)
    requires Fresh(r)
    ensures Coherent(OpenKey(r, HKEY_LOCAL_MACHINE, [], true).0)
  {
    RootOpened(r);
    FreshIsCoherent(r);
    OpenKeyTransparent(r, HKEY_LOCAL_MACHINE, [], true);
    EmptyPath(r.wow64);
  }

  /** Creating a plain new name under the root: its handle is the next one, and its path is cached second. */
  lemma {:induction false} NameCreated(r: Reg, name: WStr)
    requires Wf(r.a) && r.table == [0] && r.paths == [[]] && r.cache == [Cached([], H0)] && Coherent(r)
    requires Plain(name) && Kid(r.a, 0, name) == None
    ensures Usable(r, H0)
    ensures var (s, o) := CreateKey(r, H0, name, true);
            && o == Done(ERROR_SUCCESS, H1) && Coherent(s)
            && s.a == AddKey(r.a, 0, name) && Wf(s.a) && Kid(s.a, 0, name) == Some(|r.a|)
            && s.table == [0, |r.a|] && s.paths == [[], [BACKSLASH] + name]
            && s.cache == [Cached([], H0), Cached([BACKSLASH] + name, H1)]
  {
    hide Coherent, Wf, AddKey, Kid, Walk, Redirected;
    assert Has(r.a, 0) by { RootThere(r); }
    assert Index(H0) == 0;
    CoherentUsableAt(r, H0);
    GrowOne(r.a, 0, name);
    SingleToken(name);
    assert Split(name) == [name];
    assert [] + ([BACKSLASH] + name) == [BACKSLASH] + name;
    assert BuildFullPath(r, H0, name) == [BACKSLASH] + name;
    NotEmptyPath(name);
    CreateKeyTransparent(r, H0, name, true);
  }

  lemma CoherentUsableAt(r: Reg, h: int)
    requires Coherent(r)
    ensures Usable(r, h)
  {
    CoherentUsable(r, h);
  }

  lemma NotEmptyPath(name: WStr)
    ensures CacheIndex([Cached([], H0)], [BACKSLASH] + name) == 1
  {
    assert |Fold([])| == 0 && |Fold([BACKSLASH] + name)| > 0;
  }

  /** The stale handle, reached from any fresh start for any plain name the root does not have: open the root,
      create the name, delete it and create it again. The last call succeeds and hands out the first handle, which
      leads to freed memory, while the name now belongs to another key. */
  lemma {:induction false} StaleHandleReached(r: Reg, name: WStr)
    requires Fresh(r) && Plain(name) && Kid(r.a, 0, name) == None
    ensures Usable(r, HKEY_LOCAL_MACHINE)
    ensures var r1 := OpenKey(r, HKEY_LOCAL_MACHINE, [], true).0;
            Usable(r1, H0) &&
            var (r2, o2) := CreateKey(r1, H0, name, true);
            Usable(r2, H0) && o2 == Done(ERROR_SUCCESS, H1) &&
            var r3 := DeleteKey(r2, H0, name).0;
            Usable(r3, H0) &&
            var (r4, o4) := CreateKey(r3, H0, name, true);
            && o4 == Done(ERROR_SUCCESS, H1)
            && HandleToKey(r4, H1).Some? && !Has(r4.a, HandleToKey(r4, H1).value)
            && Wf(r4.a) && Has(r4.a, 0) && Kid(r4.a, 0, name).Some? && Kid(r4.a, 0, name) != HandleToKey(r4, H1)
            && Coherent(r2) && !Coherent(r4)
  {
    hide Wf, Kid, AddKey, RemoveKid, CreateKey, OpenKey, DeleteKey, Coherent;
    RootOpened(r);
    RootCoherent(r);
    var r1 := OpenKey(r, HKEY_LOCAL_MACHINE, [], true).0;
    NameCreated(r1, name);
    var r2 := CreateKey(r1, H0, name, true).0;
    CoherentUsableAt(r2, H0);
    assert HandleToKey(r2, H0) == Some(0) && HandleToKey(r2, H1) == Some(|r.a|);
    assert BuildFullPath(r2, H0, name) == [] + ([BACKSLASH] + name) == [BACKSLASH] + name == r2.cache[1].path;
    RecreatedKeyIsStale(r2, H0, name, 0, |r.a|, 1, true);
    var r4 := CreateKey(DeleteKey(r2, H0, name).0, H0, name, true).0;
    DeadEntry(r4, H1);
  }

  lemma DeadEntry(r: Reg, h: int)
    requires Wf(r.a) && HandleToKey(r, h).Some? && !Has(r.a, HandleToKey(r, h).value)
    ensures !Coherent(r)
  {
    if Coherent(r) { CoherentUsable(r, h); }
  }

  /** A path of 512 units or more that opens: it is cut to the name of another key, and the handle handed out is
      recorded under a path that does not lead to its key. */
  lemma {:induction false} LongPathReached(r: Reg, path: WStr)
    requires Fresh(r) && BACKSLASH !in path && |path| >= 512 && !Contains(path, RVPNNETMP)
    ensures Usable(r, HKEY_CURRENT_USER)
    ensures var r1 := CreateKey(r, HKEY_CURRENT_USER, path[..511], true).0;
            Usable(r1, HKEY_CURRENT_USER) &&
            var (r2, o2) := OpenKey(r1, HKEY_CURRENT_USER, path, true);
            o2.Done? && o2.status == ERROR_SUCCESS && Coherent(r1) && !Coherent(r2)
  {
    hide Coherent, Contains;
    var cut := path[..511];
    FreshIsCoherent(r);
    CoherentUsableAt(r, HKEY_CURRENT_USER);
    CreateKeyTransparent(r, HKEY_CURRENT_USER, cut, true);
    var r1 := CreateKey(r, HKEY_CURRENT_USER, cut, true).0;
    CoherentUsableAt(r1, HKEY_CURRENT_USER);
    assert Split(path) == Tokens(cut) == Split(cut);
    assert Walk(r1.a, 0, Tokens(cut)).Some?;
    assert !Fits(path, 512) by { assert path[511] in path; }
    OpenKeyTransparent(r1, HKEY_CURRENT_USER, path, true);
  }

  lemma {:induction false} WithoutUnit(s: WStr, t: WStr)
    requires t != [] && t[0] !in s
    ensures !Contains(s, t)
    decreases |s|
  {
    if |t| <= |s| {
      assert s[..|t|][0] == s[0] && s[0] in s;
      WithoutUnit(s[1..], t);
    }
  }

  /** One such path: 600 times the letter A. */
  lemma {:induction false} LongPathExists()
    ensures var path: WStr := seq(600, _ => 65); BACKSLASH !in path && |path| >= 512 && !Contains(path, RVPNNETMP)
  {
    var path: WStr := seq(600, _ => 65);
    WithoutUnit(path, RVPNNETMP);
  }

  /** A poll that comes between the queueing of a read and the store of STATUS_PENDING, on a handle just opened:
      it reports completion, with a count of 0, of a read that is still queued. */
  lemma {:induction false} EarlyPollReached(threads: nat, o: nat, buflen: nat, sock: Option<nat>)
    requires threads > 1
    ensures var es := [RE.Submit(0, o, buflen, sock)];
            var s := RE.Run(RE.Start(threads), es);
            && RS.AllAllowed(RE.Start(threads), es)
            && RS.InFlight(s, o) && RE.StatusOf(s, o) == RE.Status(false, 0) && RE.Step(s, RE.Check(1, o)) == s
  {
    var e := RE.Submit(0, o, buflen, sock);
    var s := RE.Step(RE.Start(threads), e);
    assert [e][1..] == [];
    assert RE.Run(RE.Start(threads), [e]) == RE.Run(s, []) == s;
    assert RS.Allowed(RE.Start(threads), e);
    assert RS.AllAllowed(s, []);
    assert s.queue[0] in s.queue;
    assert RS.QueuedOn(s.queue, o);
  }
}
