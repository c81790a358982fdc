/** Which conduits are run for a database: src/conduit.c. */
module Conduit {
  import opened Bytes
  import opened Options

  datatype Flavor = Fetch | Dump | Sync | Install | Init

  const ISNONE: ubyte := 1

  /** A creator and a type that a conduit applies to; zero is a wildcard. */
  datatype CreaType = CreaType(creator: udword, kind: udword, flags: ubyte)

  /** A conduit block of the configuration file. */
  datatype Block = Block(flavors: set<Flavor>, ctypes: seq<CreaType>, isDefault: bool, isFinal: bool,
                         path: Option<string>, enabled: bool)

  /** What conduits are wanted for: a database, or `None` for "type: none", and the flavors. */
  datatype Query = Query(db: Option<(udword, udword)>, mask: set<Flavor>)
  {
    function Creator(): udword { if db.Some? then db.value.0 else 0 }

    function Kind(): udword { if db.Some? then db.value.1 else 0 }

    function Flags(): ubyte { if db.Some? then 0 else ISNONE }
  }

  datatype Builtin = Builtin(name: string, flavors: set<Flavor>)

  const BUILTINS: seq<Builtin> :=
    [Builtin("[dummy]", {Install, Fetch, Dump, Sync}), Builtin("[generic]", {Sync})]

  // ----- Searches ----------------------------------------------------------------

  predicate Pair(ct: CreaType, q: Query) {
    && ct.flags == q.Flags()
    && (ct.creator == q.Creator() || ct.creator == 0) && (ct.kind == q.Kind() || ct.kind == 0)
  }

  predicate CreaTypeMatches(b: Block, q: Query) {
    exists i :: 0 <= i < |b.ctypes| && Pair(b.ctypes[i], q)
  }

  /** `crea_type_matches`. */
  method CreaTypeMatchesLoop(b: Block, creator: udword, kind: udword, flags: ubyte, ghost q: Query) returns (r: bool)
    requires creator == q.Creator() && kind == q.Kind() && flags == q.Flags()
    ensures r == CreaTypeMatches(b, q)
  {
    for i := 0 to |b.ctypes|
      invariant forall j :: 0 <= j < i ==> !Pair(b.ctypes[j], q)
    {
      if b.ctypes[i].flags != flags {
        continue;
      }
      if (b.ctypes[i].creator == creator || b.ctypes[i].creator == 0) && (b.ctypes[i].kind == kind || b.ctypes[i].kind == 0) {
        assert Pair(b.ctypes[i], q);
        return true;
      }
    }
    r := false;
  }

  /** `findConduitByName`. */
  method FindConduitByName(name: Option<string>) returns (r: Option<Builtin>)
    ensures r.Some? ==> r.value in BUILTINS && name == Some(r.value.name)
    ensures r.None? ==> forall b :: b in BUILTINS ==> name != Some(b.name)
  {
    if name.None? {
      return None;
    }
    for i := 0 to |BUILTINS|
      invariant forall j :: 0 <= j < i ==> name.value != BUILTINS[j].name
    {
      if name.value == BUILTINS[i].name {
        return Some(BUILTINS[i]);
      }
    }
    r := None;
  }

  // ----- The policy ----------------------------------------------------------------

  predicate Applies(b: Block, q: Query) {
    b.enabled && b.flavors * q.mask != {} && CreaTypeMatches(b, q)
  }

  /** A matching conduit that is not only a default. */
  predicate Real(b: Block, q: Query) { Applies(b, q) && !b.isDefault }

  /** A conduit that is built in, but not with any of the wanted flavors, is refused. */
  predicate Refused(b: Block, q: Query) {
    exists i :: 0 <= i < |BUILTINS| && b.path == Some(BUILTINS[i].name) && q.mask * BUILTINS[i].flavors == {}
  }

  predicate Runnable(b: Block, q: Query) { Real(b, q) && !Refused(b, q) }

  predicate Stops(b: Block, q: Query) { Runnable(b, q) && b.isFinal }

  /** The number of the first block that nothing is run after, or how many blocks there are. */
  function FirstStop(blocks: seq<Block>, q: Query): (k: nat)
    ensures k <= |blocks| && (k < |blocks| ==> Stops(blocks[k], q))
    ensures forall i :: 0 <= i < k ==> !Stops(blocks[i], q)
  {
    if blocks == [] then 0
    else
      var k := FirstStop(blocks[..|blocks| - 1], q);
      if k < |blocks| - 1 || Stops(blocks[|blocks| - 1], q) then k else |blocks|
  }

  /** The runnable blocks among the first `n`, in order. */
  function Runs(blocks: seq<Block>, q: Query, n: nat): (r: seq<nat>)
    requires n <= |blocks|
    ensures forall i :: 0 <= i < |r| ==> r[i] < n
  {
    if n == 0 then []
    else Runs(blocks, q, n - 1) + if Runnable(blocks[n - 1], q) then [n - 1] else []
  }

  /** The last default block that applies among the first `n`, or -1. */
  function LastDefault(blocks: seq<Block>, q: Query, n: nat): (k: int)
    requires n <= |blocks|
    ensures -1 <= k < n && (k >= 0 ==> Applies(blocks[k], q) && blocks[k].isDefault)
    ensures forall i :: k < i < n ==> !(Applies(blocks[i], q) && blocks[i].isDefault)
  {
    if n == 0 then -1
    else if Applies(blocks[n - 1], q) && blocks[n - 1].isDefault then n - 1
    else LastDefault(blocks, q, n - 1)
  }

  predicate AnyReal(blocks: seq<Block>, q: Query, n: nat)
    requires n <= |blocks|
  {
    exists i :: 0 <= i < n && Real(blocks[i], q)
  }

  /** Whether it is up to the default: nothing else matches, and there is a real database. */
  predicate DefaultTurn(blocks: seq<Block>, q: Query) {
    !AnyReal(blocks, q, |blocks|) && LastDefault(blocks, q, |blocks|) >= 0 && q.db.Some?
  }

  predicate DefaultRefused(blocks: seq<Block>, q: Query) {
    DefaultTurn(blocks, q) && Refused(blocks[LastDefault(blocks, q, |blocks|)], q)
  }

  /** The blocks that are run, in order, if nothing is cancelled. */
  function Executed(blocks: seq<Block>, q: Query): seq<nat> {
    var stop := FirstStop(blocks, q);
    if stop < |blocks| then Runs(blocks, q, stop + 1)
    else if DefaultTurn(blocks, q) then if DefaultRefused(blocks, q) then [] else [LastDefault(blocks, q, |blocks|)]
    else Runs(blocks, q, |blocks|)
  }

  // ----- The loop ------------------------------------------------------------------

  /** How a conduit ended; `Cancelled` is an error with `CSE_CANCEL` or `CSE_NOCONN`. */
  datatype Ending = Fine | Abnormal | Cancelled

  datatype Run = Run(block: nat, ending: Ending)

  function Blocks(log: seq<Run>): (r: seq<nat>)
    ensures |r| == |log|
  {
    seq(|log|, i requires 0 <= i < |log| => log[i].block)
  }

  lemma BlocksOneMore(log: seq<Run>, run: Run)
    ensures Blocks(log + [run]) == Blocks(log) + [run.block]
  {
  }

  /** What runs conduits, and has kept note of each. */
  class Launcher {
    ghost var history: seq<(Block, Ending)>

    /** `run_conduit`, or the function of a built-in conduit. */
    method Launch(b: Block) returns (ending: Ending)
      modifies this
      ensures history == old(history) + [(b, ending)]
    {
      ending := Cancelled;
      if * {
        ending := Fine;
      } else if * {
        ending := Abnormal;
      }
      history := history + [(b, ending)];
    }
  }

  /** The notes that a log stands for. */
  function Notes(blocks: seq<Block>, log: seq<Run>): (r: seq<(Block, Ending)>)
    requires forall i :: 0 <= i < |log| ==> log[i].block < |blocks|
  {
    seq(|log|, i requires 0 <= i < |log| => (blocks[log[i].block], log[i].ending))
  }

  /** Since the history was `before`, what is in the log has been run, and nothing else. */
  ghost predicate Noted(history: seq<(Block, Ending)>, before: seq<(Block, Ending)>, blocks: seq<Block>, log: seq<Run>) {
    && (forall i :: 0 <= i < |log| ==> log[i].block < |blocks|)
    && history == before + Notes(blocks, log)
  }

  lemma NotedMore(history: seq<(Block, Ending)>, before: seq<(Block, Ending)>, blocks: seq<Block>, log: seq<Run>, run: Run)
    requires Noted(history, before, blocks, log) && run.block < |blocks|
    ensures Noted(history + [(blocks[run.block], run.ending)], before, blocks, log + [run])
  {
    assert Notes(blocks, log + [run]) == Notes(blocks, log) + [(blocks[run.block], run.ending)];
  }

  predicate NoneCancelled(log: seq<Run>) {
    forall i :: 0 <= i < |log| ==> log[i].ending != Cancelled
  }

  lemma {:induction false} RunsGrow(blocks: seq<Block>, q: Query, n: nat, m: nat)
    requires n <= m <= |blocks|
    ensures Runs(blocks, q, n) <= Runs(blocks, q, m)
    decreases m
  {
    if n < m { RunsGrow(blocks, q, n, m - 1); }
  }

  /** While the loop runs, what it has run begins what is to be run. */
  lemma RunsBegin(blocks: seq<Block>, q: Query, n: nat)
    requires n < |blocks| && n <= FirstStop(blocks, q) && Runnable(blocks[n], q)
    ensures Runs(blocks, q, n + 1) == Runs(blocks, q, n) + [n]
    ensures Runs(blocks, q, n + 1) <= Executed(blocks, q)
    ensures blocks[n].isFinal ==> FirstStop(blocks, q) == n && Executed(blocks, q) == Runs(blocks, q, n + 1)
  {
    hide Runnable;
    var stop := FirstStop(blocks, q);
    assert Real(blocks[n], q) by { RunnableIsReal(blocks[n], q); }
    assert AnyReal(blocks, q, |blocks|);
    RunsGrow(blocks, q, n + 1, if stop < |blocks| then stop + 1 else |blocks|);
  }

  lemma RunnableIsReal(b: Block, q: Query)
    requires Runnable(b, q)
    ensures Real(b, q) && !Refused(b, q)
  {
  }

  /** Runs one conduit that matches. `refused`: it is built in and has the wrong flavors. */
  method RunOne(l: Launcher, b: Block, q: Query) returns (refused: bool, ending: Ending)
    modifies l
    ensures refused == Refused(b, q)
    ensures l.history == if refused then old(l.history) else old(l.history) + [(b, ending)]
  {
    refused, ending := false, Fine;
    var builtin := FindConduitByName(b.path);
    if builtin.Some? {
      FoundRefuses(b, q, builtin.value);
      if q.mask * builtin.value.flavors == {} {
        refused := true;
        return;
      }
    }
    ending := l.Launch(b);
  }

  /** The names of the built-in conduits are different. */
  lemma FoundRefuses(b: Block, q: Query, builtin: Builtin)
    requires builtin in BUILTINS && b.path == Some(builtin.name)
    ensures Refused(b, q) <==> q.mask * builtin.flavors == {}
  {
    assert BUILTINS[0].name[1] != BUILTINS[1].name[1];
    if builtin == BUILTINS[0] {
    } else {
      assert builtin == BUILTINS[1];
    }
  }

  /** The three tests that a block has to pass. */
  method MatchesBlock(conduit: Block, creator: udword, kind: udword, flags: ubyte, q: Query) returns (r: bool)
    requires creator == q.Creator() && kind == q.Kind() && flags == q.Flags()
    ensures r == Applies(conduit, q)
  {
    if !conduit.enabled {
      return false;
    }
    if conduit.flavors * q.mask == {} {
      return false;
    }
    r := CreaTypeMatchesLoop(conduit, creator, kind, flags, q);
  }

  /** `run_conduits`: what is run is what the policy says, up to the first conduit
      that is cancelled; and the result is negative when one was, or the default
      was refused. */
  method RunConduits(l: Launcher, blocks: seq<Block>, q: Query) returns (err: int, log: seq<Run>)
    modifies l
    ensures Noted(l.history, old(l.history), blocks, log)
    ensures Blocks(log) <= Executed(blocks, q)
    ensures NoneCancelled(log) ==> Blocks(log) == Executed(blocks, q)
    ensures !NoneCancelled(log) ==> log[|log| - 1].ending == Cancelled && NoneCancelled(log[..|log| - 1])
    ensures err == if NoneCancelled(log) && !DefaultRefused(blocks, q) then 0 else -1
  {
    hide Applies, Refused, Executed, Runs, AnyReal, FirstStop, LastDefault, DefaultTurn, DefaultRefused, CreaTypeMatches,
         Blocks, Notes, Noted, NoneCancelled;
    var creator, kind, flags := 0, 0, ISNONE;
    if q.db.Some? {
      creator, kind, flags := q.db.value.0, q.db.value.1, 0;
    }
    var defConduit := -1;
    var foundConduit := false;
    log := [];
    NothingYet(blocks, q);
    NothingNoted(l.history, blocks);
    for i := 0 to |blocks|
      invariant NoneCancelled(log) && Blocks(log) == Runs(blocks, q, i) && i <= FirstStop(blocks, q)
      invariant defConduit == LastDefault(blocks, q, i) && foundConduit == AnyReal(blocks, q, i)
      invariant creator == q.Creator() && kind == q.Kind() && flags == q.Flags()
      invariant Noted(l.history, old(l.history), blocks, log)
    {
      var conduit := blocks[i];
      NextBlock(blocks, q, i);
      var matches := MatchesBlock(conduit, creator, kind, flags, q);
      if !matches {
        continue;
      }
      if conduit.isDefault {
        defConduit := i;
        continue;
      }
      foundConduit := true;
      ghost var history := l.history;
      var refused, ending := RunOne(l, conduit, q);
      if refused {
        continue;
      }
      RunsBegin(blocks, q, i);
      BlocksOneMore(log, Run(i, ending));
      NotedMore(history, old(l.history), blocks, log, Run(i, ending));
      CancelledLast(log, Run(i, ending));
      log := log + [Run(i, ending)];
      if ending == Cancelled {
        StopsNoDefault(blocks, q, i);
        return -1, log;
      }
      if conduit.isFinal {
        StopsNoDefault(blocks, q, i);
        return 0, log;
      }
    }
    WhenDone(blocks, q);
    if !foundConduit && defConduit >= 0 && q.db.Some? {
      ghost var history := l.history;
      var refused, ending := RunOne(l, blocks[defConduit], q);
      if refused {
        return -1, log;
      }
      BlocksOneMore(log, Run(defConduit, ending));
      NotedMore(history, old(l.history), blocks, log, Run(defConduit, ending));
      CancelledLast(log, Run(defConduit, ending));
      log := log + [Run(defConduit, ending)];
      if ending == Cancelled {
        return -1, log;
      }
    }
    err := 0;
  }

  lemma CancelledLast(log: seq<Run>, run: Run)
    ensures NoneCancelled(log + [run]) <==> NoneCancelled(log) && run.ending != Cancelled
    ensures (log + [run])[..|log|] == log && (log + [run])[|log|] == run
  {
    if NoneCancelled(log + [run]) {
      assert forall i :: 0 <= i < |log| ==> (log + [run])[i] == log[i];
      assert (log + [run])[|log|] == run;
    }
  }

  lemma NothingNoted(history: seq<(Block, Ending)>, blocks: seq<Block>)
    ensures Noted(history, history, blocks, []) && NoneCancelled([])
  {
    assert Notes(blocks, []) == [];
  }

  lemma NothingYet(blocks: seq<Block>, q: Query)
    ensures Runs(blocks, q, 0) == [] && LastDefault(blocks, q, 0) == -1 && !AnyReal(blocks, q, 0) && Blocks([]) == []
  {
  }

  /** What one more block looked at changes. */
  lemma NextBlock(blocks: seq<Block>, q: Query, i: nat)
    requires i < |blocks| && i <= FirstStop(blocks, q)
    ensures Runs(blocks, q, i + 1) == Runs(blocks, q, i) + if Runnable(blocks[i], q) then [i] else []
    ensures LastDefault(blocks, q, i + 1) == if Applies(blocks[i], q) && blocks[i].isDefault then i else LastDefault(blocks, q, i)
    ensures AnyReal(blocks, q, i + 1) == (AnyReal(blocks, q, i) || Real(blocks[i], q))
    ensures !Stops(blocks[i], q) ==> i + 1 <= FirstStop(blocks, q)
  {
    hide Applies, Refused, Real, Runnable, Stops;
  }

  lemma StopsNoDefault(blocks: seq<Block>, q: Query, i: nat)
    requires i < |blocks| && Real(blocks[i], q)
    ensures !DefaultTurn(blocks, q) && !DefaultRefused(blocks, q)
  {
    hide Real;
    assert AnyReal(blocks, q, |blocks|);
  }

  lemma WhenDone(blocks: seq<Block>, q: Query)
    requires FirstStop(blocks, q) == |blocks|
    ensures var d := LastDefault(blocks, q, |blocks|);
            && (DefaultTurn(blocks, q) <==> !AnyReal(blocks, q, |blocks|) && d >= 0 && q.db.Some?)
            && (DefaultRefused(blocks, q) <==> DefaultTurn(blocks, q) && Refused(blocks[d], q))
            && Executed(blocks, q) == (if !DefaultTurn(blocks, q) then Runs(blocks, q, |blocks|)
                                       else if DefaultRefused(blocks, q) then [] else [d])
    ensures DefaultTurn(blocks, q) ==> Runs(blocks, q, |blocks|) == []
  {
    hide Refused, FirstStop;
    if DefaultTurn(blocks, q) { NoRuns(blocks, q, |blocks|); }
  }

  lemma {:induction false} NoRuns(blocks: seq<Block>, q: Query, n: nat)
    requires n <= |blocks| && !AnyReal(blocks, q, n)
    ensures Runs(blocks, q, n) == []
  {
    hide Applies, Refused;
    if n > 0 {
      assert !Real(blocks[n - 1], q);
      NoRuns(blocks, q, n - 1);
    }
  }

  // ----- What the policy means -------------------------------------------------------

  lemma {:induction false} RunsExactly(blocks: seq<Block>, q: Query, n: nat, i: nat)
    requires n <= |blocks|
    ensures i in Runs(blocks, q, n) <==> i < n && Runnable(blocks[i], q)
    decreases n
  {
    hide Runnable;
    if n > 0 {
      RunsExactly(blocks, q, n - 1, i);
    }
  }

  predicate Ascending(r: seq<nat>) {
    forall i, j :: 0 <= i < j < |r| ==> r[i] < r[j]
  }

  lemma AscendingMore(r: seq<nat>, n: nat)
    requires Ascending(r) && forall i :: 0 <= i < |r| ==> r[i] < n
    ensures Ascending(r + [n]) && Ascending(r + [])
  {
  }

  lemma {:induction false} RunsAscend(blocks: seq<Block>, q: Query, n: nat)
    requires n <= |blocks|
    ensures Ascending(Runs(blocks, q, n))
  {
    hide Runnable, Ascending;
    if n > 0 {
      RunsAscend(blocks, q, n - 1);
      AscendingMore(Runs(blocks, q, n - 1), n - 1);
    } else {
      NoneAscend();
    }
  }

  lemma NoneAscend()
    ensures Ascending([]) && forall n: nat :: Ascending([n])
  {
  }

  /** The turn of block `i` as the default. */
  predicate IsDefaultRun(blocks: seq<Block>, q: Query, i: nat)
    requires i < |blocks|
  {
    && q.db.Some? && Applies(blocks[i], q) && blocks[i].isDefault && !Refused(blocks[i], q)
    && (forall j :: 0 <= j < |blocks| ==> !Real(blocks[j], q))
    && (forall j :: i < j < |blocks| ==> !(Applies(blocks[j], q) && blocks[j].isDefault))
  }

  lemma DefaultRunIs(blocks: seq<Block>, q: Query, i: nat)
    requires i < |blocks|
    ensures IsDefaultRun(blocks, q, i)
            <==> DefaultTurn(blocks, q) && !DefaultRefused(blocks, q) && LastDefault(blocks, q, |blocks|) == i
  {
    hide Applies, Refused, Real;
  }

  lemma NoDefaultAfterStop(blocks: seq<Block>, q: Query, i: nat)
    requires i < |blocks| && FirstStop(blocks, q) < |blocks|
    ensures !IsDefaultRun(blocks, q, i)
  {
    hide Applies, Refused;
    assert Real(blocks[FirstStop(blocks, q)], q);
  }

  /** A block is run exactly when it is runnable and no runnable final one comes
      before it; or when it is the last default that applies to a database for
      which nothing else does, and not refused. */
  lemma ExecutedExactly(blocks: seq<Block>, q: Query, i: nat)
    requires i < |blocks|
    ensures i in Executed(blocks, q) <==>
              (Runnable(blocks[i], q) && forall j :: 0 <= j < i ==> !Stops(blocks[j], q)) || IsDefaultRun(blocks, q, i)
  {
    var stop := FirstStop(blocks, q);
    RunsExactly(blocks, q, if stop < |blocks| then stop + 1 else |blocks|, i);
    DefaultRunIs(blocks, q, i);
    if stop < |blocks| {
      NoDefaultAfterStop(blocks, q, i);
      hide Stops, IsDefaultRun, Runnable, Runs;
    } else {
      WhenDone(blocks, q);
      hide Stops, IsDefaultRun, Runnable, Runs, DefaultTurn, DefaultRefused, LastDefault;
    }
  }

  /** Blocks are run in order, each once. */
  lemma ExecutedAscend(blocks: seq<Block>, q: Query)
    ensures Ascending(Executed(blocks, q))
  {
    var stop := FirstStop(blocks, q);
    RunsAscend(blocks, q, if stop < |blocks| then stop + 1 else |blocks|);
    NoneAscend();
    hide Runs, DefaultTurn, DefaultRefused, Ascending;
  }

  lemma {:induction false} RunsOfFront(blocks: seq<Block>, more: seq<Block>, q: Query, n: nat)
    requires n <= |blocks|
    ensures Runs(blocks + more, q, n) == Runs(blocks, q, n)
  {
    hide Runnable;
    if n > 0 {
      RunsOfFront(blocks, more, q, n - 1);
      assert (blocks + more)[n - 1] == blocks[n - 1];
    }
  }

  lemma FirstStopIs(blocks: seq<Block>, q: Query, k: nat)
    requires k < |blocks| && Stops(blocks[k], q) && forall i :: 0 <= i < k ==> !Stops(blocks[i], q)
    ensures FirstStop(blocks, q) == k
  {
    hide Stops;
  }

  lemma StoppedAt(blocks: seq<Block>, q: Query, k: nat)
    requires k < |blocks| && FirstStop(blocks, q) == k
    ensures Executed(blocks, q) == Runs(blocks, q, k + 1)
  {
    hide Runs, DefaultTurn, DefaultRefused, FirstStop;
  }

  lemma SameFirstStop(blocks: seq<Block>, more: seq<Block>, q: Query)
    requires FirstStop(blocks, q) < |blocks|
    ensures FirstStop(blocks + more, q) == FirstStop(blocks, q)
  {
    var k := FirstStop(blocks, q);
    hide FirstStop, Stops;
    forall i | 0 <= i < k
      ensures !Stops((blocks + more)[i], q)
    {
      assert (blocks + more)[i] == blocks[i];
    }
    assert (blocks + more)[k] == blocks[k];
    FirstStopIs(blocks + more, q, k);
  }

  /** Nothing that comes after a runnable final block makes a difference. */
  lemma AfterFinal(blocks: seq<Block>, more: seq<Block>, q: Query)
    requires FirstStop(blocks, q) < |blocks|
    ensures Executed(blocks + more, q) == Executed(blocks, q)
  {
    hide *;
    var k := FirstStop(blocks, q);
    SameFirstStop(blocks, more, q);
    StoppedAt(blocks, q, k);
    StoppedAt(blocks + more, q, k);
    RunsOfFront(blocks, more, q, k + 1);
  }

  /** A block that is run for every query with these flavors. */
  function Catchall(q: Query): Block {
    Block(q.mask, [CreaType(0, 0, q.Flags())], false, false, None, true)
  }

  lemma CatchallRuns(q: Query)
    requires q.mask != {}
    ensures Runnable(Catchall(q), q) && !Stops(Catchall(q), q)
  {
    assert Pair(Catchall(q).ctypes[0], q);
    assert q.mask * q.mask == q.mask;
  }

  lemma AfterOthers(blocks: seq<Block>, q: Query)
    requires FirstStop(blocks, q) == |blocks| && q.mask != {}
    ensures |blocks| in Executed(blocks + [Catchall(q)], q) && |blocks| !in Executed(blocks, q)
  {
    CatchallRuns(q);
    var all := blocks + [Catchall(q)];
    hide Catchall, Applies, Refused, Runnable, Real;
    assert forall i :: 0 <= i < |blocks| ==> all[i] == blocks[i];
    assert FirstStop(all, q) == |all|;
    CatchallReal(q);
    assert Real(all[|blocks|], q);
    assert AnyReal(all, q, |all|);
    RunsExactly(all, q, |all|, |blocks|);
    RunsExactly(blocks, q, |blocks|, |blocks|);
  }

  lemma CatchallReal(q: Query)
    requires q.mask != {}
    ensures Real(Catchall(q), q)
  {
    CatchallRuns(q);
  }

  /** What is appended to the configuration never matters exactly when there is a
      runnable final block in it already. */
  lemma AppendedIgnored(blocks: seq<Block>, q: Query)
    requires q.mask != {}
    ensures (forall more :: Executed(blocks + more, q) == Executed(blocks, q))
            <==> exists i :: 0 <= i < |blocks| && Stops(blocks[i], q)
  {
    if FirstStop(blocks, q) < |blocks| {
      forall more
        ensures Executed(blocks + more, q) == Executed(blocks, q)
      {
        AfterFinal(blocks, more, q);
      }
      assert Stops(blocks[FirstStop(blocks, q)], q);
    } else {
      AfterOthers(blocks, q);
    }
  }

  /** Exactly what a block applies to: it is enabled, it has one of the wanted
      flavors, and one of its pairs is for this database, a zero for any creator
      or any type; or is the pair "none", when no database is asked for. */
  lemma AppliesExactly(b: Block, q: Query)
    ensures Applies(b, q) <==>
              && b.enabled && (exists f :: f in b.flavors && f in q.mask)
              && exists ct :: ct in b.ctypes &&
                   match q.db
                   case None => ct == CreaType(0, 0, 1)
                   case Some((creator, kind)) => ct.flags == 0 && ct.creator in {0, creator} && ct.kind in {0, kind}
  {
    if f :| f in b.flavors && f in q.mask { assert f in b.flavors * q.mask; }
    if CreaTypeMatches(b, q) {
      var i :| 0 <= i < |b.ctypes| && Pair(b.ctypes[i], q);
      assert b.ctypes[i] in b.ctypes;
    }
    if ct :| ct in b.ctypes && Pair(ct, q) {
      var i :| 0 <= i < |b.ctypes| && b.ctypes[i] == ct;
      assert Pair(b.ctypes[i], q);
    }
  }

  lemma OnlyInit(mask: set<Flavor>)
    ensures mask * {Install, Fetch, Dump, Sync} == {} <==> mask <= {Init}
    ensures mask * {Sync} == {} <==> Sync !in mask
  {
    var common := mask * {Install, Fetch, Dump, Sync};
    if common == {} {
      forall f | f in mask
        ensures f == Init
      {
        assert f !in common;
      }
    }
    if Sync in mask { assert Sync in mask * {Sync}; }
  }

  /** And which queries a built-in conduit is refused for. */
  lemma RefusedExactly(b: Block, q: Query)
    ensures Refused(b, q) <==>
              || (b.path == Some("[dummy]") && q.mask <= {Init})
              || (b.path == Some("[generic]") && Sync !in q.mask)
  {
    assert |BUILTINS| == 2 && BUILTINS[0].name == "[dummy]" && BUILTINS[1].name == "[generic]";
    OnlyInit(q.mask);
    if b.path == Some("[dummy]") && q.mask <= {Init} { assert b.path == Some(BUILTINS[0].name) && q.mask * BUILTINS[0].flavors == {}; }
    if b.path == Some("[generic]") && Sync !in q.mask { assert b.path == Some(BUILTINS[1].name) && q.mask * BUILTINS[1].flavors == {}; }
  }

  /** The call fails without anything being cancelled exactly when, for a database,
      nothing but defaults applies and the last of these is refused. */
  lemma DefaultRefusedExactly(blocks: seq<Block>, q: Query)
    ensures DefaultRefused(blocks, q) <==>
              && q.db.Some?
              && (forall b :: b in blocks && Applies(b, q) ==> b.isDefault)
              && exists k :: 0 <= k < |blocks| && Applies(blocks[k], q) && blocks[k].isDefault && Refused(blocks[k], q)
                             && forall j :: k < j < |blocks| ==> !(Applies(blocks[j], q) && blocks[j].isDefault)
  {
    hide Applies, Refused;
    var k := LastDefault(blocks, q, |blocks|);
    hide LastDefault;
    if DefaultRefused(blocks, q) {
      forall b | b in blocks && Applies(b, q)
        ensures b.isDefault
      {
        var i :| 0 <= i < |blocks| && blocks[i] == b;
        assert !Real(blocks[i], q);
      }
      assert 0 <= k < |blocks| && Applies(blocks[k], q) && blocks[k].isDefault && Refused(blocks[k], q);
    }
    if (forall b :: b in blocks && Applies(b, q) ==> b.isDefault) {
      forall i | 0 <= i < |blocks|
        ensures !Real(blocks[i], q)
      {
        assert blocks[i] in blocks;
      }
    }
  }

  /** So only blocks that are for the database, the flavor and the way they are
      built in for are ever run for it. */
  lemma RunIsMeant(blocks: seq<Block>, q: Query, i: nat)
    requires i < |blocks| && i in Executed(blocks, q)
    ensures var b := blocks[i];
            && b.enabled && (exists f :: f in b.flavors && f in q.mask)
            && (forall creator, kind :: q.db == Some((creator, kind)) ==>
                  exists ct :: ct in b.ctypes && ct.flags == 0 && ct.creator in {0, creator} && ct.kind in {0, kind})
            && (b.path == Some("[generic]") ==> Sync in q.mask)
  {
    ExecutedExactly(blocks, q, i);
    AppliesExactly(blocks[i], q);
    RefusedExactly(blocks[i], q);
    hide Executed, Refused, Stops, CreaTypeMatches;
  }

  /** What a query for dumping one database meets: a final conduit that is built
      in and cannot dump, and a default. */
  function DumpQuery(): Query { Query(Some((1, 1)), {Dump}) }

  function GenericFinal(): Block { Block({Dump}, [CreaType(0, 0, 0)], false, true, Some("[generic]"), true) }

  function PlainDefault(): Block { Block({Dump}, [CreaType(0, 0, 0)], true, false, None, true) }

  lemma GenericCannotDump()
    ensures Real(GenericFinal(), DumpQuery()) && Refused(GenericFinal(), DumpQuery())
  {
    var q, g := DumpQuery(), GenericFinal();
    assert Pair(g.ctypes[0], q);
    assert g.flavors * q.mask == {Dump};
    assert q.mask * BUILTINS[1].flavors == {} && g.path == Some(BUILTINS[1].name);
  }

  lemma DefaultApplies()
    ensures var b := PlainDefault();
            Applies(b, DumpQuery()) && b.isDefault && !Refused(b, DumpQuery())
  {
    assert Pair(PlainDefault().ctypes[0], DumpQuery());
    assert PlainDefault().flavors * DumpQuery().mask == {Dump};
  }

  lemma SecondOfTwo(a: Block, b: Block, q: Query)
    requires Real(a, q)
    ensures 1 in Executed([a, b], q) <==> Runnable(b, q) && !Stops(a, q)
  {
    ExecutedExactly([a, b], q, 1);
    hide Executed, Runnable, Applies, Refused, Real, Stops;
    assert [a, b][0] == a && [a, b][1] == b;
  }

  lemma OnlyDefault(b: Block, q: Query)
    requires Applies(b, q) && b.isDefault && !Refused(b, q) && q.db.Some?
    ensures 0 in Executed([b], q)
  {
    ExecutedExactly([b], q, 0);
    hide Executed, Applies, Refused;
    assert IsDefaultRun([b], q, 0);
  }

  /** A final block of the wrong flavor, built in, does not stop the search; but
      it is enough to keep the default from being run. */
  lemma RefusedFinalKeepsDefaultAway()
    ensures var q := DumpQuery();
            && 0 in Executed([PlainDefault()], q) && 1 !in Executed([GenericFinal(), PlainDefault()], q)
            && 1 in Executed([GenericFinal(), Catchall(q)], q)
  {
    var q := DumpQuery();
    GenericCannotDump();
    DefaultApplies();
    CatchallRuns(q);
    OnlyDefault(PlainDefault(), q);
    SecondOfTwo(GenericFinal(), PlainDefault(), q);
    SecondOfTwo(GenericFinal(), Catchall(q), q);
    hide Applies, Refused, Catchall, Executed, GenericFinal, PlainDefault;
  }
}
