/** The bounded job launcher that both experiment scripts run: a list of
    commands, a dispatch cursor `NextURLNo`, and the list `Processes` of
    handles that have not yet been seen to exit.

    A handle is the index of the command it was spawned for: the cursor only
    moves forward, so every spawn yields a handle never seen before.
    `poll()` becomes an oracle: the set of handles whose process has exited
    when `CheckRunning` looks at them. */
module Launcher {

  /** One (instance, setting, controller) parameter combination. */
  datatype Triple = Triple(instance: string, setting: string, controller: string)

  /** The argument list handed to the simulator. */
  type Command = seq<string>

  /** A spawned process, named by the index of its command. */
  type Handle = nat

  /** Python's `xs[p]` for `-len(xs) <= p < len(xs)`. */
  function PyIndex(len: nat, p: int): (i: nat)
    requires -(len as int) <= p < len
    ensures i < len
    ensures p < 0 ==> i + (-p) == len
    ensures p >= 0 ==> i == p
  {
    if p < 0 then len + p else p
  }

  // ---------------------------------------------------------------------
  // Building the command list

  /** `for i in range(Iteration): for t in FileNames: cmds.append(make(t))`:
      iteration index outer, triple inner. */
  method BuildCommands(iteration: nat, fileNames: seq<Triple>, make: Triple -> Command)
    returns (cmds: seq<Command>)
    ensures |cmds| == iteration * |fileNames|
    ensures forall k :: 0 <= k < |cmds| ==> cmds[k] == make(fileNames[k % |fileNames|])
  {
    cmds := [];
    var i := 0;
    while i < iteration
      invariant 0 <= i <= iteration
      invariant |cmds| == i * |fileNames|
      invariant forall k :: 0 <= k < |cmds| ==> cmds[k] == make(fileNames[k % |fileNames|])
    {
      var j := 0;
      while j < |fileNames|
        invariant 0 <= j <= |fileNames|
        invariant |cmds| == i * |fileNames| + j
        invariant forall k :: 0 <= k < |cmds| ==> cmds[k] == make(fileNames[k % |fileNames|])
      {
        ExtendCommands(cmds, fileNames, make, i, j);
        cmds := cmds + [make(fileNames[j])];
        j := j + 1;
      }
      i := i + 1;
    }
  }

  /** Appending the command for triple `j` in iteration `i` keeps every entry
      built from its triple. */
  lemma ExtendCommands(cmds: seq<Command>, fileNames: seq<Triple>, make: Triple -> Command, i: nat, j: nat)
    requires j < |fileNames| && |cmds| == i * |fileNames| + j
    requires forall k :: 0 <= k < |cmds| ==> cmds[k] == make(fileNames[k % |fileNames|])
    ensures forall k :: 0 <= k < |cmds| + 1 ==>
      (cmds + [make(fileNames[j])])[k] == make(fileNames[k % |fileNames|])
  {
    IterationSlot(i, j, |fileNames|);
  }

  /** Entry `i * T + j` of the command list comes from triple `j`. */
  lemma IterationSlot(i: nat, j: nat, t: nat)
    requires j < t
    ensures (i * t + j) % t == j && (i * t + j) / t == i
  {
    var x := i * t + j;
    var q, r := x / t, x % t;
    assert x == q * t + r;
    if q > i {
      MulAtLeast(q - i, t);
    } else if q < i {
      MulAtLeast(i - q, t);
    }
  }

  /** A positive multiple of t is at least t. */
  lemma MulAtLeast(a: int, t: nat)
    requires a >= 1
    ensures a * t >= t
  {
  }

  // ---------------------------------------------------------------------
  // Reaping

  /** The handles of `ps` that `poll()` reports as still running, in order:
      what the reap must leave. They are live handles that have not exited,
      never more than were live. */
  function Survivors(ps: seq<Handle>, finished: set<Handle>): (r: seq<Handle>)
    ensures |r| <= |ps|
    ensures forall i :: 0 <= i < |r| ==> r[i] in ps && r[i] !in finished
  {
    if ps == [] then []
    else if ps[|ps| - 1] in finished then Survivors(ps[..|ps| - 1], finished)
    else Survivors(ps[..|ps| - 1], finished) + [ps[|ps| - 1]]
  }

  /** The reap removes exactly the finished handles: a handle survives if and
      only if it was live and has not exited. */
  lemma {:induction false} SurvivorsExact(ps: seq<Handle>, finished: set<Handle>)
    ensures forall h :: h in Survivors(ps, finished) <==> h in ps && h !in finished
  {
    if ps != [] {
      SurvivorsExact(ps[..|ps| - 1], finished);
      assert ps == ps[..|ps| - 1] + [ps[|ps| - 1]];
    }
  }

  /** When every live handle has exited, the reap empties the list. */
  lemma {:induction false} NoneSurvive(ps: seq<Handle>, finished: set<Handle>)
    requires forall h :: h in ps ==> h in finished
    ensures Survivors(ps, finished) == []
  {
    if ps != [] {
      assert ps[|ps| - 1] in ps;
      assert forall h :: h in ps[..|ps| - 1] ==> h in ps;
      NoneSurvive(ps[..|ps| - 1], finished);
    }
  }

  predicate Increasing(ps: seq<Handle>) {
    forall i, j :: 0 <= i < j < |ps| ==> ps[i] < ps[j]
  }

  /** The survivors keep their relative order: they are a subsequence, so an
      increasing list of handles stays increasing. */
  lemma {:induction false} SurvivorsKeepOrder(ps: seq<Handle>, finished: set<Handle>)
    requires Increasing(ps)
    ensures Increasing(Survivors(ps, finished))
  {
    if ps != [] {
      var init := ps[..|ps| - 1];
      SurvivorsKeepOrder(init, finished);
      SurvivorsExact(init, finished);
      var s := Survivors(init, finished);
      forall i | 0 <= i < |s| ensures s[i] < ps[|ps| - 1] {
        assert s[i] in init;
      }
    }
  }

  lemma SurvivorsStep(ps: seq<Handle>, j: nat, finished: set<Handle>)
    requires j < |ps|
    ensures Survivors(ps[..j + 1], finished) ==
      Survivors(ps[..j], finished) + (if ps[j] in finished then [] else [ps[j]])
  {
    assert ps[..j + 1][..j] == ps[..j];
  }

  /** The jobs `lo, lo + 1, ..., hi - 1`. */
  function Span(lo: nat, hi: nat): (r: seq<Handle>)
    requires lo <= hi
    ensures |r| == hi - lo
    ensures forall i :: 0 <= i < |r| ==> r[i] == lo + i
    decreases hi - lo
  {
    if lo == hi then [] else Span(lo, hi - 1) + [hi - 1]
  }

  /** The jobs `0 .. n - 1` as a set. */
  function Below(n: nat): (r: set<Handle>)
    ensures forall k: Handle :: k in r <==> k < n
  {
    if n == 0 then {} else Below(n - 1) + {n - 1}
  }

  /** The handles listed in ps. */
  function Elems(ps: seq<Handle>): set<Handle> {
    set h | h in ps
  }

  /** Deleting the element right after `done` leaves `done` and the rest. */
  lemma DeleteAfter(done: seq<Handle>, rest: seq<Handle>)
    requires rest != []
    ensures (done + rest)[|done|] == rest[0]
    ensures (done + rest)[..|done|] + (done + rest)[|done| + 1..] == done + rest[1..]
  {
  }

  /** Keeping the element right after `done` moves it over to `done`. */
  lemma KeepAfter(done: seq<Handle>, rest: seq<Handle>)
    requires rest != []
    ensures done + rest == (done + [rest[0]]) + rest[1..]
  {
  }

  /** Advancing the walk by one handle, on prefix and suffix. */
  lemma PrefixStep(ps: seq<Handle>, j: nat)
    requires j < |ps|
    ensures ps[..j + 1] == ps[..j] + [ps[j]]
    ensures ps[j..][1..] == ps[j + 1..] && ps[j..][0] == ps[j]
  {
  }

  /** The live handles are dispatched jobs, oldest first; every dispatched
      job is either live or reaped, never both. */
  predicate Partition(live: seq<Handle>, reaped: set<Handle>, n: nat) {
    && Increasing(live)
    && (forall h :: h in live ==> h < n && h !in reaped)
    && (forall h :: h in reaped ==> h < n)
    && (forall h :: 0 <= h < n ==> h in live || h in reaped)
  }

  /** Reaping moves the finished live handles over to the reaped ones and
      keeps the partition. */
  lemma ReapKeepsPartition(ps: seq<Handle>, reaped: set<Handle>, finished: set<Handle>, n: nat)
    requires Partition(ps, reaped, n)
    ensures Partition(Survivors(ps, finished), reaped + Elems(ps) * finished, n)
  {
    SurvivorsExact(ps, finished);
    SurvivorsKeepOrder(ps, finished);
  }

  /** How many commands a refill dispatches when `live` handles survived the
      reap and `remaining` commands are still undispatched. */
  function RefillCount(live: nat, limit: nat, remaining: nat): (d: nat)
    ensures d <= remaining
    ensures live <= limit ==> live + d <= limit
    ensures live + d == limit || d == remaining || (live >= limit && d == 0)
    ensures live >= limit ==> d == 0
  {
    if live >= limit then 0
    else if limit - live < remaining then limit - live
    else remaining
  }

  // ---------------------------------------------------------------------
  // The launcher state

  class Pool {
    /** `ParalleledNum`: how many processes may be live at once. */
    const parallelNum: nat
    /** `cmds`: one argument list per job; a dispatch appends its seed in place. */
    const cmds: array<Command>
    /** `NextURLNo`: the next command to dispatch. */
    var nextURLNo: nat
    /** `Processes`: the live handles, oldest first. */
    var processes: seq<Handle>

    /** The commands as built, before any seed was appended. */
    ghost const base: seq<Command>
    /** The seed appended to each dispatched command, in dispatch order. */
    ghost var seeds: seq<string>
    /** The handles a reap has already removed. */
    ghost var reaped: set<Handle>
    /** For each dispatched job, the handles live at the moment it was spawned. */
    ghost var liveAtStart: seq<seq<Handle>>

    ghost predicate Valid()
      reads this, cmds
    {
      CommandsSeeded() && Partition(processes, reaped, nextURLNo)
    }

    /** Each command carries its seed exactly when it has been dispatched, and
        a job only ever saw older jobs live when it was spawned. */
    ghost predicate CommandsSeeded()
      reads this`nextURLNo, this`seeds, this`liveAtStart, cmds
    {
      && cmds.Length == |base|
      && nextURLNo <= cmds.Length
      && |seeds| == nextURLNo
      && |liveAtStart| == nextURLNo
      && (forall k :: 0 <= k < cmds.Length ==>
            cmds[k] == base[k] + (if k < nextURLNo then [seeds[k]] else []))
      && (forall k :: 0 <= k < nextURLNo ==> forall h :: h in liveAtStart[k] ==> h < k)
    }

    /** The bound `len(Processes) <= ParalleledNum`, now and at every spawn so far. */
    ghost predicate WithinLimit()
      reads this
    {
      && |processes| <= parallelNum
      && forall k :: 0 <= k < |liveAtStart| ==> |liveAtStart[k]| < parallelNum
    }

    /** The state right after the script's top level: every command built,
        nothing dispatched, nothing live. */
    constructor (commands: seq<Command>, limit: nat)
      ensures Valid() && WithinLimit()
      ensures fresh(cmds) && cmds[..] == commands && base == commands
      ensures parallelNum == limit && nextURLNo == 0 && processes == []
      ensures seeds == [] && reaped == {} && liveAtStart == []
    {
      parallelNum := limit;
      cmds := new Command[|commands|](i requires 0 <= i < |commands| => commands[i]);
      base := commands;
      nextURLNo := 0;
      processes := [];
      seeds := [];
      reaped := {};
      liveAtStart := [];
    }

    /** `StartNew`: append the seed to the next command, spawn it, record
        its handle and advance the cursor. */
    method StartNew(seed: string) returns (k: Handle)
      requires Valid()
      requires nextURLNo < cmds.Length
      modifies this, cmds
      ensures Valid()
      ensures k == old(nextURLNo) && nextURLNo == k + 1
      ensures cmds[k] == old(cmds[k]) + [seed] && cmds[k] == base[k] + [seed]
      ensures forall i :: 0 <= i < cmds.Length && i != k ==> cmds[i] == old(cmds[i])
      ensures processes == old(processes) + [k]
      ensures seeds == old(seeds) + [seed]
      ensures liveAtStart == old(liveAtStart) + [old(processes)]
      ensures reaped == old(reaped)
    {
      k := nextURLNo;
      assert forall i :: 0 <= i < |processes| ==> processes[i] in processes;
      cmds[k] := cmds[k] + [seed];
      ghost var before := processes;
      nextURLNo := nextURLNo + 1;
      processes := processes + [k];
      seeds := seeds + [seed];
      liveAtStart := liveAtStart + [before];
    }

    /** The first half of `CheckRunning`: walk `p` over `-len(Processes) .. -1`
        and `del Processes[p]` for every handle that has exited. A deletion
        only shifts the handles before position p, so each negative index
        still names the next unvisited handle: the walk polls every handle
        once, oldest to newest. */
    method Reap(finished: set<Handle>) returns (ghost polled: seq<Handle>)
      modifies this`processes, this`reaped
      ensures polled == old(processes)
      ensures processes == Survivors(old(processes), finished)
      ensures reaped == old(reaped) + Elems(old(processes)) * finished
    {
      ghost var ps := processes;
      polled := [];
      var p: int := -|processes|;
      ghost var j: nat := 0;
      ghost var done: seq<Handle> := [];
      while p < 0
        modifies this`processes
        invariant -|ps| <= p <= 0 && j == |ps| + p
        invariant done == Survivors(ps[..j], finished)
        invariant processes == done + ps[j..]
        invariant polled == ps[..j]
      {
        PrefixStep(ps, j);
        SurvivorsStep(ps, j, finished);
        DeleteAfter(done, ps[j..]);
        KeepAfter(done, ps[j..]);
        var i := PyIndex(|processes|, p);
        assert i == |done|;
        polled := polled + [processes[i]];
        if processes[i] in finished {
          processes := processes[..i] + processes[i + 1..];
        } else {
          done := done + [ps[j]];
        }
        p, j := p + 1, j + 1;
      }
      assert ps[..j] == ps && ps[j..] == [];
      assert processes == Survivors(ps, finished);
      reaped := reaped + Elems(ps) * finished;
    }

    /** The second half of `CheckRunning`: dispatch while a slot is free and
        commands remain. `clock(k)` is the seed read from the wall clock when
        command k is dispatched. */
    method Refill(clock: Handle -> string)
      requires Valid()
      modifies this, cmds
      ensures Valid()
      ensures old(nextURLNo) <= nextURLNo <= cmds.Length
      ensures nextURLNo - old(nextURLNo) ==
        RefillCount(|old(processes)|, parallelNum, cmds.Length - old(nextURLNo))
      ensures processes == old(processes) + Span(old(nextURLNo), nextURLNo)
      ensures reaped == old(reaped)
      ensures |seeds| == nextURLNo && seeds[..old(nextURLNo)] == old(seeds)
      ensures forall k :: old(nextURLNo) <= k < nextURLNo ==> seeds[k] == clock(k)
      ensures liveAtStart[..old(nextURLNo)] == old(liveAtStart)
      ensures forall k :: old(nextURLNo) <= k < nextURLNo ==> |liveAtStart[k]| < parallelNum
    {
      while |processes| < parallelNum && nextURLNo < cmds.Length
        invariant Valid()
        invariant old(nextURLNo) <= nextURLNo <= cmds.Length
        invariant processes == old(processes) + Span(old(nextURLNo), nextURLNo)
        invariant |old(processes)| < parallelNum ==> |processes| <= parallelNum
        invariant |old(processes)| >= parallelNum ==> nextURLNo == old(nextURLNo)
        invariant reaped == old(reaped)
        invariant |seeds| == nextURLNo && seeds[..old(nextURLNo)] == old(seeds)
        invariant forall k :: old(nextURLNo) <= k < nextURLNo ==> seeds[k] == clock(k)
        invariant liveAtStart[..old(nextURLNo)] == old(liveAtStart)
        invariant forall k :: old(nextURLNo) <= k < nextURLNo ==> |liveAtStart[k]| < parallelNum
        decreases cmds.Length - nextURLNo
      {
        var k := StartNew(clock(nextURLNo));
      }
    }

    /** `CheckRunning`: reap the finished handles, then refill the free slots. */
    method CheckRunning(finished: set<Handle>, clock: Handle -> string)
      requires Valid()
      modifies this, cmds
      ensures Valid()
      ensures old(nextURLNo) <= nextURLNo <= cmds.Length
      ensures nextURLNo - old(nextURLNo) ==
        RefillCount(|Survivors(old(processes), finished)|, parallelNum, cmds.Length - old(nextURLNo))
      ensures processes == Survivors(old(processes), finished) + Span(old(nextURLNo), nextURLNo)
      ensures reaped == old(reaped) + Elems(old(processes)) * finished
      ensures |seeds| == nextURLNo && seeds[..old(nextURLNo)] == old(seeds)
      ensures forall k :: old(nextURLNo) <= k < nextURLNo ==> seeds[k] == clock(k)
      ensures liveAtStart[..old(nextURLNo)] == old(liveAtStart)
      ensures forall k :: old(nextURLNo) <= k < nextURLNo ==> |liveAtStart[k]| < parallelNum
      ensures |old(processes)| <= parallelNum ==> |processes| <= parallelNum
      ensures old(WithinLimit()) ==> WithinLimit()
      // when the refill loop stops, the slots are full or the list is exhausted
      ensures |old(processes)| <= parallelNum ==>
        |processes| == parallelNum || nextURLNo == cmds.Length
    {
      ReapKeepsPartition(processes, reaped, finished, nextURLNo);
      ghost var _ := Reap(finished);
      SurvivorsExact(old(processes), finished);
      Refill(clock);
    }

    /** The main block: one `CheckRunning` to fill every slot, then further
        checks while any process is live. `finishAt(h)` is the first check
        at which `poll()` reports that handle h has exited. */
    method Run(finishAt: Handle -> nat, clock: Handle -> string)
      requires Valid() && WithinLimit()
      modifies this, cmds
      ensures Valid() && WithinLimit()
      ensures processes == []
      ensures parallelNum > 0 ==> nextURLNo == cmds.Length
      ensures parallelNum > 0 ==> reaped == Below(cmds.Length)
      ensures forall k :: old(nextURLNo) <= k < nextURLNo ==> cmds[k] == base[k] + [clock(k)]
    {
      ghost var n0 := nextURLNo;
      ghost var bound := LatestFinish(finishAt, cmds.Length);
      var rounds := 0;
      CheckRunning(FinishedBy(processes, finishAt, rounds), clock);
      while |processes| > 0
        invariant Valid() && WithinLimit()
        invariant n0 <= nextURLNo
        invariant nextURLNo < cmds.Length ==> |processes| == parallelNum
        invariant forall k :: n0 <= k < nextURLNo ==> seeds[k] == clock(k)
        decreases (if rounds < bound then bound - rounds else 0),
                  cmds.Length - nextURLNo + |processes|
      {
        rounds := rounds + 1;
        var finished := FinishedBy(processes, finishAt, rounds);
        if rounds >= bound {
          forall h | h in processes ensures h in finished {
            LatestFinishBounds(finishAt, cmds.Length, h);
          }
          NoneSurvive(processes, finished);
        }
        CheckRunning(finished, clock);
      }
      forall k | 0 <= k < cmds.Length && parallelNum > 0 ensures k in reaped {
      }
      assert parallelNum > 0 ==> reaped == Below(cmds.Length);
    }
  }

  /** The live handles that `poll()` reports as exited at check number `round`. */
  function FinishedBy(ps: seq<Handle>, finishAt: Handle -> nat, round: nat): set<Handle> {
    set h | h in ps && finishAt(h) <= round
  }

  /** The latest check at which any of the first n commands has exited. */
  ghost function LatestFinish(finishAt: Handle -> nat, n: nat): nat {
    if n == 0 then 0
    else
      var rest := LatestFinish(finishAt, n - 1);
      if finishAt(n - 1) > rest then finishAt(n - 1) else rest
  }

  lemma {:induction false} LatestFinishBounds(finishAt: Handle -> nat, n: nat, h: Handle)
    requires h < n
    ensures finishAt(h) <= LatestFinish(finishAt, n)
  {
    if h < n - 1 {
      LatestFinishBounds(finishAt, n - 1, h);
    }
  }

  /** Two slots and four commands A, B, C, D: the first check starts A and B;
      when A has exited and B has not, the next check starts exactly C. */
  method TwoSlotScenario(a: Command, b: Command, c: Command, d: Command, clock: Handle -> string)
  {
    var l := new Pool([a, b, c, d], 2);
    l.CheckRunning({}, clock);
    assert Survivors([], {}) == [];
    assert l.processes == [0, 1];
    l.CheckRunning({0}, clock);
    assert Survivors([0, 1], {0}) == [1];
    assert l.processes == [1, 2];
    assert l.cmds[2] == c + [clock(2)] && l.cmds[3] == d;
  }
}
