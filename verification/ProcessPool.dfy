/**
 * `ProcessFactory`: the bounded pool of child processes that generate slabs, and the file in which
 * it notes them for the next server. What the system answers (the pid that `fork` gives, whether
 * `kill(pid, 0)` still finds a process, whether a file could be created, opened or removed) is given
 * to each operation.
 */
module ProcessPool {
  const MAX_NB_PROCESS := 100

  /** A line of the pid file: one that starts with a number, or one that does not. */
  datatype Line = Number(pid: int) | Text

  /** The pid file. A file keeps its mode when it is rewritten, so `readable` stays what it was. */
  datatype PidFile = Missing | File(lines: seq<Line>, readable: bool)

  datatype Pool = Pool(max: int, count: int, current: seq<int>, previous: seq<int>, hasFile: bool, disk: PidFile)

  // ----- lists of processes -----

  /** What is left of a list after `std::list::remove` of each of `dead`. */
  function Without(pids: seq<int>, dead: set<int>): (left: seq<int>)
    ensures |left| <= |pids|
  {
    if pids == [] then []
    else Without(pids[..|pids| - 1], dead) + if pids[|pids| - 1] in dead then [] else [pids[|pids| - 1]]
  }

  lemma {:induction false} WithoutTwice(pids: seq<int>, dead: set<int>, more: set<int>)
    ensures Without(Without(pids, dead), more) == Without(pids, dead + more)
  {
    if pids != [] {
      var n := |pids| - 1;
      WithoutTwice(pids[..n], dead, more);
      var left := Without(pids, dead);
      if pids[n] in dead {
        assert left == Without(pids[..n], dead);
      } else {
        assert left[..|left| - 1] == Without(pids[..n], dead);
      }
    }
  }

  lemma {:induction false} WithoutNone(pids: seq<int>)
    ensures Without(pids, {}) == pids
  {
    if pids != [] {
      WithoutNone(pids[..|pids| - 1]);
    }
  }

  lemma {:induction false} WithoutAll(pids: seq<int>, dead: set<int>)
    requires forall i :: 0 <= i < |pids| ==> pids[i] in dead
    ensures Without(pids, dead) == []
  {
    if pids != [] {
      WithoutAll(pids[..|pids| - 1], dead);
    }
  }

  /** The pids among the first `n` that `kill` did not find. */
  function Dead(pids: seq<int>, running: seq<bool>, n: nat): set<int>
    requires n <= |pids| == |running|
  {
    set i | 0 <= i < n && !running[i] :: pids[i]
  }

  function DeadCount(running: seq<bool>, n: nat): (k: nat)
    requires n <= |running|
    ensures k <= n
  {
    if n == 0 then 0 else DeadCount(running, n - 1) + if running[n - 1] then 0 else 1
  }

  function Survivors(pids: seq<int>, running: seq<bool>): seq<int>
    requires |pids| == |running|
  {
    Without(pids, Dead(pids, running, |pids|))
  }

  /** Every time a pid is asked about, the answer is the same. */
  ghost predicate Agree(pids: seq<int>, running: seq<bool>)
    requires |pids| == |running|
  {
    forall i, j :: 0 <= i < |pids| && 0 <= j < |pids| && pids[i] == pids[j] ==> running[i] == running[j]
  }

  ghost predicate Distinct(pids: seq<int>) {
    forall i, j :: 0 <= i < j < |pids| ==> pids[i] != pids[j]
  }

  lemma {:induction false} SurvivorsOfPrefix(pids: seq<int>, running: seq<bool>, dead: set<int>, n: nat)
    requires n <= |pids| == |running|
    requires Dead(pids, running, n) <= dead
    ensures |Without(pids[..n], dead)| + DeadCount(running, n) <= n
    ensures |Without(pids[..n], dead)| + DeadCount(running, n) == n
      <==> forall i :: 0 <= i < n && pids[i] in dead ==> !running[i]
  {
    if n > 0 {
      assert Dead(pids, running, n - 1) <= Dead(pids, running, n);
      SurvivorsOfPrefix(pids, running, dead, n - 1);
      assert pids[..n][..n - 1] == pids[..n - 1];
      assert !running[n - 1] ==> pids[n - 1] in Dead(pids, running, n);
    }
  }

  /**
   * The pool lowers its count once for each process found dead but takes all equal entries out of
   * its list: the two stay in step exactly when the answers about one pid agree.
   */
  lemma CountStaysIffAnswersAgree(pids: seq<int>, running: seq<bool>)
    requires |pids| == |running|
    ensures |pids| - DeadCount(running, |pids|) == |Survivors(pids, running)| <==> Agree(pids, running)
  {
    var dead := Dead(pids, running, |pids|);
    assert pids[..|pids|] == pids;
    SurvivorsOfPrefix(pids, running, dead, |pids|);
    if Agree(pids, running) {
      forall i | 0 <= i < |pids| && pids[i] in dead ensures !running[i] {
        var j :| 0 <= j < |pids| && !running[j] && pids[j] == pids[i];
      }
    } else {
      var i, j :| 0 <= i < |pids| && 0 <= j < |pids| && pids[i] == pids[j] && running[i] && !running[j];
      assert pids[j] in dead;
    }
  }

  lemma {:induction false} WithoutKeepsDistinct(pids: seq<int>, dead: set<int>)
    requires Distinct(pids)
    ensures Distinct(Without(pids, dead))
    ensures forall pid :: pid in Without(pids, dead) ==> pid in pids && pid !in dead
  {
    if pids != [] {
      WithoutKeepsDistinct(pids[..|pids| - 1], dead);
    }
  }

  /** Taking out goes entry by entry, so what is left keeps its order and its repetitions. */
  lemma {:induction false} WithoutGoesByEntry(front: seq<int>, back: seq<int>, dead: set<int>)
    ensures Without(front + back, dead) == Without(front, dead) + Without(back, dead)
  {
    if back == [] {
      assert front + back == front;
    } else {
      var n := |back| - 1;
      WithoutGoesByEntry(front, back[..n], dead);
      OneEntryMore(front, back[..n], back[n], dead);
      assert back == back[..n] + [back[n]];
    }
  }

  lemma OneEntryMore(front: seq<int>, back: seq<int>, pid: int, dead: set<int>)
    requires Without(front + back, dead) == Without(front, dead) + Without(back, dead)
    ensures Without(front + (back + [pid]), dead) == Without(front, dead) + Without(back + [pid], dead)
  {
    WithoutLast(front + back, pid, dead);
    WithoutLast(back, pid, dead);
    assert front + (back + [pid]) == (front + back) + [pid];
  }

  lemma WithoutLast(pids: seq<int>, pid: int, dead: set<int>)
    ensures Without(pids + [pid], dead) == Without(pids, dead) + if pid in dead then [] else [pid]
  {
    assert (pids + [pid])[..|pids|] == pids;
  }

  /** `left` holds the processes of `pids` that no answer found dead. */
  ghost predicate AreLeft(left: seq<int>, pids: seq<int>, running: seq<bool>)
    requires |pids| == |running|
  {
    forall pid :: pid in left <==> pid in pids && forall i :: 0 <= i < |pids| && pids[i] == pid ==> running[i]
  }

  lemma {:induction false} WithoutIs(pids: seq<int>, dead: set<int>)
    ensures forall pid :: pid in Without(pids, dead) <==> pid in pids && pid !in dead
  {
    if pids != [] {
      WithoutIs(pids[..|pids| - 1], dead);
      assert pids == pids[..|pids| - 1] + [pids[|pids| - 1]];
    }
  }

  lemma SurvivorsAreLeft(pids: seq<int>, running: seq<bool>)
    requires |pids| == |running|
    ensures AreLeft(Survivors(pids, running), pids, running)
  {
    WithoutIs(pids, Dead(pids, running, |pids|));
    forall pid | pid in pids
      ensures pid in Dead(pids, running, |pids|) <==> exists i :: 0 <= i < |pids| && pids[i] == pid && !running[i]
    {
    }
  }

  // ----- the pid file -----

  function Written(pids: seq<int>): (lines: seq<Line>)
    ensures |lines| == |pids|
  {
    seq(|pids|, i requires 0 <= i < |pids| => Number(pids[i]))
  }

  /** `writeFile`: a missing file is created with the usual mode. */
  function Save(p: Pool, couldOpen: bool): Pool {
    if p.hasFile && couldOpen then p.(disk := File(Written(p.current + p.previous), p.disk.File? ==> p.disk.readable))
    else p
  }

  /** The processes noted in the first `n` lines that are still found. */
  function StillRunning(lines: seq<Line>, running: seq<bool>, n: nat): (pids: seq<int>)
    requires n <= |lines| == |running|
  {
    if n == 0 then []
    else if lines[n - 1].Number? && running[n - 1] then StillRunning(lines, running, n - 1) + [lines[n - 1].pid]
    else StillRunning(lines, running, n - 1)
  }

  /** `pids` are, in order, the processes noted at `places`: exactly the first `n` lines that note one still found. */
  ghost predicate AreAt(pids: seq<int>, places: seq<nat>, lines: seq<Line>, running: seq<bool>, n: nat)
    requires n <= |lines| == |running|
  {
    && |places| == |pids|
    && (forall j, k :: 0 <= j < k < |places| ==> places[j] < places[k])
    && (forall j :: 0 <= j < |places| ==> places[j] < n && lines[places[j]] == Number(pids[j]) && running[places[j]])
    && (forall i :: 0 <= i < n && lines[i].Number? && running[i] ==> i in places)
  }

  lemma NextIsAt(pids: seq<int>, places: seq<nat>, lines: seq<Line>, running: seq<bool>, n: nat)
    requires n < |lines| == |running| && AreAt(pids, places, lines, running, n)
    requires lines[n].Number? && running[n]
    ensures AreAt(pids + [lines[n].pid], places + [n], lines, running, n + 1)
  {
    var all := places + [n];
    forall i | 0 <= i < n + 1 && lines[i].Number? && running[i]
      ensures i in all
    {
      assert i == n || i in places;
    }
  }

  lemma NoneIsAt(pids: seq<int>, places: seq<nat>, lines: seq<Line>, running: seq<bool>, n: nat)
    requires n < |lines| == |running| && AreAt(pids, places, lines, running, n)
    requires !(lines[n].Number? && running[n])
    ensures AreAt(pids, places, lines, running, n + 1)
  {
  }

  /** Exactly the processes that are noted and still found are remembered, in the order of the lines. */
  lemma {:induction false} RememberedAre(lines: seq<Line>, running: seq<bool>, n: nat) returns (places: seq<nat>)
    requires n <= |lines| == |running|
    ensures AreAt(StillRunning(lines, running, n), places, lines, running, n)
  {
    if n == 0 {
      places := [];
    } else {
      places := RememberedAre(lines, running, n - 1);
      var before := StillRunning(lines, running, n - 1);
      if lines[n - 1].Number? && running[n - 1] {
        NextIsAt(before, places, lines, running, n - 1);
        places := places + [n - 1];
      } else {
        NoneIsAt(before, places, lines, running, n - 1);
      }
    }
  }

  function Min(a: int, b: int): int { if a <= b then a else b }

  /** What `updatePreviousProcess` retains of `lines`. */
  function Remembered(lines: seq<Line>, running: seq<bool>): seq<int>
    requires |lines| == |running|
  {
    StillRunning(lines, running, Min(|lines|, MAX_NB_PROCESS))
  }

  /** What a server that starts on this file remembers: nothing when it cannot open it. */
  function Recalled(disk: PidFile, running: seq<bool>): seq<int>
    requires disk.File? ==> |running| == |disk.lines|
  {
    if disk.File? && disk.readable then Remembered(disk.lines, running) else []
  }

  /**
   * The file that the constructor makes when there is none: its mode lets the owner write but not
   * read, so that only a privileged user can open it for reading afterwards.
   */
  function Created(created: bool, privileged: bool): PidFile {
    if created then File([], privileged) else Missing
  }

  // ----- operations and runs -----

  datatype Action =
    | Create(pid: int)
    | Check(running: seq<bool>)
    | CheckAndSave(running: seq<bool>, previousRunning: seq<bool>, couldOpen: bool)
    | KillAll(previousRunning: seq<bool>, couldOpen: bool, removed: bool)

  /** One answer for each process that is asked about. */
  ghost predicate Answers(p: Pool, a: Action) {
    match a
    case Create(_) => true
    case Check(running) => |running| == |p.current|
    case CheckAndSave(running, previousRunning, _) => |running| == |p.current| && |previousRunning| == |p.previous|
    case KillAll(previousRunning, _, _) => |previousRunning| == |p.previous|
  }

  function Checked(p: Pool, running: seq<bool>): Pool
    requires |running| == |p.current|
  {
    p.(current := Survivors(p.current, running), count := p.count - DeadCount(running, |running|))
  }

  function PreviousChecked(p: Pool, running: seq<bool>): Pool
    requires |running| == |p.previous|
  {
    if p.hasFile then p.(previous := Survivors(p.previous, running)) else p
  }

  function Killed(p: Pool, previousRunning: seq<bool>, couldOpen: bool, removed: bool): Pool
    requires |previousRunning| == |p.previous|
  {
    var q := PreviousChecked(p.(current := [], count := p.count - |p.current|), previousRunning);
    if q.hasFile && q.count == 0 && q.previous == [] then (if removed then q.(disk := Missing) else q)
    else Save(q, couldOpen)
  }

  function Step(p: Pool, a: Action): Pool
    requires Answers(p, a)
  {
    match a
    case Create(pid) =>
      if p.count < p.max && pid != -1 then p.(count := p.count + 1, current := p.current + [pid]) else p
    case Check(running) => Checked(p, running)
    case CheckAndSave(running, previousRunning, couldOpen) =>
      Save(PreviousChecked(Checked(p, running), previousRunning), couldOpen)
    case KillAll(previousRunning, couldOpen, removed) => Killed(p, previousRunning, couldOpen, removed)
  }

  /** `q` has the file of `p`, rewritten to the processes of `q` when there is a file and it could be opened. */
  ghost predicate Saves(p: Pool, q: Pool, couldOpen: bool) {
    if p.hasFile && couldOpen then
      && q.disk.File? && (p.disk.File? ==> q.disk.readable == p.disk.readable) && (p.disk.Missing? ==> q.disk.readable)
      && |q.disk.lines| == |q.current| + |q.previous|
      && (forall i :: 0 <= i < |q.current| ==> q.disk.lines[i] == Number(q.current[i]))
      && (forall i :: 0 <= i < |q.previous| ==> q.disk.lines[|q.current| + i] == Number(q.previous[i]))
    else q.disk == p.disk
  }

  lemma SaveSaves(p: Pool, couldOpen: bool)
    ensures Saves(p, Save(p, couldOpen), couldOpen) && Save(p, couldOpen) == p.(disk := Save(p, couldOpen).disk)
  {
  }

  /** Creating adds at most one process, a check takes out exactly the dead ones. */
  lemma CreatedAndChecked(p: Pool, pid: int, running: seq<bool>)
    requires |running| == |p.current|
    ensures var q := Step(p, Create(pid));
      if p.count < p.max && pid != -1 then q == p.(count := p.count + 1, current := p.current + [pid]) else q == p
    ensures var q := Step(p, Check(running));
      AreLeft(q.current, p.current, running) && q == p.(current := q.current, count := q.count)
  {
    SurvivorsAreLeft(p.current, running);
  }

  /** A check that saves looks through both lists, the previous one only when there is a file to note it in. */
  lemma CheckedAndSaved(p: Pool, a: Action)
    requires Answers(p, a) && a.CheckAndSave?
    ensures var q := Step(p, a);
      && AreLeft(q.current, p.current, a.running)
      && (p.hasFile ==> AreLeft(q.previous, p.previous, a.previousRunning))
      && (!p.hasFile ==> q.previous == p.previous)
      && q == p.(current := q.current, count := q.count, previous := q.previous, disk := q.disk)
      && Saves(p, q, a.couldOpen)
  {
    SurvivorsAreLeft(p.current, a.running);
    SurvivorsAreLeft(p.previous, a.previousRunning);
    SaveSaves(PreviousChecked(Checked(p, a.running), a.previousRunning), a.couldOpen);
  }

  /** After killing, the file goes exactly when it would note nothing. */
  lemma AllAreKilled(p: Pool, a: Action)
    requires Answers(p, a) && a.KillAll? && p.count == |p.current|
    ensures var q := Step(p, a);
      && q.current == [] && q.count == 0
      && (p.hasFile ==> AreLeft(q.previous, p.previous, a.previousRunning))
      && (!p.hasFile ==> q.previous == p.previous && q.disk == p.disk)
      && q == p.(current := [], count := 0, previous := q.previous, disk := q.disk)
      && (p.hasFile && q.previous == [] ==> q.disk == if a.removed then Missing else p.disk)
      && (q.previous != [] ==> Saves(p, q, a.couldOpen))
  {
    SurvivorsAreLeft(p.previous, a.previousRunning);
    SaveSaves(PreviousChecked(p.(current := [], count := 0), a.previousRunning), a.couldOpen);
  }

  ghost predicate Exact(p: Pool) {
    p.count == |p.current| && (p.count <= p.max || p.count == 0) && Distinct(p.current)
  }

  /** `fork` gives no pid that the pool still holds. */
  ghost predicate Fresh(p: Pool, a: Action) {
    a.Create? ==> a.pid !in p.current
  }

  lemma StepKeepsExact(p: Pool, a: Action)
    requires Exact(p) && Answers(p, a) && Fresh(p, a)
    ensures Exact(Step(p, a))
    ensures a.KillAll? ==> Step(p, a).count == 0 && Step(p, a).current == []
  {
    if a.Check? || a.CheckAndSave? {
      CountStaysIffAnswersAgree(p.current, a.running);
      WithoutKeepsDistinct(p.current, Dead(p.current, a.running, |p.current|));
    }
  }

  ghost predicate Run(states: seq<Pool>, actions: seq<Action>) {
    && |states| == |actions| + 1
    && (forall i :: 0 <= i < |actions| ==> Answers(states[i], actions[i]) && Fresh(states[i], actions[i]))
    && (forall i :: 0 <= i < |actions| ==> states[i + 1] == Step(states[i], actions[i]))
  }

  /** The count is the length of the list and within the maximum after every run of operations. */
  lemma {:induction false} RunKeepsExact(states: seq<Pool>, actions: seq<Action>, n: nat)
    requires Run(states, actions) && Exact(states[0]) && n < |states|
    ensures Exact(states[n])
  {
    if n > 0 {
      RunKeepsExact(states, actions, n - 1);
      StepKeepsExact(states[n - 1], actions[n - 1]);
    }
  }

  // ----- from one server to the next -----

  /**
   * A restart on a file just saved remembers the saved processes, all of which still run, if and
   * only if there are none, or the file can be read and they are at most a hundred.
   */
  lemma SavedIsRemembered(p: Pool, running: seq<bool>)
    requires p.hasFile && |running| == |p.current + p.previous|
    requires forall i :: 0 <= i < |running| ==> running[i]
    ensures var disk, pids := Save(p, true).disk, p.current + p.previous;
      && disk.File?
      && (disk.readable ==> Recalled(disk, running) == pids[..if |pids| < 100 then |pids| else 100])
      && (Recalled(disk, running) == pids <==> pids == [] || (disk.readable && |pids| <= 100))
  {
    var pids := p.current + p.previous;
    var n := Min(|pids|, MAX_NB_PROCESS);
    AllRunning(pids, running, n);
    assert |pids| <= MAX_NB_PROCESS ==> pids[..n] == pids;
    assert |pids[..n]| == n;
  }

  /** Whether the file can be read changes only by removing it. */
  lemma {:induction false} ModeStays(states: seq<Pool>, actions: seq<Action>, n: nat)
    requires Run(states, actions) && n < |states| && states[0].disk.File?
    requires forall i :: 0 <= i < n && actions[i].KillAll? ==> !actions[i].removed
    ensures states[n].disk.File? && states[n].disk.readable == states[0].disk.readable
  {
    if n > 0 {
      ModeStays(states, actions, n - 1);
    }
  }

  /**
   * The file that an unprivileged server creates is never remembered, whatever is saved in it, until
   * it is removed.
   */
  lemma CreatedFileIsForgotten(states: seq<Pool>, actions: seq<Action>, n: nat, running: seq<bool>)
    requires Run(states, actions) && n < |states| && states[0].disk == File([], false)
    requires forall i :: 0 <= i < n && actions[i].KillAll? ==> !actions[i].removed
    requires states[n].disk.File? ==> |running| == |states[n].disk.lines|
    ensures Recalled(states[n].disk, running) == []
  {
    ModeStays(states, actions, n);
  }

  lemma {:induction false} AllRunning(pids: seq<int>, running: seq<bool>, n: nat)
    requires n <= |pids| == |running|
    requires forall i :: 0 <= i < |running| ==> running[i]
    ensures StillRunning(Written(pids), running, n) == pids[..n]
  {
    if n > 0 {
      AllRunning(pids, running, n - 1);
      assert pids[..n] == pids[..n - 1] + [pids[n - 1]];
    }
  }

  /** A file that notes no process twice gives lists without repetition. */
  lemma {:induction false} NothingRememberedTwice(lines: seq<Line>, running: seq<bool>, n: nat)
    requires n <= |lines| == |running|
    requires forall i, j :: 0 <= i < j < |lines| && lines[i].Number? ==> lines[i] != lines[j]
    ensures Distinct(StillRunning(lines, running, n))
    ensures forall pid :: pid in StillRunning(lines, running, n) ==> Number(pid) in lines[..n]
  {
    if n > 0 {
      NothingRememberedTwice(lines, running, n - 1);
      assert lines[..n] == lines[..n - 1] + [lines[n - 1]];
      assert lines[n - 1].Number? ==> lines[n - 1] !in lines[..n - 1];
    }
  }

  /** The file after the start of a server. */
  function DiskAfterStart(found: PidFile, running: seq<bool>, rewritten: bool, created: bool, privileged: bool): PidFile
    requires found.File? ==> |running| == |found.lines|
  {
    match found
    case Missing => Created(created, privileged)
    case File(lines, readable) =>
      if readable && rewritten then File(Written(Remembered(lines, running)), true) else found
  }

  class ProcessFactory {
    const nbMaxPid: int
    const file: string
    var nbCurrentPid: int
    var lastPid: int
    var listCurrentPid: seq<int>
    var listPreviousPid: seq<int>
    /** What is in `file`; this belongs to the file system. */
    var disk: PidFile

    function State(): Pool
      reads this
    {
      Pool(nbMaxPid, nbCurrentPid, listCurrentPid, listPreviousPid, file != "", disk)
    }

    /**
     * The processes of the last server are taken over as current ones until the pool is full, then
     * as previous ones. A file that cannot be opened is left alone, a missing one is created.
     */
    constructor (max: int, f: string, found: PidFile, running: seq<bool>, rewritten: bool, created: bool,
                 privileged: bool)
      requires found.File? ==> |running| == |found.lines|
      ensures State().max == max && State().hasFile == (f != "")
      ensures nbCurrentPid == |listCurrentPid|
      ensures nbCurrentPid <= max || nbCurrentPid == 0
      ensures listPreviousPid != [] ==> nbCurrentPid >= max
      ensures f == "" ==> listCurrentPid == listPreviousPid == [] && disk == found
      ensures f != "" ==> listCurrentPid + listPreviousPid == Recalled(found, running)
      ensures f != "" && found.Missing? ==> disk == if created then File([], privileged) else Missing
      ensures f != "" && found.File? ==>
        if found.readable && rewritten then
          && disk.File? && disk.readable && |disk.lines| == |listCurrentPid| + |listPreviousPid|
          && forall i :: 0 <= i < |disk.lines| ==> disk.lines[i] == Number((listCurrentPid + listPreviousPid)[i])
        else disk == found
    {
      nbMaxPid, file, disk := max, f, found;
      nbCurrentPid, lastPid, listCurrentPid, listPreviousPid := 0, 0, [], [];
      new;
      if file != "" {
        UpdatePreviousProcess(running, rewritten, created, privileged);
      }
    }

    method UpdatePreviousProcess(running: seq<bool>, rewritten: bool, created: bool, privileged: bool)
      requires file != "" && (disk.File? ==> |running| == |disk.lines|)
      requires nbCurrentPid == 0 && listCurrentPid == listPreviousPid == []
      modifies this
      ensures nbCurrentPid == |listCurrentPid|
      ensures nbCurrentPid <= nbMaxPid || nbCurrentPid == 0
      ensures listPreviousPid != [] ==> nbCurrentPid >= nbMaxPid
      ensures listCurrentPid + listPreviousPid == Recalled(old(disk), running)
      ensures disk == DiskAfterStart(old(disk), running, rewritten, created, privileged)
    {
      if disk.Missing? {
        disk := Created(created, privileged);
        return;
      }
      if !disk.readable {
        return;
      }
      var lines := disk.lines;
      var nbReadLine := 0;
      while nbReadLine < |lines| && nbReadLine < MAX_NB_PROCESS
        invariant 0 <= nbReadLine <= Min(|lines|, MAX_NB_PROCESS)
        invariant nbCurrentPid == |listCurrentPid|
        invariant nbCurrentPid <= nbMaxPid || nbCurrentPid == 0
        invariant listPreviousPid != [] ==> nbCurrentPid >= nbMaxPid
        invariant listCurrentPid + listPreviousPid == StillRunning(lines, running, nbReadLine)
        invariant disk == old(disk)
      {
        ghost var before := listCurrentPid + listPreviousPid;
        if lines[nbReadLine].Number? && running[nbReadLine] {
          var pid := lines[nbReadLine].pid;
          if nbCurrentPid < nbMaxPid {
            nbCurrentPid := nbCurrentPid + 1;
            listCurrentPid := listCurrentPid + [pid];
            lastPid := pid;
          } else {
            listPreviousPid := listPreviousPid + [pid];
          }
          assert listCurrentPid + listPreviousPid == before + [pid];
        }
        nbReadLine := nbReadLine + 1;
      }
      WriteFile(rewritten);
    }

    method WriteFile(couldOpen: bool)
      modifies `disk
      ensures State() == old(Save(State(), couldOpen))
    {
      if file != "" && couldOpen {
        var lines := [];
        var pids := listCurrentPid + listPreviousPid;
        var i := 0;
        while i < |pids|
          invariant 0 <= i <= |pids|
          invariant lines == Written(pids)[..i]
        {
          lines := lines + [Number(pids[i])];
          i := i + 1;
        }
        assert lines == Written(pids);
        disk := File(lines, disk.File? ==> disk.readable);
      }
    }

    method CreateProcess(pid: int) returns (created: bool)
      modifies `nbCurrentPid, `lastPid, `listCurrentPid
      ensures State() == old(Step(State(), Create(pid)))
      ensures created <==> State() != old(State())
      ensures created ==> lastPid == pid
      ensures !created ==> lastPid == old(lastPid)
    {
      created := false;
      if nbCurrentPid < nbMaxPid {
        if pid != -1 {
          lastPid := pid;
          nbCurrentPid := nbCurrentPid + 1;
          listCurrentPid := listCurrentPid + [pid];
          created := true;
        }
      }
    }

    method CheckCurrentPid(running: seq<bool>)
      requires |running| == |listCurrentPid|
      modifies `nbCurrentPid, `listCurrentPid
      ensures listCurrentPid == Survivors(old(listCurrentPid), running)
      ensures nbCurrentPid == old(nbCurrentPid) - DeadCount(running, |running|)
      ensures State() == Checked(old(State()), running)
    {
      var tmpList := listCurrentPid;
      WithoutNone(tmpList);
      assert Dead(tmpList, running, 0) == {};
      for i := 0 to |tmpList|
        invariant listCurrentPid == Without(tmpList, Dead(tmpList, running, i))
        invariant nbCurrentPid == old(nbCurrentPid) - DeadCount(running, i)
      {
        LookAtNext(tmpList, running, i, listCurrentPid);
        if !running[i] {
          listCurrentPid := Without(listCurrentPid, {tmpList[i]});
          nbCurrentPid := nbCurrentPid - 1;
        }
      }
    }

    method CheckPreviousPid(running: seq<bool>)
      requires |running| == |listPreviousPid|
      modifies `listPreviousPid
      ensures listPreviousPid == Survivors(old(listPreviousPid), running)
    {
      var tmpList := listPreviousPid;
      WithoutNone(tmpList);
      assert Dead(tmpList, running, 0) == {};
      for i := 0 to |tmpList|
        invariant listPreviousPid == Without(tmpList, Dead(tmpList, running, i))
      {
        LookAtNext(tmpList, running, i, listPreviousPid);
        if !running[i] {
          listPreviousPid := Without(listPreviousPid, {tmpList[i]});
        }
      }
    }

    method CheckAndSaveAllPid(running: seq<bool>, previousRunning: seq<bool>, couldOpen: bool)
      requires |running| == |listCurrentPid| && |previousRunning| == |listPreviousPid|
      modifies this
      ensures State() == old(Step(State(), CheckAndSave(running, previousRunning, couldOpen)))
    {
      CheckCurrentPid(running);
      if file != "" {
        CheckPreviousPid(previousRunning);
        WriteFile(couldOpen);
      }
    }

    method KillCurrentPid()
      modifies `nbCurrentPid, `listCurrentPid
      ensures listCurrentPid == [] && nbCurrentPid == old(nbCurrentPid) - old(|listCurrentPid|)
    {
      var tmpList := listCurrentPid;
      ghost var none := seq(|tmpList|, _ => false);
      WithoutNone(tmpList);
      assert Dead(tmpList, none, 0) == {};
      for i := 0 to |tmpList|
        invariant listCurrentPid == Without(tmpList, Dead(tmpList, none, i))
        invariant nbCurrentPid == old(nbCurrentPid) - i
      {
        LookAtNext(tmpList, none, i, listCurrentPid);
        listCurrentPid := Without(listCurrentPid, {tmpList[i]});
        nbCurrentPid := nbCurrentPid - 1;
      }
      WithoutAll(tmpList, Dead(tmpList, none, |tmpList|));
    }

    method KillAllPid(previousRunning: seq<bool>, couldOpen: bool, removed: bool)
      requires |previousRunning| == |listPreviousPid|
      modifies this
      ensures State() == old(Step(State(), KillAll(previousRunning, couldOpen, removed)))
    {
      KillCurrentPid();
      if file != "" {
        CheckPreviousPid(previousRunning);
        if nbCurrentPid == 0 && |listPreviousPid| == 0 {
          if removed {
            disk := Missing;
          }
        } else {
          WriteFile(couldOpen);
        }
      }
    }
  }

  /** One turn of the loops that look through a list. */
  lemma LookAtNext(pids: seq<int>, running: seq<bool>, n: nat, left: seq<int>)
    requires n < |pids| == |running| && left == Without(pids, Dead(pids, running, n))
    ensures Without(pids, Dead(pids, running, n + 1)) == if running[n] then left else Without(left, {pids[n]})
  {
    DeadGrows(pids, running, n);
    WithoutTwice(pids, Dead(pids, running, n), {pids[n]});
  }

  lemma DeadGrows(pids: seq<int>, running: seq<bool>, n: nat)
    requires n < |pids| == |running|
    ensures Dead(pids, running, n + 1)
      == if running[n] then Dead(pids, running, n) else Dead(pids, running, n) + {pids[n]}
  {
  }
}
