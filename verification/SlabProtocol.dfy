/**
 * On-the-fly slab generation (`getTileOnFly`): request threads and forked children that share
 * three files per slab, the slab itself, `.tmp` and `.err`, through `stat`, an exclusive `open`
 * and `remove`. Every such call is one atomic step; steps of all processes interleave freely and
 * an alarm may end a child between any two of its steps.
 */
module SlabProtocol {
  datatype Slab = Absent | Partial | Complete

  datatype Files = Files(slab: Slab, tmp: bool, err: bool)

  const PRISTINE := Files(Absent, false, false)

  /** Where a request is. `slabSeen` is the answer of its first `stat`. */
  datatype ReaderPc =
    | StatSlab
    | StatTmp(slabSeen: bool)
    | StatErr(slabSeen: bool)
    | CreateProcess
    | ReadIndex
    | ReadData(index: Slab)
    | AnsweredUsual(index: Slab, data: Slab)
    | AnsweredOnDemand

  /** Where a forked child is, named after what it does next. */
  datatype ChildPc =
    | OpenTmp
    | InitLogger
    | Generate
    | Write
    | RemoveErr
    | StatAfterFailure
    | RemoveSlab
    | RemoveTmp
    | Finished

  /** A child that the alarm ended keeps the place it had reached. */
  datatype Child = Child(pc: ChildPc, alive: bool)

  /** `started` is a history variable (a generation was begun at some time); no step reads it. */
  datatype State = State(files: Files, started: bool, readers: seq<ReaderPc>, children: seq<Child>)

  datatype Outcome = Proceed | Fail

  datatype Action =
    | Arrive
    | ReaderStep(reader: nat, forked: bool)
    | ChildStep(child: nat, outcome: Outcome)
    | Die(child: nat)

  // ----- Steps -----

  predicate Enabled(s: State, a: Action) {
    match a
    case Arrive => true
    case ReaderStep(r, _) =>
      r < |s.readers| && !s.readers[r].AnsweredUsual? && !s.readers[r].AnsweredOnDemand?
    case ChildStep(c, _) => c < |s.children| && s.children[c].alive && s.children[c].pc != Finished
    case Die(c) => c < |s.children| && s.children[c].alive && s.children[c].pc != Finished
  }

  function NextReader(f: Files, pc: ReaderPc, forked: bool): ReaderPc {
    match pc
    case StatSlab => StatTmp(f.slab != Absent)
    case StatTmp(seen) => if f.tmp then AnsweredOnDemand else StatErr(seen)
    case StatErr(seen) =>
      if f.err then AnsweredOnDemand
      else if seen then ReadIndex
      else CreateProcess
    case CreateProcess => AnsweredOnDemand
    case ReadIndex => ReadData(f.slab)
    case ReadData(index) => AnsweredUsual(index, f.slab)
    case AnsweredUsual(_, _) => pc
    case AnsweredOnDemand => pc
  }

  function NextChildPc(f: Files, pc: ChildPc, o: Outcome): ChildPc {
    match pc
    case OpenTmp => if f.tmp || o == Fail then Finished else InitLogger
    case InitLogger => Generate
    case Generate => if o == Fail then StatAfterFailure else Write
    case Write => if o == Fail then StatAfterFailure else RemoveErr
    case RemoveErr => RemoveTmp
    case StatAfterFailure => if f.slab != Absent then RemoveSlab else RemoveTmp
    case RemoveSlab => RemoveTmp
    case RemoveTmp => Finished
    case Finished => Finished
  }

  /** A `remove` that fails is ignored by the child, which goes on. */
  function NextFiles(f: Files, pc: ChildPc, o: Outcome): Files {
    match pc
    case OpenTmp => if f.tmp || o == Fail then f else f.(tmp := true)
    case InitLogger => f.(err := true)
    case Generate => if o == Fail then f else f.(slab := Partial)
    case Write => if o == Fail then f else f.(slab := Complete)
    case RemoveErr => if o == Fail then f else f.(err := false)
    case StatAfterFailure => f
    case RemoveSlab => if o == Fail then f else f.(slab := Absent)
    case RemoveTmp => if o == Fail then f else f.(tmp := false)
    case Finished => f
  }

  /** The step is a successful exclusive `open` of `.tmp`. */
  predicate Acquires(s: State, a: Action)
    requires Enabled(s, a)
  {
    a.ChildStep? && s.children[a.child].pc == OpenTmp && !s.files.tmp && a.outcome == Proceed
  }

  function Next(s: State, a: Action): State
    requires Enabled(s, a)
  {
    match a
    case Arrive => s.(readers := s.readers + [StatSlab])
    case ReaderStep(r, forked) =>
      var spawned := if s.readers[r] == CreateProcess && forked then [Child(OpenTmp, true)] else [];
      s.(readers := s.readers[r := NextReader(s.files, s.readers[r], forked)],
         children := s.children + spawned)
    case ChildStep(c, o) =>
      var pc := s.children[c].pc;
      State(NextFiles(s.files, pc, o), s.started || Acquires(s, a), s.readers,
            s.children[c := Child(NextChildPc(s.files, pc, o), true)])
    case Die(c) => s.(children := s.children[c := s.children[c].(alive := false)])
  }

  /** A server starting on the files some earlier server left, nothing torn without a marker. */
  predicate Init(s: State) {
    && s.readers == [] && s.children == []
    && (s.files.slab == Partial ==> s.files.tmp || s.files.err)
    && (s.started <==> s.files != PRISTINE)
  }

  predicate Run(s: seq<State>, a: seq<Action>) {
    && |s| == |a| + 1
    && forall i :: 0 <= i < |a| ==> Enabled(s[i], a[i]) && s[i + 1] == Next(s[i], a[i])
  }

  // ----- Safety -----

  /** Between the exclusive `open` of `.tmp` and its removal. */
  predicate Holds(pc: ChildPc) { pc != OpenTmp && pc != Finished }

  predicate MutualExclusion(s: State) {
    forall i, j | 0 <= i < |s.children| && 0 <= j < |s.children| ::
      Holds(s.children[i].pc) && Holds(s.children[j].pc) ==> i == j
  }

  /** What the files look like while a child is at `pc`. */
  predicate HolderFacts(f: Files, pc: ChildPc) {
    && (Holds(pc) ==> f.tmp)
    && (pc in {Generate, Write, StatAfterFailure, RemoveSlab, RemoveErr} ==> f.err)
    && (pc == RemoveErr ==> f.slab == Complete)
    && (pc == RemoveTmp ==> f.err || f.slab == Complete)
    && (pc == RemoveSlab ==> f.slab != Absent)
  }

  predicate SawSlab(pc: ReaderPc) {
    pc == StatTmp(true) || pc == StatErr(true) || pc.ReadIndex? || pc.ReadData? || pc.AnsweredUsual?
  }

  predicate Inv(s: State) {
    && MutualExclusion(s)
    && (forall i :: 0 <= i < |s.children| ==>
          HolderFacts(s.files, s.children[i].pc) && (Holds(s.children[i].pc) ==> s.started))
    && (!s.started ==> s.files == PRISTINE)
    && (s.started && !s.files.tmp && !s.files.err ==> s.files.slab == Complete)
    && (forall r :: 0 <= r < |s.readers| && SawSlab(s.readers[r]) ==> s.started)
  }

  lemma StepKeepsInv(s: State, a: Action)
    requires Inv(s) && Enabled(s, a)
    ensures Inv(Next(s, a))
  {
    var t := Next(s, a);
    forall i | 0 <= i < |t.children|
      ensures HolderFacts(t.files, t.children[i].pc) && (Holds(t.children[i].pc) ==> t.started)
    {
      if i < |s.children| { assert HolderFacts(s.files, s.children[i].pc); }
    }
  }

  lemma {:induction false} RunKeepsInv(s: seq<State>, a: seq<Action>, i: nat)
    requires Run(s, a) && Init(s[0]) && i < |s|
    ensures Inv(s[i])
  {
    if i > 0 {
      RunKeepsInv(s, a, i - 1);
      StepKeepsInv(s[i - 1], a[i - 1]);
    }
  }

  /** In every state of every run at most one child holds `.tmp`, and a torn slab carries a marker. */
  lemma ProtocolIsSafe(s: seq<State>, a: seq<Action>, i: nat)
    requires Run(s, a) && Init(s[0]) && i < |s|
    ensures forall c, d | 0 <= c < d < |s[i].children| ::
              s[i].children[c].pc in {OpenTmp, Finished} || s[i].children[d].pc in {OpenTmp, Finished}
    ensures forall c :: 0 <= c < |s[i].children| && s[i].children[c].pc !in {OpenTmp, Finished} ==> s[i].files.tmp
    ensures s[i].files.slab == Partial ==> s[i].files.tmp || s[i].files.err
  {
    RunKeepsInv(s, a, i);
  }

  /** Every set of leftover files is a start, but a torn slab without a marker. */
  lemma StartsIffMarked(f: Files)
    ensures Init(State(f, f != Files(Absent, false, false), [], [])) <==> (f.slab == Partial ==> f.tmp || f.err)
  {
  }

  /** Nothing but a successful step of a child changes a file, except that the logger opens `.err` either way. */
  lemma OnlyChildrenChangeFiles(s: State, a: Action)
    requires Enabled(s, a) && Next(s, a).files != s.files
    ensures a.ChildStep? && s.children[a.child].alive
    ensures a.outcome == Fail ==> s.children[a.child].pc == InitLogger
    ensures var f, g, pc := s.files, Next(s, a).files, s.children[a.child].pc;
            && (pc in {Generate, Write, RemoveSlab} ==> g == f.(slab := g.slab))
            && (pc in {InitLogger, RemoveErr} ==> g == f.(err := !f.err))
            && (pc in {OpenTmp, RemoveTmp} ==> g == f.(tmp := !f.tmp))
            && pc !in {StatAfterFailure, Finished}
  {
  }

  // ----- What the usual branch reads -----

  predicate NobodyHolds(s: State) {
    forall c :: 0 <= c < |s.children| && s.children[c].alive ==> !Holds(s.children[c].pc)
  }

  /** While nobody holds `.tmp`, a step that does not acquire it touches no file. */
  lemma QuietStep(s: State, a: Action)
    requires NobodyHolds(s) && Enabled(s, a) && !Acquires(s, a)
    ensures NobodyHolds(Next(s, a)) && Next(s, a).files == s.files
  {
  }

  lemma {:induction false} QuietRun(s: seq<State>, a: seq<Action>, i: nat, j: nat)
    requires Run(s, a) && i <= j < |s| && NobodyHolds(s[i])
    requires forall k :: i <= k < j ==> !Acquires(s[k], a[k])
    ensures NobodyHolds(s[j]) && s[j].files == s[i].files
  {
    if i < j {
      QuietRun(s, a, i, j - 1);
      QuietStep(s[j - 1], a[j - 1]);
    }
  }

  predicate OnCleanPath(f: Files, pc: ReaderPc) {
    || pc == StatErr(true)
    || pc == AnsweredOnDemand
    || (!f.err && pc in {ReadIndex, ReadData(Complete), AnsweredUsual(Complete, Complete)})
  }

  lemma {:induction false} ReaderStaysOnCleanPath(s: seq<State>, a: seq<Action>, r: nat, i: nat, j: nat)
    requires Run(s, a) && Init(s[0]) && i <= j < |s|
    requires r < |s[i].readers| && s[i].readers[r] == StatErr(true) && !s[i].files.tmp
    requires forall k :: i <= k < j ==> !Acquires(s[k], a[k])
    ensures r < |s[j].readers| && OnCleanPath(s[j].files, s[j].readers[r])
  {
    if i < j {
      ReaderStaysOnCleanPath(s, a, r, i, j - 1);
      RunKeepsInv(s, a, i);
      QuietRun(s, a, i, j - 1);
      RunKeepsInv(s, a, j - 1);
      CleanPathStep(s[j - 1], a[j - 1], r);
    }
  }

  lemma CleanPathStep(s: State, a: Action, r: nat)
    requires Inv(s) && NobodyHolds(s) && !s.files.tmp && Enabled(s, a) && !Acquires(s, a)
    requires r < |s.readers| && OnCleanPath(s.files, s.readers[r])
    ensures r < |Next(s, a).readers| && OnCleanPath(Next(s, a).files, Next(s, a).readers[r])
  {
    QuietStep(s, a);
  }

  /**
   * Step `i` is request `r` checking `.tmp` after having seen the slab. If no child acquires
   * `.tmp` from then on, both reads of the usual branch meet the complete slab.
   */
  lemma UsualReadsCompleteSlab(s: seq<State>, a: seq<Action>, r: nat, i: nat, j: nat)
    requires Run(s, a) && Init(s[0]) && i < j < |s|
    requires a[i].ReaderStep? && a[i].reader == r && s[i].readers[r] == StatTmp(true)
    requires forall k :: i <= k < j ==> !Acquires(s[k], a[k])
    requires r < |s[j].readers| && s[j].readers[r].AnsweredUsual?
    ensures s[j].readers[r] == AnsweredUsual(Complete, Complete)
  {
    if s[i].files.tmp {
      OnDemandIsFinal(s, a, r, i + 1, j);
    } else {
      ReaderStaysOnCleanPath(s, a, r, i + 1, j);
    }
  }

  lemma {:induction false} OnDemandIsFinal(s: seq<State>, a: seq<Action>, r: nat, i: nat, j: nat)
    requires Run(s, a) && i <= j < |s| && r < |s[i].readers| && s[i].readers[r] == AnsweredOnDemand
    ensures r < |s[j].readers| && s[j].readers[r] == AnsweredOnDemand
  {
    if i < j { OnDemandIsFinal(s, a, r, i, j - 1); }
  }

  // ----- Runs from a state -----

  function Last(s: seq<State>): State
    requires s != []
  {
    s[|s| - 1]
  }

  /** Some run leads from `s` to `t`. */
  ghost predicate Reaches(s: State, t: State) {
    exists states, actions :: Run(states, actions) && states[0] == s && Last(states) == t
  }

  lemma Start(s: State)
    ensures Reaches(s, s)
  {
    assert Run([s], []);
  }

  lemma Then(s: State, t: State, act: Action)
    requires Reaches(s, t) && Enabled(t, act)
    ensures Reaches(s, Next(t, act))
  {
    var states, actions :| Run(states, actions) && states[0] == s && Last(states) == t;
    assert Run(states + [Next(t, act)], actions + [act]);
  }

  /** A child at its start takes `.tmp` and begins to write, whatever its parent saw. */
  lemma OpenAndTear(s: State, t: State, c: nat) returns (u: State)
    requires Reaches(s, t) && !t.files.tmp && c < |t.children| && t.children[c] == Child(OpenTmp, true)
    ensures Reaches(s, u)
    ensures u == State(Files(Partial, true, true), true, t.readers, t.children[c := Child(Write, true)])
  {
    u := Next(t, ChildStep(c, Proceed));
    Then(s, t, ChildStep(c, Proceed));
    Then(s, u, ChildStep(c, Proceed));
    u := Next(u, ChildStep(c, Proceed));
    Then(s, u, ChildStep(c, Proceed));
    u := Next(u, ChildStep(c, Proceed));
  }

  const CLEAN := Files(Complete, false, false)

  /** With these files, a child at `pc` whose steps all succeed leaves the complete slab and no marker. */
  predicate WillComplete(f: Files, pc: ChildPc) {
    || pc in {InitLogger, Generate, Write}
    || (pc == RemoveErr && f.slab == Complete)
    || (pc == RemoveTmp && f.slab == Complete && !f.err)
  }

  /** Steps from `pc` to the removal of `.tmp`. */
  function StepsLeft(pc: ChildPc): nat {
    match pc
    case OpenTmp => 7
    case InitLogger => 6
    case Generate => 5
    case Write => 4
    case RemoveErr => 3
    case StatAfterFailure => 3
    case RemoveSlab => 2
    case RemoveTmp => 1
    case Finished => 0
  }

  /** A living holder goes on to its end without a failure, and nobody else moves. */
  lemma {:induction false} Finish(s: State, t: State, c: nat) returns (u: State)
    requires Reaches(s, t) && c < |t.children| && t.children[c].alive && Holds(t.children[c].pc)
    ensures Reaches(s, u) && !u.files.tmp
    ensures u.readers == t.readers && u.children == t.children[c := Child(Finished, true)]
    ensures WillComplete(t.files, t.children[c].pc) ==> u.files == CLEAN
    decreases StepsLeft(t.children[c].pc)
  {
    u := Next(t, ChildStep(c, Proceed));
    Then(s, t, ChildStep(c, Proceed));
    if t.children[c].pc != RemoveTmp {
      u := Finish(s, u, c);
    }
  }

  /** A new request finds the slab and no marker. */
  lemma ArriveAndLook(s: State, t: State) returns (u: State)
    requires Reaches(s, t) && t.files == CLEAN
    ensures Reaches(s, u) && u == t.(readers := t.readers + [ReadIndex])
  {
    var r := |t.readers|;
    u := Next(t, Arrive);
    Then(s, t, Arrive);
    Then(s, u, ReaderStep(r, false));
    u := Next(u, ReaderStep(r, false));
    Then(s, u, ReaderStep(r, false));
    u := Next(u, ReaderStep(r, false));
    Then(s, u, ReaderStep(r, false));
    u := Next(u, ReaderStep(r, false));
    assert u.readers == t.readers + [ReadIndex];
  }

  /** A request that is past its checks reads what is there. */
  lemma Read(s: State, t: State, r: nat) returns (u: State)
    requires Reaches(s, t) && r < |t.readers| && t.readers[r] == ReadIndex
    ensures Reaches(s, u) && u == t.(readers := t.readers[r := AnsweredUsual(t.files.slab, t.files.slab)])
  {
    u := Next(t, ReaderStep(r, false));
    Then(s, t, ReaderStep(r, false));
    Then(s, u, ReaderStep(r, false));
    u := Next(u, ReaderStep(r, false));
    assert u.readers == t.readers[r := AnsweredUsual(t.files.slab, t.files.slab)];
  }

  /** A request about to fork does so. */
  lemma Fork(s: State, t: State, r: nat) returns (u: State)
    requires Reaches(s, t) && r < |t.readers| && t.readers[r] == CreateProcess
    ensures Reaches(s, u)
    ensures u == t.(readers := t.readers[r := AnsweredOnDemand], children := t.children + [Child(OpenTmp, true)])
  {
    u := Next(t, ReaderStep(r, true));
    Then(s, t, ReaderStep(r, true));
  }

  /** Request `r` missed the slab and may still fork. */
  predicate MayFork(s: State, r: nat) {
    r < |s.readers| && s.readers[r] in {StatTmp(false), StatErr(false), CreateProcess}
  }

  /** Without markers, a request that missed the slab forks a child. */
  lemma {:induction false} MissAndFork(s: State, t: State, r: nat) returns (u: State)
    requires Reaches(s, t) && MayFork(t, r) && !t.files.tmp && !t.files.err
    ensures Reaches(s, u)
    ensures u == t.(readers := t.readers[r := AnsweredOnDemand], children := t.children + [Child(OpenTmp, true)])
    decreases match t.readers[r] case StatTmp(_) => 2 case StatErr(_) => 1 case _ => 0
  {
    if t.readers[r] == CreateProcess {
      u := Fork(s, t, r);
    } else {
      var next := Next(t, ReaderStep(r, false));
      Then(s, t, ReaderStep(r, false));
      u := MissAndFork(s, next, r);
      assert u.readers == t.readers[r := AnsweredOnDemand];
    }
  }

  /** Without any file, a new request misses the slab and forks a child. */
  lemma ArriveAndFork(s: State, t: State) returns (u: State)
    requires Reaches(s, t) && t.files == PRISTINE
    ensures Reaches(s, u)
    ensures u == t.(readers := t.readers + [AnsweredOnDemand], children := t.children + [Child(OpenTmp, true)])
  {
    var r := |t.readers|;
    u := Next(t, Arrive);
    Then(s, t, Arrive);
    Then(s, u, ReaderStep(r, false));
    u := Next(u, ReaderStep(r, false));
    u := MissAndFork(s, u, r);
    assert u.readers == t.readers + [AnsweredOnDemand];
  }

  /** A new request looks, a waiting child then starts over, and the request reads what that one tears. */
  lemma TearNewRequest(s: State, t: State, c: nat) returns (u: State)
    requires Reaches(s, t) && t.files == CLEAN && c < |t.children| && t.children[c] == Child(OpenTmp, true)
    ensures Reaches(s, u) && u.readers == t.readers + [AnsweredUsual(Partial, Partial)]
  {
    u := ArriveAndLook(s, t);
    u := OpenAndTear(s, u, c);
    u := Read(s, u, |t.readers|);
  }

  // ----- The proviso is needed -----

  /** Two requests miss before either child opens `.tmp`, and the first child completes the slab. */
  lemma MissTwice(s: State) returns (t: State)
    requires s == State(PRISTINE, false, [], [])
    ensures Reaches(s, t) && t.files == CLEAN
    ensures t.readers == [AnsweredOnDemand, AnsweredOnDemand]
    ensures t.children == [Child(Finished, true), Child(OpenTmp, true)]
  {
    Start(s);
    t := ArriveAndFork(s, s);
    t := ArriveAndFork(s, t);
    t := OpenAndTear(s, t, 0);
    t := Finish(s, t, 0);
  }

  /**
   * A third request finds a complete slab without markers, and the second child, which does not
   * look again, starts over while that request reads.
   */
  lemma StaleChildTearsRead() returns (s: seq<State>, a: seq<Action>)
    ensures Run(s, a) && Init(s[0])
    ensures Last(s).readers == [AnsweredOnDemand, AnsweredOnDemand, AnsweredUsual(Partial, Partial)]
  {
    var start := State(PRISTINE, false, [], []);
    var t := MissTwice(start);
    t := TearNewRequest(start, t, 1);
    s, a :| Run(s, a) && s[0] == start && Last(s) == t;
  }

  // ----- Two absorbing situations -----

  /** `.tmp` exists and no living child will ever remove it. */
  predicate Jammed(s: State) { s.files.tmp && NobodyHolds(s) }

  /** The alarm ending a child that holds `.tmp` jams the slab. */
  lemma DyingHolderJams(s: seq<State>, a: seq<Action>, i: nat)
    requires Run(s, a) && Init(s[0]) && i < |a|
    requires a[i].Die? && Holds(s[i].children[a[i].child].pc)
    ensures Jammed(s[i + 1])
  {
    RunKeepsInv(s, a, i);
    assert HolderFacts(s[i].files, s[i].children[a[i].child].pc);
  }

  /** The alarm can do so to every living holder, wherever it is; a child before its `open` it just ends. */
  lemma EveryHolderCanBeEnded(s: State, c: nat)
    requires Inv(s) && c < |s.children| && s.children[c].alive && s.children[c].pc != Finished
    ensures Enabled(s, Die(c)) && Next(s, Die(c)).files == s.files && !Next(s, Die(c)).children[c].alive
    ensures Holds(s.children[c].pc) ==> Jammed(Next(s, Die(c)))
  {
    assert HolderFacts(s.files, s.children[c].pc);
  }

  predicate OnDemandPath(pc: ReaderPc) { pc.StatSlab? || pc.StatTmp? || pc.AnsweredOnDemand? }

  /**
   * A jammed slab stays jammed in every later state of every run: no file changes, nobody
   * acquires `.tmp`, and a request whose `stat`s start later can only be answered on demand.
   */
  lemma {:induction false} JammedForever(s: seq<State>, a: seq<Action>, i: nat, j: nat)
    requires Run(s, a) && i <= j < |s| && Jammed(s[i])
    ensures Jammed(s[j]) && s[j].files == s[i].files
    ensures j < |a| ==> !Acquires(s[j], a[j])
    ensures |s[i].readers| <= |s[j].readers|
    ensures forall r :: 0 <= r < |s[j].readers| && (r < |s[i].readers| ==> s[i].readers[r] == StatSlab)
              ==> OnDemandPath(s[j].readers[r])
  {
    if i < j {
      JammedForever(s, a, i, j - 1);
      QuietStep(s[j - 1], a[j - 1]);
    }
  }

  /** A living holder can still remove `.tmp`. */
  lemma HolderCanRelease(s: State, c: nat) returns (t: seq<State>, a: seq<Action>)
    requires c < |s.children| && s.children[c].alive && Holds(s.children[c].pc)
    ensures Run(t, a) && t[0] == s && !Last(t).files.tmp
  {
    Start(s);
    var u := Finish(s, s, c);
    t, a :| Run(t, a) && t[0] == s && Last(t) == u;
  }

  ghost predicate CanStillRelease(s: State) {
    exists t, a :: Run(t, a) && t[0] == s && !Last(t).files.tmp
  }

  /** Exactly the jammed states with `.tmp` are lost: from any other one some run removes it. */
  lemma TmpIsLostIffJammed(s: State)
    requires s.files.tmp
    ensures Jammed(s) <==> !CanStillRelease(s)
  {
    if Jammed(s) {
      forall t, a | Run(t, a) && t[0] == s
        ensures Last(t).files.tmp
      {
        JammedForever(t, a, 0, |t| - 1);
      }
    } else {
      var c :| 0 <= c < |s.children| && s.children[c].alive && Holds(s.children[c].pc);
      var t, a := HolderCanRelease(s, c);
    }
  }

  /** The slab is there, no marker is, and nobody is left who missed it. */
  predicate Settled(s: State) {
    && s.files == CLEAN
    && NobodyHolds(s)
    && (forall c :: 0 <= c < |s.children| && s.children[c].alive ==> s.children[c].pc == Finished)
    && (forall r :: 0 <= r < |s.readers| ==>
          s.readers[r] !in {StatTmp(false), StatErr(false), CreateProcess})
  }

  predicate ServedComplete(pc: ReaderPc) {
    pc in {StatSlab, StatTmp(true), StatErr(true), ReadIndex, ReadData(Complete), AnsweredUsual(Complete, Complete)}
  }

  /** Once settled, the files never change again and every later request reads the complete slab. */
  lemma {:induction false} SettledForever(s: seq<State>, a: seq<Action>, i: nat, j: nat)
    requires Run(s, a) && i <= j < |s| && Settled(s[i])
    ensures Settled(s[j]) && |s[i].readers| <= |s[j].readers|
    ensures forall r :: 0 <= r < |s[j].readers| && (r < |s[i].readers| ==> s[i].readers[r] == StatSlab)
              ==> ServedComplete(s[j].readers[r])
  {
    if i < j { SettledForever(s, a, i, j - 1); }
  }

  /** Some run makes a request that arrives later read a partial slab. */
  ghost predicate CanTear(s: State) {
    exists t, r: nat :: Reaches(s, t) && |s.readers| <= r < |t.readers| && t.readers[r] == AnsweredUsual(Partial, Partial)
  }

  /** A waiting child, or a request that missed the slab, can spoil the complete slab. */
  lemma UnsettledCanTear(s: State)
    requires s.files == CLEAN && NobodyHolds(s) && !Settled(s)
    ensures CanTear(s)
  {
    Start(s);
    var t, c;
    if c' :| 0 <= c' < |s.children| && s.children[c'].alive && s.children[c'].pc != Finished {
      t, c := s, c';
    } else {
      var r :| 0 <= r < |s.readers| && s.readers[r] in {StatTmp(false), StatErr(false), CreateProcess};
      t := MissAndFork(s, s, r);
      c := |s.children|;
    }
    var u := TearNewRequest(s, t, c);
    assert u.readers[|s.readers|] == AnsweredUsual(Partial, Partial);
  }

  /**
   * While a complete slab stands without markers, later requests are safe from torn reads exactly
   * when the state is settled: no child waits at its start and no request that missed the slab may
   * still fork one.
   */
  lemma LaterReadsAreCompleteIffSettled(s: State)
    requires s.files == CLEAN && NobodyHolds(s)
    ensures Settled(s) <==> !CanTear(s)
  {
    if !Settled(s) {
      UnsettledCanTear(s);
    } else if CanTear(s) {
      var t, r: nat :| Reaches(s, t) && |s.readers| <= r < |t.readers| && t.readers[r] == AnsweredUsual(Partial, Partial);
      var states, actions :| Run(states, actions) && states[0] == s && Last(states) == t;
      SettledForever(states, actions, 0, |states| - 1);
      assert false;
    }
  }

  // ----- Which slabs are still served -----

  /** Somebody is left who can still take `.tmp` when it goes. */
  predicate HasSuccessor(s: State) {
    || (exists c :: 0 <= c < |s.children| && s.children[c] == Child(OpenTmp, true))
    || (exists r :: 0 <= r < |s.readers| && s.readers[r] == CreateProcess)
  }

  /** `.err` is there and nobody is left who removes it. */
  predicate Condemned(s: State) {
    && s.files.err && !HasSuccessor(s)
    && (forall c :: 0 <= c < |s.children| && s.children[c].alive ==>
          s.children[c].pc in {StatAfterFailure, RemoveSlab, RemoveTmp, Finished})
  }

  predicate Lost(s: State) { Jammed(s) || Condemned(s) }

  predicate NotServed(pc: ReaderPc) { pc.StatSlab? || pc.StatTmp? || pc.StatErr? || pc.AnsweredOnDemand? }

  lemma CondemnedStep(s: State, a: Action)
    requires Condemned(s) && Enabled(s, a)
    ensures Condemned(Next(s, a))
    ensures forall r :: 0 <= r < |Next(s, a).readers| && (r < |s.readers| ==> NotServed(s.readers[r]))
              ==> NotServed(Next(s, a).readers[r])
  {
    var t := Next(s, a);
    assert forall r :: 0 <= r < |t.readers| ==> t.readers[r] != CreateProcess;
  }

  /** From a lost state on, no later request is answered from the slab. */
  lemma {:induction false} LostForever(s: seq<State>, a: seq<Action>, i: nat, j: nat)
    requires Run(s, a) && i <= j < |s| && Lost(s[i])
    ensures Lost(s[j]) && |s[i].readers| <= |s[j].readers|
    ensures forall r :: |s[i].readers| <= r < |s[j].readers| ==> NotServed(s[j].readers[r])
  {
    if Jammed(s[i]) {
      JammedForever(s, a, i, j);
    } else {
      CondemnedForever(s, a, i, j);
    }
  }

  lemma {:induction false} CondemnedForever(s: seq<State>, a: seq<Action>, i: nat, j: nat)
    requires Run(s, a) && i <= j < |s| && Condemned(s[i])
    ensures Condemned(s[j]) && |s[i].readers| <= |s[j].readers|
    ensures forall r :: |s[i].readers| <= r < |s[j].readers| ==> NotServed(s[j].readers[r])
  {
    if i < j {
      CondemnedForever(s, a, i, j - 1);
      CondemnedStep(s[j - 1], a[j - 1]);
    }
  }

  /** Some run answers a request that arrives later from the complete slab. */
  ghost predicate CanServe(s: State) {
    exists t, r: nat :: Reaches(s, t) && |s.readers| <= r < |t.readers| && t.readers[r] == AnsweredUsual(Complete, Complete)
  }

  lemma CleanCanServe(s: State, t: State)
    requires Reaches(s, t) && t.files == CLEAN && |s.readers| <= |t.readers|
    ensures CanServe(s)
  {
    var u := ArriveAndLook(s, t);
    u := Read(s, u, |t.readers|);
    assert u.readers[|t.readers|] == AnsweredUsual(Complete, Complete);
  }

  /** Once `.tmp` is gone, a successor generates the slab. */
  lemma SuccessorCanServe(s: State, t: State)
    requires Reaches(s, t) && !t.files.tmp && HasSuccessor(t) && |s.readers| <= |t.readers|
    ensures CanServe(s)
  {
    var u, c;
    if c' :| 0 <= c' < |t.children| && t.children[c'] == Child(OpenTmp, true) {
      u, c := t, c';
    } else {
      var r :| 0 <= r < |t.readers| && t.readers[r] == CreateProcess;
      u := Fork(s, t, r);
      c := |t.children|;
    }
    u := OpenAndTear(s, u, c);
    u := Finish(s, u, c);
    CleanCanServe(s, u);
  }

  lemma UnmarkedCanServe(s: State)
    requires Inv(s) && !s.files.tmp && !s.files.err
    ensures CanServe(s)
  {
    Start(s);
    if s.started {
      CleanCanServe(s, s);
    } else {
      var t := ArriveAndFork(s, s);
      assert t.children[|s.children|] == Child(OpenTmp, true);
      SuccessorCanServe(s, t);
    }
  }

  lemma OnlySuccessorsCanComplete(s: State)
    requires Inv(s) && (s.files.tmp || s.files.err) && !Lost(s)
    requires forall c :: 0 <= c < |s.children| && s.children[c].alive ==> !WillComplete(s.files, s.children[c].pc)
    ensures HasSuccessor(s)
  {
    forall c | 0 <= c < |s.children| && s.children[c].alive
      ensures s.children[c].pc in {OpenTmp, StatAfterFailure, RemoveSlab, RemoveTmp, Finished}
      ensures Holds(s.children[c].pc) ==> s.files.err
      ensures s.children[c].pc == OpenTmp ==> s.children[c] == Child(OpenTmp, true)
    {
      assert HolderFacts(s.files, s.children[c].pc);
    }
  }

  lemma MarkedCanServe(s: State)
    requires Inv(s) && (s.files.tmp || s.files.err) && !Lost(s)
    ensures CanServe(s)
  {
    Start(s);
    if c :| 0 <= c < |s.children| && s.children[c].alive && WillComplete(s.files, s.children[c].pc) {
      var t := Finish(s, s, c);
      CleanCanServe(s, t);
    } else {
      OnlySuccessorsCanComplete(s);
      if s.files.tmp {
        var c :| 0 <= c < |s.children| && s.children[c].alive && Holds(s.children[c].pc);
        var t := Finish(s, s, c);
        SuccessorStays(s, t, c);
        SuccessorCanServe(s, t);
      } else {
        SuccessorCanServe(s, s);
      }
    }
  }

  lemma SuccessorStays(s: State, t: State, c: nat)
    requires HasSuccessor(s) && c < |s.children| && s.children[c].pc != OpenTmp
    requires t.readers == s.readers && t.children == s.children[c := Child(Finished, true)]
    ensures HasSuccessor(t)
  {
    if c' :| 0 <= c' < |s.children| && s.children[c'] == Child(OpenTmp, true) {
      assert t.children[c'] == Child(OpenTmp, true);
    } else {
      var r :| 0 <= r < |s.readers| && s.readers[r] == CreateProcess;
      assert t.readers[r] == CreateProcess;
    }
  }

  /**
   * In every state that runs reach, some run still answers a later request from the slab, which is
   * then complete, unless the state is lost; from a lost one no run ever does.
   */
  lemma ServedIffNotLost(s: State)
    requires Inv(s)
    ensures CanServe(s) <==> !Lost(s)
  {
    if !Lost(s) {
      if s.files.tmp || s.files.err {
        MarkedCanServe(s);
      } else {
        UnmarkedCanServe(s);
      }
    } else if CanServe(s) {
      var t, r: nat :| Reaches(s, t) && |s.readers| <= r < |t.readers| && t.readers[r] == AnsweredUsual(Complete, Complete);
      var states, actions :| Run(states, actions) && states[0] == s && Last(states) == t;
      LostForever(states, actions, 0, |states| - 1);
      assert false;
    }
  }

  /**
   * A child that completed the slab and cannot remove `.err` condemns the complete slab, exactly
   * when nobody is left who can generate it again.
   */
  lemma FailedRemovalCondemns(s: State, c: nat)
    requires Inv(s) && c < |s.children| && s.children[c] == Child(RemoveErr, true)
    ensures var t := Next(s, ChildStep(c, Fail));
            t.files.slab == Complete && (Condemned(t) <==> !HasSuccessor(s))
  {
    var t := Next(s, ChildStep(c, Fail));
    assert HolderFacts(s.files, s.children[c].pc);
    if c' :| 0 <= c' < |s.children| && s.children[c'] == Child(OpenTmp, true) {
      assert t.children[c'] == Child(OpenTmp, true);
    }
    if c' :| 0 <= c' < |t.children| && t.children[c'] == Child(OpenTmp, true) {
      assert s.children[c'] == Child(OpenTmp, true);
    }
  }

  // ----- Failed generations -----

  /** The slab is partial only under `.tmp`, and nobody is about to give `.tmp` up over it. */
  predicate PartialIsHeld(s: State) {
    && (s.files.slab == Partial ==> s.files.tmp)
    && (forall c :: 0 <= c < |s.children| && s.children[c].pc in {RemoveErr, RemoveTmp} ==> s.files.slab != Partial)
  }

  lemma StepKeepsPartialHeld(s: State, a: Action)
    requires Inv(s) && PartialIsHeld(s) && Enabled(s, a)
    requires a.ChildStep? && s.children[a.child].pc == RemoveSlab ==> a.outcome == Proceed
    ensures PartialIsHeld(Next(s, a))
  {
    if a.ChildStep? {
      assert HolderFacts(s.files, s.children[a.child].pc);
    }
  }

  /**
   * A failed generation leaves no torn slab behind: started on files without one, no run comes to a
   * partial slab without `.tmp` unless some child's removal of the slab failed before.
   */
  lemma {:induction false} TornSlabNeedsFailedRemoval(s: seq<State>, a: seq<Action>, i: nat)
    requires Run(s, a) && Init(s[0]) && s[0].files.slab != Partial && i < |s|
    requires forall k :: 0 <= k < i && a[k].ChildStep? && a[k].child < |s[k].children| ==>
               s[k].children[a[k].child].pc == RemoveSlab ==> a[k].outcome == Proceed
    ensures s[i].files.slab == Partial ==> s[i].files.tmp
    ensures PartialIsHeld(s[i])
  {
    if i > 0 {
      TornSlabNeedsFailedRemoval(s, a, i - 1);
      RunKeepsInv(s, a, i - 1);
      StepKeepsPartialHeld(s[i - 1], a[i - 1]);
    }
  }

  /** Only child `c` moves, and all it does succeeds. */
  predicate OwnSuccess(a: seq<Action>, c: nat) {
    forall k :: 0 <= k < |a| ==> a[k] == ChildStep(c, Proceed)
  }

  /** What a holder at `pc` leaves when all its steps from there on succeed. */
  predicate LeftBy(f: Files, pc: ChildPc, left: Files) {
    && (pc in {InitLogger, Generate, Write} ==> left == CLEAN)
    && (pc == RemoveErr ==> left == Files(f.slab, false, false))
    && (pc in {StatAfterFailure, RemoveSlab} ==> left == Files(Absent, false, f.err))
    && (pc == RemoveTmp ==> left == Files(f.slab, false, f.err))
  }

  /**
   * A holder whose own steps succeed ends as follows: it completes the slab and leaves no marker, or,
   * after a failed generation, leaves no slab and its `.err`.
   */
  lemma {:induction false} HolderLeaves(s: seq<State>, a: seq<Action>, c: nat)
    requires Run(s, a) && OwnSuccess(a, c)
    requires c < |s[0].children| && Holds(s[0].children[c].pc)
    requires c < |Last(s).children| && Last(s).children[c].pc == Finished
    ensures LeftBy(s[0].files, s[0].children[c].pc, Last(s).files)
    decreases |a|
  {
    assert a[0] == ChildStep(c, Proceed) && s[1] == Next(s[0], a[0]);
    if Holds(s[1].children[c].pc) {
      HolderLeaves(s[1..], a[1..], c);
    } else {
      FinishedStays(s, a, c);
    }
  }

  lemma FinishedStays(s: seq<State>, a: seq<Action>, c: nat)
    requires Run(s, a) && OwnSuccess(a, c) && |a| >= 1
    requires c < |s[1].children| && s[1].children[c].pc == Finished
    ensures |a| == 1
  {
  }

  /** After a failed generation, in any reachable state, no slab is left but the `.err`. */
  lemma FailedGenerationIsRemoved(s: seq<State>, a: seq<Action>, c: nat)
    requires Run(s, a) && Inv(s[0]) && OwnSuccess(a, c)
    requires c < |s[0].children| && s[0].children[c] == Child(StatAfterFailure, true)
    requires c < |Last(s).children| && Last(s).children[c].pc == Finished
    ensures Last(s).files == Files(Absent, false, true)
  {
    assert HolderFacts(s[0].files, s[0].children[c].pc);
    HolderLeaves(s, a, c);
  }

  /** The same from the step that fails, whether nothing is written yet or a partial slab is. */
  lemma FailureIsCleanedUp(s: seq<State>, a: seq<Action>, c: nat)
    requires Run(s, a) && Inv(s[0])
    requires c < |s[0].children| && s[0].children[c] in {Child(Generate, true), Child(Write, true)}
    requires a != [] && a[0] == ChildStep(c, Fail) && OwnSuccess(a[1..], c)
    requires c < |Last(s).children| && Last(s).children[c].pc == Finished
    ensures Last(s).files == Files(Absent, false, true)
  {
    StepKeepsInv(s[0], a[0]);
    FailedGenerationIsRemoved(s[1..], a[1..], c);
  }
}
