/**
  That the locking protocol of the allocator never comes to a standstill: whoever has the
  mutex can give it back, every request is answered, and from every state of every
  execution all requests can be brought to their end.
 */
module AllocProgress {
  import opened Bits
  import opened Windows
  import opened Books
  import opened AllocThreads

  /** What a thread with the mutex can do next. */
  lemma HolderChoice(s: State, i: nat) returns (step: Step)
    requires Inv(s) && s.mutex == HeldBy(i)
    ensures i < |s.threads| && HasMutex(s.threads[i].phase) && Enabled(s, i, step) && EndsHold(s.threads[i], step)
  {
    hide Inv;
    hide RunSet;
    HolderSays(s, i);
    var t := s.threads[i];
    step := Unlock;
    match t.phase {
      case Locked =>
        if t.want > 0 {
          step := if t.want <= s.books.free then Charge else Refuse;
        }
      case BitsSet(_, _, _) => step := Count;
      case Taken =>
      case Returning =>
        if t.own != {} {
          var c :| c in t.own;
          OneCluster(c);
          step := Unreserve(c, 1);
        }
      case BitsCleared(_, _, _) => step := Credit;
      case Credited(_, cluster, count) =>
        RunHolds(cluster, count);
        step := AddFree;
    }
  }

  lemma HolderSays(s: State, i: nat)
    requires Inv(s) && s.mutex == HeldBy(i)
    ensures i < |s.threads| && HasMutex(s.threads[i].phase)
    ensures var p := s.threads[i].phase; p.Credited? ==> p.count > 0 && RunSet(p.index, p.count) <= s.threads[i].own
  {
    var t := s.threads[i];
    assert HasMutex(t.phase) && Midway(s, t);
    hide InOrder;
    hide RunSet;
    hide GiveBack;
    hide Regained;
  }

  lemma RunHolds(cluster: nat, count: nat)
    ensures count > 0 ==> cluster in RunSet(cluster, count)
  {
    assert count > 0 ==> InRun(cluster, cluster, count);
  }

  /** Only thread i has acted, and it has the resource as before. */
  ghost predicate OneActs(s: State, i: nat, s': State) {
    i < |s.threads| == |s'.threads| && s'.threads == s.threads[i := s'.threads[i]] && s'.threads[i].mode == s.threads[i].mode
  }

  /** The mutex has been given back, or will be sooner. */
  ghost predicate EndsSooner(s: State, i: nat, s': State)
    requires i < |s.threads|
  {
    if s'.mutex.Free? then i < |s'.threads| && (s'.threads[i].phase.Holding? || s'.threads[i].phase.Writing?)
    else s'.mutex == HeldBy(i) && i < |s'.threads| && HoldRank(s'.threads[i]) < HoldRank(s.threads[i])
  }

  /** The steps by which a thread comes to let go of the mutex. */
  ghost predicate EndsHold(t: Thread, step: Step) {
    && (step in {Charge, Refuse, Count, Unlock, Credit, AddFree} || step.Unreserve?)
    && (step.AddFree? && t.phase.Credited? ==> t.phase.index in t.own && t.phase.index in RunSet(t.phase.index, t.phase.count))
  }

  /** Each brings it nearer to that. */
  lemma HolderStep(s: State, i: nat) returns (step: Step)
    requires Inv(s) && s.mutex == HeldBy(i)
    ensures i < |s.threads| && Enabled(s, i, step) && Safe(s, i, step) && Inv(Apply(s, i, step))
    ensures var s' := Apply(s, i, step); OneActs(s, i, s') && EndsSooner(s, i, s')
  {
    hide *;
    step := HolderChoice(s, i);
    StepKeeps(s, i, step);
    HoldEnds(s, i, step);
  }

  lemma OneCluster(c: nat)
    ensures RunSet(c, 1) == {c}
  {
    assert InRun(c, c, 1);
  }

  /** How much a thread has left to do with the mutex, at most. */
  function HoldRank(t: Thread): nat {
    match t.phase
    case Locked => if t.want > 0 then 2 else 1
    case BitsSet(_, _, _) => 2
    case Taken => 1
    case Returning => 3 * |t.own| + 3
    case BitsCleared(_, _, _) => 3 * |t.own| + 2
    case Credited(_, _, _) => 3 * |t.own| + 1
    case _ => 0
  }

  lemma HoldEnds(s: State, i: nat, step: Step)
    requires i < |s.threads| && s.mutex == HeldBy(i) && HasMutex(s.threads[i].phase)
    requires Enabled(s, i, step) && Safe(s, i, step) && EndsHold(s.threads[i], step)
    ensures var s' := Apply(s, i, step); OneActs(s, i, s') && EndsSooner(s, i, s')
  {
    hide RunSet;
    hide Regained;
    hide WithClear;
    hide WithSet;
    var t := s.threads[i];
    if step.AddFree? {
      FewerLeft(t.own, RunSet(t.phase.index, t.phase.count), t.phase.index);
    }
  }

  lemma FewerLeft(own: set<nat>, run: set<nat>, c: nat)
    requires c in run && c in own
    ensures |own - run| < |own|
  {
    assert own - run <= own - {c};
    SmallerSet(own - run, own - {c});
  }

  lemma {:induction false} SmallerSet(a: set<nat>, b: set<nat>)
    requires a <= b
    ensures |a| <= |b|
  {
    if a != {} {
      var c :| c in a;
      SmallerSet(a - {c}, b - {c});
    }
  }

  /** Steps of one thread, one after the other, with no other thread between them. */
  ghost predicate Alone(s: State, i: nat, steps: seq<Step>, s': State)
    decreases |steps|
  {
    if steps == [] then s' == s
    else Enabled(s, i, steps[0]) && Safe(s, i, steps[0]) && Alone(Apply(s, i, steps[0]), i, steps[1..], s')
  }

  lemma NothingAlone(s: State, i: nat)
    ensures Alone(s, i, [], s)
  {
  }

  /** Steps behind steps. */
  lemma {:induction false} AloneOn(s: State, i: nat, a: seq<Step>, s1: State, b: seq<Step>, s2: State)
    requires Alone(s, i, a, s1) && Alone(s1, i, b, s2)
    ensures Alone(s, i, a + b, s2)
    decreases |a|
  {
    hide Apply;
    hide Enabled;
    hide Safe;
    if a == [] {
      assert a + b == b;
    } else {
      AloneOn(Apply(s, i, a[0]), i, a[1..], s1, b, s2);
      assert (a + b)[1..] == a[1..] + b;
    }
  }

  /** One more step. */
  lemma ThenStep(s: State, i: nat, a: seq<Step>, s1: State, step: Step) returns (s2: State)
    requires Alone(s, i, a, s1) && Inv(s1) && Enabled(s1, i, step)
    ensures Safe(s1, i, step) && s2 == Apply(s1, i, step) && Inv(s2) && Alone(s, i, a + [step], s2)
  {
    hide *;
    StepKeeps(s1, i, step);
    s2 := Apply(s1, i, step);
    SingleStep(s1, i, step);
    AloneOn(s, i, a, s1, [step], s2);
  }

  lemma SingleStep(s: State, i: nat, step: Step)
    requires Enabled(s, i, step) && Safe(s, i, step)
    ensures Alone(s, i, [step], Apply(s, i, step))
  {
    NothingAlone(Apply(s, i, step), i);
    assert [step][1..] == [];
    hide Apply;
    hide Enabled;
    hide Safe;
  }

  /** A thread that has the mutex can give it back by steps of its own, whatever it is in the middle of. */
  lemma {:induction false} MutexComesFree(s: State, i: nat) returns (steps: seq<Step>, s': State)
    requires Inv(s) && s.mutex == HeldBy(i)
    ensures i < |s.threads| && Alone(s, i, steps, s') && Inv(s') && s'.mutex.Free? && OneActs(s, i, s')
    ensures s'.threads[i].phase.Holding? || s'.threads[i].phase.Writing?
    decreases if i < |s.threads| then HoldRank(s.threads[i]) else 0
  {
    var step := HolderStep(s, i);
    var s1 := Apply(s, i, step);
    hide *;
    SingleStep(s, i, step);
    steps, s' := [step], s1;
    ActsSay(s, i, s1);
    if !s1.mutex.Free? {
      var rest;
      rest, s' := MutexComesFree(s1, i);
      AloneOn(s, i, [step], s1, rest, s');
      ActsOn(s, i, s1, s');
      steps := [step] + rest;
    }
  }

  lemma ActsSay(s: State, i: nat, s': State)
    requires OneActs(s, i, s') && EndsSooner(s, i, s')
    ensures i < |s'.threads| == |s.threads|
    ensures if s'.mutex.Free? then s'.threads[i].phase.Holding? || s'.threads[i].phase.Writing?
      else s'.mutex == HeldBy(i) && HoldRank(s'.threads[i]) < HoldRank(s.threads[i])
  {
    hide HoldRank;
  }

  lemma ActsOn(s: State, i: nat, s1: State, s2: State)
    requires OneActs(s, i, s1) && OneActs(s1, i, s2)
    ensures OneActs(s, i, s2)
  {
  }

  /** A thread that has the resource but not the mutex can go on as soon as the mutex is free. */
  lemma ResourceStep(s: State, i: nat) returns (step: Step)
    requires Inv(s) && i < |s.threads| && !s.threads[i].mode.NotHeld? && s.mutex.Free?
    ensures Enabled(s, i, step)
  {
    var t := s.threads[i];
    assert !HasMutex(t.phase);
    step := Lock;
    match t.phase
    case Holding =>
    case Writing =>
      if forall c :: c in t.own ==> InFat(s, c) {
        step := Written;
      } else {
        var c :| c in t.own && !InFat(s, c);
        step := WriteEntry(c);
      }
    case Clearing =>
      if c :| c in t.own && InFat(s, c) {
        step := ClearEntry(c);
      }
  }

  /** No thread ever waits for nothing: while one has begun and is not done, some such thread can take a step. */
  lemma SomeoneCanMove(s: State, i: nat) returns (j: nat, step: Step)
    requires Inv(s) && i < |s.threads| && !s.threads[i].phase.Idle?
    ensures j < |s.threads| && !s.threads[j].phase.Idle? && Enabled(s, j, step)
  {
    if s.mutex.HeldBy? {
      j := s.mutex.thread;
      step := HolderStep(s, j);
    } else if k :| 0 <= k < |s.threads| && !s.threads[k].mode.NotHeld? {
      j := k;
      step := ResourceStep(s, k);
    } else {
      assert s.threads[i].mode.NotHeld?;
      j, step := i, Acquire;
    }
  }

  /** In every state of every execution, the thread that has the mutex can take a step, and so can some thread unless all are idle. */
  lemma Progress(states: seq<State>, moves: seq<Move>, k: nat)
    requires Execution(states, moves) && k < |states|
    ensures var s := states[k]; s.mutex.HeldBy? ==> exists step :: Enabled(s, s.mutex.thread, step)
    ensures var s := states[k];
      (exists i :: 0 <= i < |s.threads| && !s.threads[i].phase.Idle?) ==>
        exists j, step :: 0 <= j < |s.threads| && !s.threads[j].phase.Idle? && Enabled(s, j, step)
  {
    EveryExecution(states, moves, k);
    var s := states[k];
    hide *;
    if s.mutex.HeldBy? {
      var step := HolderStep(s, s.mutex.thread);
    }
    if i :| 0 <= i < |s.threads| && !s.threads[i].phase.Idle? {
      var j, step := SomeoneCanMove(s, i);
    }
  }

  /** A request for clusters that has got the mutex is answered next: charged in full if as many are free, refused if they are not. */
  lemma OnlyAnswer(s: State, i: nat, step: Step)
    requires Inv(s) && i < |s.threads| && s.threads[i].phase.Locked? && s.threads[i].want > 0 && Enabled(s, i, step)
    ensures Safe(s, i, step)
    ensures var t, s' := s.threads[i], Apply(s, i, step);
      s' == if t.want <= s.books.free then
        s.(threads := s.threads[i := t.(want := 0, unspent := t.want)],
           books := s.books.(free := s.books.free - t.want, precharged := s.books.precharged + t.want))
      else s.(threads := s.threads[i := t.(want := 0)])
  {
    assert ThreadOk(s, s.threads[i]);
  }

  /**
    From there the thread's own steps charge exactly what has been asked for if as many
    clusters are free, and otherwise leave everything but the thread as it was, and the
    thread idle.
   */
  lemma Answered(s: State, i: nat) returns (steps: seq<Step>, s': State)
    requires Inv(s) && i < |s.threads| && s.threads[i].phase.Locked? && s.threads[i].want > 0
    ensures Alone(s, i, steps, s') && |s'.threads| == |s.threads|
    ensures var t := s.threads[i];
      && (forall j :: 0 <= j < |s.threads| && j != i ==> s'.threads[j] == s.threads[j]) && s'.fat == s.fat
      && if t.want <= s.books.free then
           && s'.threads[i] == t.(want := 0, unspent := t.want) && s'.mutex == s.mutex
           && s'.books.free + t.want == s.books.free && s'.books.precharged == s.books.precharged + t.want
           && s'.books.used == s.books.used && s'.books.windows == s.books.windows
         else s'.threads[i] == Thread(Idle, NotHeld, 0, 0, {}) && s'.books == s.books && s'.mutex.Free?
  {
    AsksOnly(s, i);
    hide Inv;
    if s.threads[i].want <= s.books.free {
      OnlyAnswer(s, i, Charge);
      s' := Apply(s, i, Charge);
      SingleStep(s, i, Charge);
      steps := [Charge];
    } else {
      OnlyAnswer(s, i, Refuse);
      StepKeeps(s, i, Refuse);
      var s1 := Apply(s, i, Refuse);
      steps, s' := LetsGo(s1, i);
      SingleStep(s, i, Refuse);
      AloneOn(s, i, [Refuse], s1, steps, s');
      steps := [Refuse] + steps;
    }
  }

  lemma AsksOnly(s: State, i: nat)
    requires Inv(s) && i < |s.threads| && s.threads[i].phase.Locked? && s.threads[i].want > 0
    ensures s.threads[i].own == {} && s.threads[i].unspent == 0 && s.mutex == HeldBy(i)
  {
    assert ThreadOk(s, s.threads[i]);
  }

  /** A thread that wants nothing gives the mutex back, and the resource. */
  lemma LetsGo(s: State, i: nat) returns (steps: seq<Step>, s': State)
    requires Inv(s) && i < |s.threads| && s.threads[i].phase.Locked?
    requires s.threads[i].want == 0 && s.threads[i].unspent == 0 && s.threads[i].own == {}
    ensures Alone(s, i, steps, s')
    ensures s' == s.(mutex := Free, threads := s.threads[i := Thread(Idle, NotHeld, 0, 0, {})])
  {
    hide Inv;
    NothingAlone(s, i);
    var s1 := ThenStep(s, i, [], s, Unlock);
    s' := ThenStep(s, i, [] + [Unlock], s1, Release);
    steps := [] + [Unlock] + [Release];
  }

  /** The clusters of a set of which the FAT does not say that they are in use, or does. */
  ghost function Of(s: State, own: set<nat>, inUse: bool): set<nat> {
    set c | c in own && InFat(s, c) == inUse
  }

  /** A thread that links clusters can link them all, and is then back where it only has the resource. */
  lemma {:induction false} WritesAll(s: State, i: nat) returns (steps: seq<Step>, s': State)
    requires Inv(s) && i < |s.threads| && s.threads[i].phase.Writing?
    ensures Alone(s, i, steps, s') && Inv(s') && s'.mutex == s.mutex && s'.books == s.books && s'.n == s.n && s'.bits == s.bits
    ensures s'.threads == s.threads[i := s.threads[i].(phase := Holding, own := {})]
    decreases Of(s, s.threads[i].own, false)
  {
    var own := s.threads[i].own;
    NothingAlone(s, i);
    if c :| c in own && !InFat(s, c) {
      var s1 := WriteOne(s, i, c);
      var rest;
      rest, s' := WritesAll(s1, i);
      AloneOn(s, i, [WriteEntry(c)], s1, rest, s');
      steps := [WriteEntry(c)] + rest;
    } else {
      hide Inv;
      s' := ThenStep(s, i, [], s, Written);
      steps := [] + [Written];
    }
  }

  lemma WriteOne(s: State, i: nat, c: nat) returns (s1: State)
    requires Inv(s) && i < |s.threads| && s.threads[i].phase.Writing? && c in s.threads[i].own && !InFat(s, c)
    ensures Alone(s, i, [WriteEntry(c)], s1) && Inv(s1) && s1 == s.(fat := s1.fat)
    ensures Of(s1, s.threads[i].own, false) < Of(s, s.threads[i].own, false)
  {
    hide Inv;
    NothingAlone(s, i);
    s1 := ThenStep(s, i, [], s, WriteEntry(c));
    assert [] + [WriteEntry(c)] == [WriteEntry(c)];
    var own := s.threads[i].own;
    assert c in Of(s, own, false) && c !in Of(s1, own, false);
  }

  /** A thread that frees clusters can free them all. */
  lemma {:induction false} ClearsAll(s: State, i: nat) returns (steps: seq<Step>, s': State)
    requires Inv(s) && i < |s.threads| && s.threads[i].phase.Clearing?
    ensures Alone(s, i, steps, s') && Inv(s') && s' == s.(fat := s'.fat)
    ensures forall c :: c in s.threads[i].own ==> !InFat(s', c)
    decreases Of(s, s.threads[i].own, true)
  {
    NothingAlone(s, i);
    steps, s' := [], s;
    if c :| c in s.threads[i].own && InFat(s, c) {
      var s1 := ClearOne(s, i, c);
      hide Inv;
      steps, s' := ClearsAll(s1, i);
      AloneOn(s, i, [ClearEntry(c)], s1, steps, s');
      steps := [ClearEntry(c)] + steps;
    }
  }

  lemma ClearOne(s: State, i: nat, c: nat) returns (s1: State)
    requires Inv(s) && i < |s.threads| && s.threads[i].phase.Clearing? && c in s.threads[i].own && InFat(s, c)
    ensures Alone(s, i, [ClearEntry(c)], s1) && Inv(s1) && s1 == s.(fat := s1.fat)
    ensures Of(s1, s.threads[i].own, true) < Of(s, s.threads[i].own, true)
  {
    hide Inv;
    NothingAlone(s, i);
    s1 := ThenStep(s, i, [], s, ClearEntry(c));
    assert [] + [ClearEntry(c)] == [ClearEntry(c)];
    var own := s.threads[i].own;
    assert c in Of(s, own, true) && c !in Of(s1, own, true);
  }

  /** A thread has the resource, and nothing else. */
  ghost predicate AtRest(s: State, i: nat) {
    Inv(s) && s.mutex.Free? && i < |s.threads| && s.threads[i].phase.Holding?
  }

  /** A thread that frees clusters can get the mutex to give them back. */
  lemma ReadyToReturn(s: State, i: nat) returns (steps: seq<Step>, s': State)
    requires Inv(s) && i < |s.threads| && s.threads[i].phase.Clearing? && s.mutex.Free?
    ensures Alone(s, i, steps, s') && OneActs(s, i, s') && Inv(s') && s'.mutex == HeldBy(i)
  {
    hide Inv;
    hide Alone;
    var s1;
    steps, s1 := ClearsAll(s, i);
    s' := ThenStep(s, i, steps, s1, Lock);
    steps := steps + [Lock];
  }

  /** A thread that links clusters comes to rest. */
  lemma WritesToRest(s: State, i: nat) returns (steps: seq<Step>, s': State)
    requires Inv(s) && i < |s.threads| && s.threads[i].phase.Writing? && s.mutex.Free?
    ensures Alone(s, i, steps, s') && OneActs(s, i, s') && AtRest(s', i)
  {
    hide Inv;
    hide Alone;
    steps, s' := WritesAll(s, i);
  }

  /** A thread that has the resource can come to have it and nothing else, if no other thread has the mutex. */
  lemma ToRest(s: State, i: nat) returns (steps: seq<Step>, s': State)
    requires Inv(s) && i < |s.threads| && !s.threads[i].mode.NotHeld? && (s.mutex.Free? || s.mutex == HeldBy(i))
    ensures Alone(s, i, steps, s') && OneActs(s, i, s') && AtRest(s', i)
  {
    PhaseIs(s, i);
    NothingAlone(s, i);
    NobodyActs(s, i);
    hide *;
    steps, s' := [], s;
    if s.threads[i].phase.Clearing? && s.mutex.Free? {
      steps, s' := ReadyToReturn(s, i);
    }
    var more, s2;
    if s'.mutex.HeldBy? {
      more, s2 := MutexComesFree(s', i);
      AloneOn(s, i, steps, s', more, s2);
      ActsOn(s, i, s', s2);
      steps, s' := steps + more, s2;
    }
    if s'.threads[i].phase.Writing? {
      more, s2 := WritesToRest(s', i);
      AloneOn(s, i, steps, s', more, s2);
      ActsOn(s, i, s', s2);
      steps, s' := steps + more, s2;
    }
    RestSays(s', i);
  }

  lemma NobodyActs(s: State, i: nat)
    requires i < |s.threads|
    ensures OneActs(s, i, s)
  {
  }

  lemma RestSays(s: State, i: nat)
    ensures Inv(s) && s.mutex.Free? && i < |s.threads| && s.threads[i].phase.Holding? ==> AtRest(s, i)
  {
    hide Inv;
  }

  lemma PhaseIs(s: State, i: nat)
    requires Inv(s) && i < |s.threads| && !s.threads[i].mode.NotHeld?
    ensures var p := s.threads[i].phase;
      if s.mutex == HeldBy(i) then HasMutex(p) && !p.Clearing? && !p.Writing? else p.Holding? || p.Writing? || p.Clearing?
  {
  }

  /** It can then have its request answered. */
  lemma GetsAnswer(s: State, i: nat) returns (steps: seq<Step>, s': State)
    requires AtRest(s, i)
    ensures Alone(s, i, steps, s') && OneActs(s, i, s') && AtRest(s', i) && s'.threads[i].want == 0
  {
    NothingAlone(s, i);
    hide Inv;
    hide Alone;
    s' := ThenStep(s, i, [], s, Lock);
    steps := [] + [Lock];
    if s'.threads[i].want > 0 {
      var step := if s'.threads[i].want <= s'.books.free then Charge else Refuse;
      s' := ThenStep(s, i, steps, s', step);
      steps := steps + [step];
    }
    s' := ThenStep(s, i, steps, s', Unlock);
    steps := steps + [Unlock];
  }

  lemma {:induction false} SomeWindow(ws: seq<Window>) returns (w: nat)
    requires TotalFree(ws) > 0
    ensures w < |ws| && ws[w].clustersFree > 0
  {
    w := |ws| - 1;
    if ws[w].clustersFree == 0 {
      w := SomeWindow(ws[..w]);
    }
  }

  lemma FreeBit(s: State) returns (index: nat)
    requires InOrder(s.bits, s.n, s.books) && s.books.windows[s.books.current].clustersFree > 0
    ensures ClearRun(s.books.bitmap, index, 1)
  {
    CurrentWindowGood(s.bits, s.n, s.books);
    ClearInPositive(s.books.bitmap, 0, |s.books.bitmap|);
    index :| 0 <= index < |s.books.bitmap| && !s.books.bitmap[index];
  }

  /** Charged clusters are there to be taken: in the current window, or in another one. */
  lemma ChargedAreThere(s: State, i: nat) returns (w: nat)
    requires Inv(s) && i < |s.threads| && s.threads[i].unspent > 0 && s.threads[i].phase.Locked?
    ensures InOrder(s.bits, s.n, s.books) && s.books.current < |s.books.windows| && w < |s.books.windows| && s.books.windows[w].clustersFree > 0
  {
    UnspentCovers(s.threads, i);
    assert s.mutex == HeldBy(i) && Midway(s, s.threads[i]);
    FreeCountsAddUp(s.bits, s.n, s.books);
    w := SomeWindow(s.books.windows);
  }

  /** A thread with the mutex, and the resource exclusively, can make a window with free clusters the current one. */
  lemma FindsWindow(s: State, i: nat) returns (steps: seq<Step>, s': State)
    requires Inv(s) && i < |s.threads| && s.threads[i].phase.Locked? && s.threads[i].mode.Exclusive? && s.threads[i].want == 0 && s.threads[i].unspent > 0
    ensures Alone(s, i, steps, s') && Inv(s') && s'.threads == s.threads && s'.mutex == s.mutex
    ensures InOrder(s'.bits, s'.n, s'.books) && s'.books.current < |s'.books.windows| && s'.books.windows[s'.books.current].clustersFree > 0
  {
    NothingAlone(s, i);
    var w := ChargedAreThere(s, i);
    steps, s' := [], s;
    if w != s.books.current {
      hide Inv;
      s' := ThenStep(s, i, [], s, Switch(w));
      steps := [] + [Switch(w)];
      var w' := ChargedAreThere(s', i);
    }
    hide InOrder;
  }

  /** A thread with the resource exclusively can take one of the clusters it has been charged for. */
  lemma TakesOne(s: State, i: nat) returns (steps: seq<Step>, s': State)
    requires AtRest(s, i) && s.threads[i].mode.Exclusive? && s.threads[i].want == 0 && s.threads[i].unspent > 0
    ensures Alone(s, i, steps, s') && OneActs(s, i, s') && AtRest(s', i)
    ensures s'.threads[i].want == 0 && s'.threads[i].unspent == s.threads[i].unspent - 1
  {
    NothingAlone(s, i);
    hide Inv;
    hide InOrder;
    hide Alone;
    var s1 := ThenStep(s, i, [], s, Lock);
    steps := [] + [Lock];
    var more, s2 := FindsWindow(s1, i);
    AloneOn(s, i, steps, s1, more, s2);
    steps := steps + more;
    var index := FreeBit(s2);
    var s3 := ThenStep(s, i, steps, s2, Reserve(index, 1));
    steps := steps + [Reserve(index, 1)];
    var s4 := ThenStep(s, i, steps, s3, Count);
    steps := steps + [Count];
    var s5 := ThenStep(s, i, steps, s4, Unlock);
    steps := steps + [Unlock];
    more, s' := WritesAll(s5, i);
    AloneOn(s, i, steps, s5, more, s');
    steps := steps + more;
  }

  lemma {:induction false} TakesAll(s: State, i: nat) returns (steps: seq<Step>, s': State)
    requires AtRest(s, i) && s.threads[i].mode.Exclusive? && s.threads[i].want == 0
    ensures Alone(s, i, steps, s') && OneActs(s, i, s') && AtRest(s', i)
    ensures s'.threads[i].want == 0 && s'.threads[i].unspent == 0
    decreases if i < |s.threads| then s.threads[i].unspent else 0
  {
    NothingAlone(s, i);
    steps, s' := [], s;
    if s.threads[i].unspent > 0 {
      var s1;
      steps, s1 := TakesOne(s, i);
      var more;
      more, s' := TakesAll(s1, i);
      AloneOn(s, i, steps, s1, more, s');
      steps := steps + more;
    }
    hide Inv;
    hide Alone;
  }

  /** Only thread i has acted, nobody has the mutex, and thread i does not have the resource. */
  ghost predicate LetGo(s: State, i: nat, s': State) {
    && Inv(s') && s'.mutex.Free? && i < |s.threads| == |s'.threads|
    && s'.threads == s.threads[i := s'.threads[i]] && s'.threads[i].mode.NotHeld?
  }

  /** A thread that has the resource can let go of it; what it has charged and not taken it will take with the resource exclusively. */
  lemma LetsGoOf(s: State, i: nat) returns (steps: seq<Step>, s': State)
    requires Inv(s) && i < |s.threads| && !s.threads[i].mode.NotHeld? && (s.mutex.Free? || s.mutex == HeldBy(i))
    ensures Alone(s, i, steps, s') && LetGo(s, i, s')
    ensures s'.threads[i].phase.Idle? || (s'.threads[i].phase == Waiting(Exclusive) && s.threads[i].mode.Shared?)
  {
    hide Inv;
    hide Alone;
    var s1, s2, s3, more;
    steps, s1 := ToRest(s, i);
    more, s2 := GetsAnswer(s1, i);
    AloneOn(s, i, steps, s1, more, s2);
    steps := steps + more;
    s3 := s2;
    if s2.threads[i].mode.Exclusive? {
      more, s3 := TakesAll(s2, i);
      AloneOn(s, i, steps, s2, more, s3);
      steps := steps + more;
    }
    s' := ThenStep(s, i, steps, s3, Release);
    steps := steps + [Release];
  }

  /**
    The fast path: a thread with the mutex takes all it has been charged for as one run,
    if the current window has one, and is done; the resource need only be shared.
   */
  lemma TakesRun(s: State, i: nat, index: nat) returns (steps: seq<Step>, s': State)
    requires Inv(s) && i < |s.threads| && s.threads[i].phase.Locked? && s.threads[i].want == 0
    requires s.threads[i].unspent > 0 && ClearRun(s.books.bitmap, index, s.threads[i].unspent)
    ensures Alone(s, i, steps, s') && LetGo(s, i, s') && s'.threads[i].phase.Idle?
    ensures s'.books.free == s.books.free && s'.books.precharged + s.threads[i].unspent == s.books.precharged
  {
    LockedHolds(s, i);
    hide *;
    var s3, more, s4;
    steps, s3 := TakesInBooks(s, i, index);
    more, s4 := WritesAll(s3, i);
    AloneOn(s, i, steps, s3, more, s4);
    steps := steps + more;
    s' := Releases(s, i, steps, s4);
    steps := steps + [Release];
  }

  lemma TakesInBooks(s: State, i: nat, index: nat) returns (steps: seq<Step>, s': State)
    requires Inv(s) && i < |s.threads| && s.threads[i].phase.Locked? && s.threads[i].want == 0 && s.mutex == HeldBy(i)
    requires s.threads[i].unspent > 0 && ClearRun(s.books.bitmap, index, s.threads[i].unspent)
    ensures Alone(s, i, steps, s') && Inv(s') && s'.mutex.Free? && i < |s'.threads|
    ensures s'.threads == s.threads[i := s'.threads[i]] && s'.threads[i].phase.Writing? && s'.threads[i].want == 0 && s'.threads[i].unspent == 0
    ensures s'.books.free == s.books.free && s'.books.precharged + s.threads[i].unspent == s.books.precharged
  {
    NothingAlone(s, i);
    hide Inv;
    hide ClearRun;
    hide Alone;
    hide WithSet;
    hide RunSet;
    var n := s.threads[i].unspent;
    steps := [] + [Reserve(index, n)];
    s' := ThenStep(s, i, [], s, Reserve(index, n));
    s' := ThenStep(s, i, steps, s', Count);
    steps := steps + [Count];
    s' := ThenStep(s, i, steps, s', Unlock);
    steps := steps + [Unlock];
  }

  lemma Releases(s: State, i: nat, steps: seq<Step>, s1: State) returns (s': State)
    requires Alone(s, i, steps, s1) && Inv(s1) && s1.mutex.Free? && i < |s1.threads| == |s.threads|
    requires s1.threads == s.threads[i := s1.threads[i]] && s1.threads[i].phase.Holding? && s1.threads[i].want == 0 && s1.threads[i].unspent == 0
    ensures Alone(s, i, steps + [Release], s') && LetGo(s, i, s') && s'.threads[i].phase.Idle? && s'.books == s1.books
  {
    hide Inv;
    hide Alone;
    s' := ThenStep(s, i, steps, s1, Release);
  }

  lemma LockedHolds(s: State, i: nat)
    requires Inv(s) && i < |s.threads| && s.threads[i].phase.Locked?
    ensures s.mutex == HeldBy(i) && s.threads[i].own == {} && !s.threads[i].mode.NotHeld?
  {
    assert ThreadOk(s, s.threads[i]);
  }

  /** A thread that is idle may ask for any number of clusters, and may give up any clusters in use that no other thread has. */
  lemma MayBegin(s: State, i: nat, count: nat, clusters: set<nat>)
    requires i < |s.threads| && s.threads[i].phase.Idle? && count >= 1 && clusters != {}
    requires forall c :: c in clusters ==> 2 <= c <= s.n + 1 && c < |s.fat| && s.fat[c]
    requires forall j, c :: 0 <= j < |s.threads| && c in clusters ==> c !in s.threads[j].own
    ensures Enabled(s, i, BeginAllocate(count)) && Enabled(s, i, BeginFree(clusters))
    ensures Apply(s, i, BeginAllocate(count)).threads[i] == s.threads[i].(phase := Waiting(Shared), want := count)
    ensures Apply(s, i, BeginFree(clusters)).threads[i] == s.threads[i].(phase := Waiting(Shared), own := clusters)
  {
    forall j | 0 <= j < |s.threads| ensures s.threads[j].own !! clusters {
      forall c | c in clusters ensures c !in s.threads[j].own {
      }
    }
  }

  /** Any number of threads may have the resource shared at once; a thread that wants it exclusively waits for all others. */
  lemma MayShare(s: State, i: nat)
    requires Inv(s) && i < |s.threads| && s.threads[i].phase.Waiting?
    ensures Enabled(s, i, Acquire) <==>
      forall j :: 0 <= j < |s.threads| ==> if s.threads[i].phase.wants.Shared? then !s.threads[j].mode.Exclusive? else s.threads[j].mode.NotHeld?
  {
    forall j | 0 <= j < |s.threads|
      ensures (s.threads[j].mode.NotHeld? || (s.threads[i].phase.wants.Shared? && s.threads[j].mode.Shared?))
        <==> if s.threads[i].phase.wants.Shared? then !s.threads[j].mode.Exclusive? else s.threads[j].mode.NotHeld?
    {
    }
    hide Inv;
  }

  /** Nobody has the resource or the mutex. */
  ghost predicate Unheld(s: State) {
    Inv(s) && s.mutex.Free? && forall j :: 0 <= j < |s.threads| ==> s.threads[j].mode.NotHeld?
  }

  /** A thread that waits while nobody has the resource can come to its end. */
  lemma ComesToEnd(s: State, i: nat) returns (steps: seq<Step>, s': State)
    requires Unheld(s) && i < |s.threads| && s.threads[i].phase.Waiting?
    ensures Alone(s, i, steps, s') && LetGo(s, i, s') && s'.threads[i].phase.Idle?
  {
    hide Inv;
    hide Alone;
    steps, s' := OneTurn(s, i);
    if !s'.threads[i].phase.Idle? {
      var s1, more := s', [];
      more, s' := OneTurn(s1, i);
      AloneOn(s, i, steps, s1, more, s');
      steps := steps + more;
    }
  }

  lemma OneTurn(s: State, i: nat) returns (steps: seq<Step>, s': State)
    requires Unheld(s) && i < |s.threads| && s.threads[i].phase.Waiting?
    ensures Alone(s, i, steps, s') && LetGo(s, i, s')
    ensures s'.threads[i].phase.Idle? || (s'.threads[i].phase == Waiting(Exclusive) && !s.threads[i].phase.wants.Exclusive?)
  {
    assert ThreadOk(s, s.threads[i]);
    NothingAlone(s, i);
    hide Inv;
    hide Alone;
    var s1 := ThenStep(s, i, [], s, Acquire);
    steps, s' := LetsGoOf(s1, i);
    AloneOn(s, i, [] + [Acquire], s1, steps, s');
    steps := [] + [Acquire] + steps;
  }

  /** Steps of one thread in a row. */
  datatype Turn = Turn(thread: nat, steps: seq<Step>)

  /** Threads taking turns. */
  ghost predicate Turns(s: State, turns: seq<Turn>, s': State) {
    if turns == [] then s' == s
    else
      var last := turns[|turns| - 1];
      exists s1 :: Turns(s, turns[..|turns| - 1], s1) && Alone(s1, last.thread, last.steps, s')
  }

  lemma OneMoreTurn(s: State, turns: seq<Turn>, s1: State, i: nat, steps: seq<Step>, s2: State)
    requires Turns(s, turns, s1) && Alone(s1, i, steps, s2)
    ensures Turns(s, turns + [Turn(i, steps)], s2)
  {
    hide Alone;
    var turns' := turns + [Turn(i, steps)];
    assert turns'[|turns'| - 1] == Turn(i, steps) && turns'[..|turns'| - 1] == turns;
    assert Turns(s, turns'[..|turns'| - 1], s1) && Alone(s1, turns'[|turns'| - 1].thread, turns'[|turns'| - 1].steps, s2);
  }

  /** From every state, all threads can let go of the resource, the one with the mutex first. */
  lemma AllLetGo(s: State) returns (turns: seq<Turn>, s': State)
    requires Inv(s)
    ensures Turns(s, turns, s') && Unheld(s') && |s'.threads| == |s.threads|
  {
    turns, s' := [], s;
    if s.mutex.HeldBy? {
      HolderSays(s, s.mutex.thread);
      HolderHolds(s);
      turns, s' := OneLetsGo(s, [], s, s.mutex.thread);
    }
    hide Inv;
    hide Turns;
    for k := 0 to |s.threads|
      invariant Turns(s, turns, s') && Inv(s') && s'.mutex.Free? && |s'.threads| == |s.threads|
      invariant forall j :: 0 <= j < k ==> s'.threads[j].mode.NotHeld?
    {
      if !s'.threads[k].mode.NotHeld? {
        turns, s' := OneLetsGo(s, turns, s', k);
      }
    }
  }

  lemma HolderHolds(s: State)
    requires Inv(s) && s.mutex.HeldBy? && s.mutex.thread < |s.threads| && HasMutex(s.threads[s.mutex.thread].phase)
    ensures !s.threads[s.mutex.thread].mode.NotHeld?
  {
  }

  lemma OneLetsGo(s: State, turns: seq<Turn>, s1: State, i: nat) returns (turns': seq<Turn>, s': State)
    requires Turns(s, turns, s1) && Inv(s1) && i < |s1.threads| && !s1.threads[i].mode.NotHeld? && (s1.mutex.Free? || s1.mutex == HeldBy(i))
    ensures Turns(s, turns', s') && LetGo(s1, i, s')
  {
    var steps;
    steps, s' := LetsGoOf(s1, i);
    OneMoreTurn(s, turns, s1, i, steps, s');
    turns' := turns + [Turn(i, steps)];
    hide Inv;
    hide Turns;
  }

  lemma OneEnds(s: State, turns: seq<Turn>, s1: State, i: nat) returns (turns': seq<Turn>, s': State)
    requires Turns(s, turns, s1) && Unheld(s1) && i < |s1.threads| && s1.threads[i].phase.Waiting?
    ensures Turns(s, turns', s') && LetGo(s1, i, s') && s'.threads[i].phase.Idle?
  {
    var steps;
    steps, s' := ComesToEnd(s1, i);
    OneMoreTurn(s, turns, s1, i, steps, s');
    turns' := turns + [Turn(i, steps)];
    hide Inv;
    hide Turns;
  }

  /** From every state of every execution, there is a way to go on after which all requests have been answered and all threads are idle. */
  lemma AllCanEnd(states: seq<State>, moves: seq<Move>, k: nat) returns (turns: seq<Turn>, s': State)
    requires Execution(states, moves) && k < |states|
    ensures Turns(states[k], turns, s') && Inv(s') && |s'.threads| == |states[k].threads|
    ensures s'.mutex.Free? && forall i :: 0 <= i < |s'.threads| ==> s'.threads[i].phase.Idle?
  {
    EveryExecution(states, moves, k);
    var s := states[k];
    hide *;
    turns, s' := AllLetGo(s);
    UnheldSays(s');
    for j := 0 to |s.threads|
      invariant Turns(s, turns, s') && Unheld(s') && |s'.threads| == |s.threads|
      invariant forall i :: 0 <= i < j ==> s'.threads[i].phase.Idle?
    {
      UnheldSays(s');
      if !s'.threads[j].phase.Idle? {
        var s1 := s';
        turns, s' := OneEnds(s, turns, s1, j);
        StillUnheld(s1, j, s');
      }
    }
    UnheldSays(s');
  }

  lemma UnheldSays(s: State)
    requires Unheld(s)
    ensures Inv(s) && s.mutex.Free? && forall i :: 0 <= i < |s.threads| ==> s.threads[i].phase.Idle? || s.threads[i].phase.Waiting?
  {
  }

  lemma StillUnheld(s: State, i: nat, s': State)
    requires Unheld(s) && LetGo(s, i, s')
    ensures Unheld(s') && |s'.threads| == |s.threads| && forall j :: 0 <= j < |s.threads| && j != i ==> s'.threads[j] == s.threads[j]
  {
    hide Inv;
  }
}
