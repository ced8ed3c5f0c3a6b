/**
  Any number of threads that allocate and free disk space at the same time, as a
  state machine.  ChangeBitMapResource is held shared while clusters are on their
  way between the books and the FAT, and exclusively by a thread that may change the
  window; the bitmap mutex protects the books.  Raised exceptions are left out.
 */
module AllocThreads {
  import opened Bits
  import opened FatEntries
  import opened Windows
  import opened Books

  datatype Mode = NotHeld | Shared | Exclusive

  /** Where a thread is.  A phase in the middle of an update of the books keeps what they were before it. */
  datatype Phase =
    | Idle
    | Waiting(wants: Mode)
    | Holding                                          // has the resource
    | Locked                                           // has the resource and the mutex
    | BitsSet(before: Books, index: nat, count: nat)  // bits are set, the window count is not reduced yet
    | Taken                                            // the books are done
    | Writing                                          // FAT entries are being linked
    | Clearing                                         // FAT entries are being freed
    | Returning                                        // runs are given back to the books
    | BitsCleared(before: Books, index: nat, count: nat) // bits are cleared
    | Credited(before: Books, index: nat, count: nat)   // and the window counts are raised

  /** want: clusters asked for and not charged yet; unspent: charged and not taken yet; own: clusters in flight between the books and the FAT. */
  datatype Thread = Thread(phase: Phase, mode: Mode, want: nat, unspent: nat, own: set<nat>)

  datatype Mutex = Free | HeldBy(thread: nat)

  datatype State = State(bits: IndexBits, n: nat, books: Books, fat: seq<bool>, mutex: Mutex, threads: seq<Thread>)

  datatype Step =
    | BeginAllocate(count: nat)
    | BeginFree(clusters: set<nat>)
    | Acquire
    | Lock
    | Charge
    | Refuse
    | Switch(window: nat)
    | Reserve(index: nat, count: nat)
    | Count
    | Unlock
    | WriteEntry(cluster: nat)
    | Written
    | Release
    | ClearEntry(cluster: nat)
    | Unreserve(cluster: nat, count: nat)
    | Credit
    | AddFree

  predicate HasMutex(p: Phase) {
    p.Locked? || p.BitsSet? || p.Taken? || p.Returning? || p.BitsCleared? || p.Credited?
  }

  /** The clusters of a run. */
  ghost function RunSet(cluster: nat, count: nat): set<nat> {
    set c: nat | c < cluster + count && InRun(c, cluster, count)
  }

  predicate InRun(c: nat, cluster: nat, count: nat) {
    cluster <= c < cluster + count
  }

  /** The FAT says that a cluster is in use. */
  ghost predicate InFat(s: State, c: nat) {
    c < |s.fat| && s.fat[c]
  }

  /** The bitmap of a window as a scan of the FAT builds it. */
  ghost function Rescanned(s: State, window: nat): seq<bool>
    requires window < |s.books.windows|
  {
    var w := s.books.windows[window];
    seq(if w.lastCluster + 1 >= w.firstCluster then w.lastCluster + 1 - w.firstCluster else 0, (i: nat) => InFat(s, w.firstCluster + i))
  }

  /** When thread i can take a step. */
  ghost predicate Enabled(s: State, i: nat, step: Step) {
    && i < |s.threads|
    && var t := s.threads[i];
      match step
      case BeginAllocate(count) => t.phase.Idle? && count > 0
      case BeginFree(clusters) => // the file's own lock keeps other threads off its clusters
        && t.phase.Idle? && clusters != {}
        && (forall c :: c in clusters ==> 2 <= c <= s.n + 1 && InFat(s, c))
        && forall j :: 0 <= j < |s.threads| ==> s.threads[j].own !! clusters
      case Acquire =>
        && t.phase.Waiting?
        && forall j :: 0 <= j < |s.threads| ==> s.threads[j].mode.NotHeld? || (t.phase.wants.Shared? && s.threads[j].mode.Shared?)
      case Lock => s.mutex.Free? && (t.phase.Holding? || (t.phase.Clearing? && forall c :: c in t.own ==> !InFat(s, c)))
      case Charge => t.phase.Locked? && 0 < t.want <= s.books.free
      case Refuse => t.phase.Locked? && t.want > s.books.free
      case Switch(window) => t.phase.Locked? && t.mode.Exclusive? && t.want == 0 && window < |s.books.windows| && |s.books.windows| > 1
      case Reserve(index, count) =>
        && t.phase.Locked? && t.want == 0 && 0 < count <= t.unspent && ClearRun(s.books.bitmap, index, count)
        && (t.mode.Shared? ==> count == t.unspent)
      case Count => t.phase.BitsSet?
      case Unlock => t.phase.Taken? || (t.phase.Locked? && t.want == 0) || (t.phase.Returning? && t.own == {})
      case WriteEntry(cluster) => t.phase.Writing? && cluster in t.own
      case Written => t.phase.Writing? && forall c :: c in t.own ==> InFat(s, c)
      case Release => t.phase.Holding? && t.want == 0
      case ClearEntry(cluster) => t.phase.Clearing? && cluster in t.own
      case Unreserve(cluster, count) => t.phase.Returning? && count > 0 && RunSet(cluster, count) <= t.own
      case Credit => t.phase.BitsCleared?
      case AddFree => t.phase.Credited?
  }

  /** The state after thread i is t. */
  function WithThread(s: State, i: nat, t: Thread): State
    requires i < |s.threads|
  {
    s.(threads := s.threads[i := t])
  }

  /** Nothing underflows, runs are inside the window, and bits that are cleared were set: what the driver only asserts. */
  ghost predicate Safe(s: State, i: nat, step: Step)
    requires Enabled(s, i, step)
  {
    var t, b := s.threads[i], s.books;
    match step
    case Count =>
      && b.current < |b.windows| && t.phase.count <= b.windows[b.current].clustersFree
      && t.phase.count <= b.precharged && t.phase.count <= t.unspent
    case Unreserve(cluster, count) =>
      && b.current < |b.windows|
      && forall k: nat {:trigger b.bitmap[k]} :: k < |b.bitmap| && cluster <= b.windows[b.current].firstCluster + k < cluster + count ==> b.bitmap[k]
    case Unlock => b.current < |b.windows| && b.windows[b.current].clustersFree == ClearIn(b.bitmap, 0, |b.bitmap|)
    case Lock => b.current < |b.windows| && b.windows[b.current].clustersFree == ClearIn(b.bitmap, 0, |b.bitmap|)
    case WriteEntry(cluster) => cluster < |s.fat|
    case ClearEntry(cluster) => cluster < |s.fat|
    case _ => true
  }

  /** The effect of a step of thread i. */
  ghost function Apply(s: State, i: nat, step: Step): State
    requires Enabled(s, i, step) && Safe(s, i, step)
  {
    var t, b := s.threads[i], s.books;
    match step
    case BeginAllocate(count) => WithThread(s, i, t.(phase := Waiting(Shared), want := count))
    case BeginFree(clusters) => WithThread(s, i, t.(phase := Waiting(Shared), own := clusters))
    case Acquire => WithThread(s, i, t.(phase := if t.own == {} then Holding else Clearing, mode := t.phase.wants))
    case Lock => WithThread(s, i, t.(phase := if t.phase.Holding? then Locked else Returning)).(mutex := HeldBy(i))
    case Charge =>
      WithThread(s, i, t.(want := 0, unspent := t.unspent + t.want)).(books := b.(free := b.free - t.want, precharged := b.precharged + t.want))
    case Refuse => WithThread(s, i, t.(want := 0))
    case Switch(window) => s.(books := b.(current := window, bitmap := Rescanned(s, window)))
    case Reserve(index, count) =>
      WithThread(s, i, t.(phase := BitsSet(b, index, count))).(books := b.(bitmap := WithSet(b.bitmap, index, count)))
    case Count => // from here on the books have the run as taken, and the thread owns it
      var w, count := b.windows[b.current], t.phase.count;
      var cluster := w.firstCluster + t.phase.index;
      WithThread(s, i, t.(phase := Taken, unspent := t.unspent - count, own := RunSet(cluster, count)))
        .(books := b.(windows := b.windows[b.current := w.(clustersFree := w.clustersFree - count)],
                      used := WithSet(b.used, cluster, count), precharged := b.precharged - count))
    case Unlock => WithThread(s, i, t.(phase := if t.phase.Taken? then Writing else Holding)).(mutex := Free)
    case WriteEntry(cluster) => s.(fat := s.fat[cluster := true])
    case Written => WithThread(s, i, t.(phase := Holding, own := {}))
    case Release => WithThread(s, i, t.(phase := if t.unspent == 0 then Idle else Waiting(Exclusive), mode := NotHeld))
    case ClearEntry(cluster) => s.(fat := s.fat[cluster := false])
    case Unreserve(cluster, count) => // of the bits, only those of the current window
      WithThread(s, i, t.(phase := BitsCleared(b, cluster, count)))
        .(books := b.(bitmap := WithClear(b.bitmap, cluster - b.windows[b.current].firstCluster, count)))
    case Credit =>
      var p := t.phase;
      WithThread(s, i, t.(phase := Credited(p.before, p.index, p.count))).(books := b.(windows := Regained(b.windows, p.index, p.count)))
    case AddFree =>
      var p := t.phase;
      WithThread(s, i, t.(phase := Returning, own := t.own - RunSet(p.index, p.count)))
        .(books := b.(free := b.free + p.count, used := WithClear(b.used, p.index, p.count)))
  }

  /** The locks: a thread that holds the resource exclusively is alone with it, and whoever has the mutex also has the resource. */
  ghost predicate LocksOk(s: State) {
    && (forall i, j {:trigger s.threads[i], s.threads[j]} :: 0 <= i < |s.threads| && 0 <= j < |s.threads| && i != j ==>
      !(s.threads[i].mode.Exclusive? && !s.threads[j].mode.NotHeld?))
    && (forall i :: 0 <= i < |s.threads| ==>
      && (HasMutex(s.threads[i].phase) <==> s.mutex == HeldBy(i))
      && (s.threads[i].phase.Idle? || s.threads[i].phase.Waiting? <==> s.threads[i].mode.NotHeld?))
    && (s.mutex.HeldBy? ==> s.mutex.thread < |s.threads|)
  }

  /** What is in flight: no cluster with two threads, and what the books and the FAT say of it depends on the phase. */
  ghost predicate ThreadOk(s: State, t: Thread) {
    && (forall c :: c in t.own ==> 2 <= c <= s.n + 1 && c < |s.books.used| && s.books.used[c])
    && (t.own != {} ==> t.phase.Waiting? || t.phase.Taken? || t.phase.Writing? || t.phase.Clearing? || t.phase.Returning? || t.phase.BitsCleared? || t.phase.Credited?)
    && (t.phase.Idle? ==> t.want == 0 && t.unspent == 0)
    && (t.phase.Waiting? ==> !t.phase.wants.NotHeld? && forall c :: c in t.own ==> InFat(s, c))
    && (t.phase.Returning? || t.phase.BitsCleared? || t.phase.Credited? ==> forall c :: c in t.own ==> !InFat(s, c))
    && (t.own != {} || t.unspent > 0 || t.phase.BitsSet? ==> t.want == 0)
  }

  ghost predicate OwnApart(s: State) {
    forall i, j {:trigger s.threads[i], s.threads[j]} :: 0 <= i < j < |s.threads| ==> s.threads[i].own !! s.threads[j].own
  }

  /** Where the books and the FAT disagree about a cluster, it is in flight with a thread that holds the resource. */
  ghost predicate InFlight(s: State, c: nat) {
    exists i {:trigger s.threads[i]} :: 0 <= i < |s.threads| && c in s.threads[i].own && !s.threads[i].mode.NotHeld?
  }

  ghost predicate Agreement(s: State) {
    && |s.fat| == |s.books.used| == s.n + 2
    && forall c {:trigger s.fat[c]} {:trigger s.books.used[c]} :: 0 <= c < |s.fat| && s.fat[c] != s.books.used[c] ==> InFlight(s, c)
  }

  /** The books in the middle of an update are those from before it with part of the update done. */
  ghost predicate Midway(s: State, t: Thread) {
    match t.phase
    case BitsSet(before, index, count) =>
      && InOrder(s.bits, s.n, before) && 0 < count <= t.unspent && count <= before.precharged && ClearRun(before.bitmap, index, count)
      && s.books == before.(bitmap := WithSet(before.bitmap, index, count))
    case BitsCleared(before, cluster, count) =>
      && InOrder(s.bits, s.n, before) && count > 0 && RunSet(cluster, count) <= t.own
      && s.books == before.(bitmap := GiveBack(before, cluster, count).bitmap)
    case Credited(before, cluster, count) =>
      && InOrder(s.bits, s.n, before) && count > 0 && RunSet(cluster, count) <= t.own
      && s.books == before.(bitmap := GiveBack(before, cluster, count).bitmap, windows := Regained(before.windows, cluster, count))
    case _ => InOrder(s.bits, s.n, s.books)
  }

  ghost predicate BooksOk(s: State) {
    if s.mutex.HeldBy? && s.mutex.thread < |s.threads| then Midway(s, s.threads[s.mutex.thread]) else InOrder(s.bits, s.n, s.books)
  }

  /** The clusters that all threads together have charged and not taken yet. */
  ghost function Unspent(ts: seq<Thread>): nat {
    if ts == [] then 0 else Unspent(ts[..|ts| - 1]) + ts[|ts| - 1].unspent
  }

  ghost predicate Inv(s: State) {
    && LocksOk(s) && OwnApart(s) && Agreement(s) && BooksOk(s)
    && (forall i :: 0 <= i < |s.threads| ==> ThreadOk(s, s.threads[i]))
    && s.books.precharged == Unspent(s.threads)
  }

  lemma {:induction false} UnspentUpdate(ts: seq<Thread>, i: nat, t: Thread)
    requires i < |ts|
    ensures Unspent(ts[i := t]) + ts[i].unspent == Unspent(ts) + t.unspent
  {
    var last := |ts| - 1;
    if i < last {
      UnspentUpdate(ts[..last], i, t);
      assert ts[i := t][..last] == ts[..last][i := t];
    } else {
      assert ts[i := t][..last] == ts[..last];
    }
  }

  /** No thread has more than what is charged in all. */
  lemma {:induction false} UnspentCovers(ts: seq<Thread>, i: nat)
    requires i < |ts|
    ensures ts[i].unspent <= Unspent(ts)
  {
    if i < |ts| - 1 {
      UnspentCovers(ts[..|ts| - 1], i);
    }
  }

  /** Only thread i is different, and the mutex at most changes hands with it. */
  ghost predicate OnlyThread(s: State, s': State, i: nat) {
    && i < |s.threads| == |s'.threads| && s'.threads == s.threads[i := s'.threads[i]] && s'.bits == s.bits && s'.n == s.n
    && (s'.mutex == s.mutex || (s.mutex.Free? && s'.mutex == HeldBy(i)) || (s.mutex == HeldBy(i) && s'.mutex.Free?))
  }

  /** Thread i may have its mode among the others'. */
  ghost predicate MayHold(s: State, i: nat, mode: Mode) {
    forall j {:trigger s.threads[j]} :: 0 <= j < |s.threads| && j != i ==>
      !(mode.Exclusive? && !s.threads[j].mode.NotHeld?) && !(s.threads[j].mode.Exclusive? && !mode.NotHeld?)
  }

  lemma LocksKept(s: State, s': State, i: nat)
    requires LocksOk(s) && OnlyThread(s, s', i) && MayHold(s, i, s'.threads[i].mode)
    requires HasMutex(s'.threads[i].phase) <==> s'.mutex == HeldBy(i)
    requires s'.threads[i].phase.Idle? || s'.threads[i].phase.Waiting? <==> s'.threads[i].mode.NotHeld?
    ensures LocksOk(s')
  {
    forall k | 0 <= k < |s'.threads|
      ensures HasMutex(s'.threads[k].phase) <==> s'.mutex == HeldBy(k)
      ensures s'.threads[k].phase.Idle? || s'.threads[k].phase.Waiting? <==> s'.threads[k].mode.NotHeld?
    {
      assert k != i ==> s'.threads[k] == s.threads[k];
    }
  }

  /** A thread that has the resource may go on with it. */
  lemma KeepsHold(s: State, i: nat, mode: Mode)
    requires LocksOk(s) && i < |s.threads| && (mode == s.threads[i].mode || mode.NotHeld?)
    ensures MayHold(s, i, mode)
  {
    assert s.threads[i] == s.threads[i];
  }

  lemma ApartKept(s: State, s': State, i: nat)
    requires OwnApart(s) && OnlyThread(s, s', i)
    requires forall j {:trigger s.threads[j]} :: 0 <= j < |s.threads| && j != i ==> s.threads[j].own !! s'.threads[i].own
    ensures OwnApart(s')
  {
  }

  lemma SmallerOwnApart(s: State, i: nat, own: set<nat>)
    requires OwnApart(s) && i < |s.threads| && own <= s.threads[i].own
    ensures forall j {:trigger s.threads[j]} :: 0 <= j < |s.threads| && j != i ==> s.threads[j].own !! own
  {
    assert s.threads[i] == s.threads[i];
  }

  /** Disagreements stay with their threads, when thread i lets go only of clusters about which the books and the FAT agree. */
  lemma AgreementKept(s: State, s': State, i: nat)
    requires Agreement(s) && OnlyThread(s, s', i) && |s'.fat| == |s'.books.used| == |s.fat|
    requires forall c {:trigger s'.fat[c]} :: 0 <= c < |s'.fat| && s'.fat[c] != s'.books.used[c] ==>
      || (c in s'.threads[i].own && !s'.threads[i].mode.NotHeld?)
      || (s.fat[c] != s.books.used[c] && c !in s.threads[i].own)
    ensures Agreement(s')
  {
    forall c | 0 <= c < |s'.fat| && s'.fat[c] != s'.books.used[c] ensures InFlight(s', c) {
      if c in s'.threads[i].own && !s'.threads[i].mode.NotHeld? {
      } else {
        assert InFlight(s, c);
        var k :| 0 <= k < |s.threads| && c in s.threads[k].own && !s.threads[k].mode.NotHeld?;
        assert s'.threads[k] == s.threads[k];
      }
    }
  }

  /** The other threads are as they were, when nothing changes about the clusters they own. */
  lemma OthersKept(s: State, s': State, i: nat)
    requires OnlyThread(s, s', i) && forall k :: 0 <= k < |s.threads| ==> ThreadOk(s, s.threads[k])
    requires ThreadOk(s', s'.threads[i]) && |s'.books.used| == |s.books.used|
    requires forall k, c {:trigger c in s.threads[k].own} :: 0 <= k < |s.threads| && k != i && c in s.threads[k].own ==>
      InFat(s', c) == InFat(s, c) && c < |s.books.used| && s'.books.used[c] == s.books.used[c]
    ensures forall k :: 0 <= k < |s'.threads| ==> ThreadOk(s', s'.threads[k])
  {
    forall k | 0 <= k < |s'.threads| ensures ThreadOk(s', s'.threads[k]) {
      if k != i {
        assert s'.threads[k] == s.threads[k];
        assert ThreadOk(s, s.threads[k]);
      }
    }
  }

  predicate MidUpdate(p: Phase) {
    p.BitsSet? || p.BitsCleared? || p.Credited?
  }

  /** A thread that is not in the middle of an update finds the books in order if it has the mutex, or if nobody has. */
  lemma BooksKept(s: State, s': State, i: nat)
    requires LocksOk(s) && BooksOk(s) && OnlyThread(s, s', i) && s'.books == s.books
    requires !MidUpdate(s.threads[i].phase) && !MidUpdate(s'.threads[i].phase)
    ensures BooksOk(s') && (s.mutex != s'.mutex || s.mutex == HeldBy(i) ==> InOrder(s.bits, s.n, s.books))
  {
    if s'.mutex.HeldBy? && s'.mutex.thread != i {
      assert s'.threads[s'.mutex.thread] == s.threads[s.mutex.thread];
    }
  }

  /** Everything is kept by a step that changes only where a thread is. */
  lemma MoveKeeps(s: State, s': State, i: nat)
    requires Inv(s) && OnlyThread(s, s', i) && s'.books == s.books && s'.fat == s.fat
    requires !MidUpdate(s.threads[i].phase) && !MidUpdate(s'.threads[i].phase)
    requires s'.threads[i].unspent == s.threads[i].unspent && MayHold(s, i, s'.threads[i].mode)
    requires HasMutex(s'.threads[i].phase) <==> s'.mutex == HeldBy(i)
    requires s'.threads[i].phase.Idle? || s'.threads[i].phase.Waiting? <==> s'.threads[i].mode.NotHeld?
    requires ThreadOk(s, s'.threads[i])
    requires forall j {:trigger s.threads[j]} :: 0 <= j < |s.threads| && j != i ==> s.threads[j].own !! s'.threads[i].own
    requires forall c :: c in s.threads[i].own && !(c in s'.threads[i].own && !s'.threads[i].mode.NotHeld?) ==> c < |s.fat| && s.fat[c] == s.books.used[c]
    ensures Inv(s')
  {
    UnspentUpdate(s.threads, i, s'.threads[i]);
    LocksKept(s, s', i);
    ApartKept(s, s', i);
    BooksKept(s, s', i);
    OthersKept(s, s', i);
    AgreementKept(s, s', i);
  }

  lemma AcquireStep(s: State, i: nat)
    requires Inv(s) && Enabled(s, i, Acquire)
    ensures Inv(Apply(s, i, Acquire))
  {
    var s' := Apply(s, i, Acquire);
    assert ThreadOk(s, s.threads[i]);
    SmallerOwnApart(s, i, s.threads[i].own);
    MoveKeeps(s, s', i);
  }

  lemma BeginStep(s: State, i: nat, step: Step)
    requires Inv(s) && Enabled(s, i, step) && (step.BeginAllocate? || step.BeginFree?)
    ensures Inv(Apply(s, i, step))
  {
    var s' := Apply(s, i, step);
    assert ThreadOk(s, s.threads[i]);
    assert s.threads[i].own == {};
    KeepsHold(s, i, s'.threads[i].mode);
    MoveKeeps(s, s', i);
  }

  lemma RefuseStep(s: State, i: nat)
    requires Inv(s) && Enabled(s, i, Refuse)
    ensures Inv(Apply(s, i, Refuse))
  {
    var s' := Apply(s, i, Refuse);
    assert ThreadOk(s, s.threads[i]);
    SmallerOwnApart(s, i, s.threads[i].own);
    KeepsHold(s, i, s'.threads[i].mode);
    MoveKeeps(s, s', i);
  }

  lemma ReleaseStep(s: State, i: nat)
    requires Inv(s) && Enabled(s, i, Release)
    ensures Inv(Apply(s, i, Release))
  {
    var s' := Apply(s, i, Release);
    assert ThreadOk(s, s.threads[i]);
    SmallerOwnApart(s, i, s.threads[i].own);
    KeepsHold(s, i, s'.threads[i].mode);
    MoveKeeps(s, s', i);
  }

  lemma WrittenStep(s: State, i: nat)
    requires Inv(s) && Enabled(s, i, Written)
    ensures Inv(Apply(s, i, Written))
  {
    var s' := Apply(s, i, Written);
    assert ThreadOk(s, s.threads[i]);
    KeepsHold(s, i, s'.threads[i].mode);
    MoveKeeps(s, s', i);
  }

  /** Whoever takes the mutex, or gives it back, finds the current window's count equal to its clear bits. */
  lemma LockStep(s: State, i: nat, step: Step)
    requires Inv(s) && Enabled(s, i, step) && (step.Lock? || step.Unlock?)
    ensures Safe(s, i, step) && Inv(Apply(s, i, step))
  {
    LockSafe(s, i, step);
    hide InOrder;
    hide ClearIn;
    assert ThreadOk(s, s.threads[i]);
    var s' := Apply(s, i, step);
    SmallerOwnApart(s, i, s.threads[i].own);
    KeepsHold(s, i, s'.threads[i].mode);
    MoveKeeps(s, s', i);
  }

  lemma LockSafe(s: State, i: nat, step: Step)
    requires Inv(s) && Enabled(s, i, step) && (step.Lock? || step.Unlock?)
    ensures Safe(s, i, step)
  {
    assert InOrder(s.bits, s.n, s.books);
    CurrentWindowGood(s.bits, s.n, s.books);
    hide InOrder;
    hide ClearIn;
  }

  /** Nothing but the books is different, for a thread that has the mutex, and what they have for in use is the same. */
  lemma HolderKeeps(s: State, s': State, i: nat)
    requires LocksOk(s) && OwnApart(s) && Agreement(s) && (forall k :: 0 <= k < |s.threads| ==> ThreadOk(s, s.threads[k]))
    requires OnlyThread(s, s', i) && s'.fat == s.fat && s'.books.used == s.books.used && s'.mutex == s.mutex == HeldBy(i)
    requires HasMutex(s'.threads[i].phase) && s'.threads[i].mode == s.threads[i].mode && s'.threads[i].own == s.threads[i].own
    requires ThreadOk(s, s'.threads[i])
    ensures LocksOk(s') && OwnApart(s') && Agreement(s') && forall k :: 0 <= k < |s'.threads| ==> ThreadOk(s', s'.threads[k])
  {
    SmallerOwnApart(s, i, s.threads[i].own);
    KeepsHold(s, i, s'.threads[i].mode);
    LocksKept(s, s', i);
    ApartKept(s, s', i);
    OthersKept(s, s', i);
    AgreementKept(s, s', i);
  }

  lemma ChargeStep(s: State, i: nat)
    requires Inv(s) && Enabled(s, i, Charge)
    ensures Inv(Apply(s, i, Charge))
  {
    var s' := Apply(s, i, Charge);
    assert ThreadOk(s, s.threads[i]) && s.mutex == HeldBy(i);
    ChargeKeepsOrder(s.bits, s.n, s.books, s.threads[i].want);
    UnspentUpdate(s.threads, i, s'.threads[i]);
    hide InOrder;
    HolderKeeps(s, s', i);
  }

  /** An entry of a cluster in flight is written: linked, so that the FAT agrees with the books, or freed. */
  lemma EntryStep(s: State, i: nat, step: Step)
    requires Inv(s) && Enabled(s, i, step) && (step.WriteEntry? || step.ClearEntry?)
    ensures Safe(s, i, step) && Inv(Apply(s, i, step))
  {
    assert ThreadOk(s, s.threads[i]);
    var s' := Apply(s, i, step);
    assert s'.threads[i] == s.threads[i];
    SmallerOwnApart(s, i, s.threads[i].own);
    KeepsHold(s, i, s'.threads[i].mode);
    LocksKept(s, s', i);
    BooksKept(s, s', i);
    OthersKept(s, s', i);
    AgreementKept(s, s', i);
  }

  /** While a thread without clusters has the resource exclusively, no cluster is in flight. */
  lemma NothingInFlight(s: State, i: nat, c: nat)
    requires Inv(s) && i < |s.threads| && s.threads[i].mode.Exclusive? && s.threads[i].own == {}
    ensures !InFlight(s, c)
  {
    forall k | 0 <= k < |s.threads| ensures !(c in s.threads[k].own && !s.threads[k].mode.NotHeld?) {
    }
  }

  /** A thread that holds the resource exclusively and has nothing in flight sees the books and the FAT agree about every cluster. */
  lemma ExclusiveSeesAgreement(s: State, i: nat)
    requires Inv(s) && i < |s.threads| && s.threads[i].mode.Exclusive? && s.threads[i].own == {}
    ensures s.fat == s.books.used
  {
    forall c | 0 <= c < |s.fat| ensures s.fat[c] == s.books.used[c] {
      NothingInFlight(s, i, c);
    }
  }

  /** So the bitmap it builds from the FAT shows the new window, and the counts stay right. */
  lemma SwitchStep(s: State, i: nat, window: nat)
    requires Inv(s) && Enabled(s, i, Switch(window))
    ensures Inv(Apply(s, i, Switch(window)))
  {
    var s' := Apply(s, i, Switch(window));
    assert ThreadOk(s, s.threads[i]);
    assert s.mutex == HeldBy(i);
    assert InOrder(s.bits, s.n, s.books);
    assert s'.threads == s.threads;
    ExclusiveSeesAgreement(s, i);
    RescannedShows(s, window);
    OthersKept(s, s', i);
    AgreementKept(s, s', i);
  }

  lemma RescannedShows(s: State, window: nat)
    requires InOrder(s.bits, s.n, s.books) && window < |s.books.windows| && s.fat == s.books.used
    ensures Shows(s.books.(current := window, bitmap := Rescanned(s, window)))
  {
    PartitionApart(s.bits, s.n, s.books.windows, window);
    WindowPlaces(s.bits, s.n, window);
    var w := s.books.windows[window];
    var bitmap := Rescanned(s, window);
    forall k | 0 <= k < |bitmap| ensures bitmap[k] == s.books.used[w.firstCluster + k] {
    }
  }

  lemma ReserveStep(s: State, i: nat, index: nat, count: nat)
    requires Inv(s) && Enabled(s, i, Reserve(index, count))
    ensures Inv(Apply(s, i, Reserve(index, count)))
  {
    var s' := Apply(s, i, Reserve(index, count));
    assert ThreadOk(s, s.threads[i]);
    assert s.mutex == HeldBy(i);
    UnspentUpdate(s.threads, i, s'.threads[i]);
    UnspentCovers(s.threads, i);
    HolderKeeps(s, s', i);
  }

  /** The clusters of a reserved run were free in the books, so no other thread has them. */
  lemma RunIsApart(s: State, i: nat, cluster: nat, count: nat)
    requires Inv(s) && i < |s.threads| && cluster + count <= |s.books.used|
    requires forall c :: cluster <= c < cluster + count ==> !s.books.used[c]
    ensures forall j {:trigger s.threads[j]} :: 0 <= j < |s.threads| && j != i ==> s.threads[j].own !! RunSet(cluster, count)
    ensures forall j, c {:trigger c in s.threads[j].own} :: 0 <= j < |s.threads| && c in s.threads[j].own ==> !InRun(c, cluster, count)
  {
    forall j, c | 0 <= j < |s.threads| && c in s.threads[j].own ensures !InRun(c, cluster, count) {
      assert ThreadOk(s, s.threads[j]);
    }
  }

  /** Whoever has the mutex is in the middle of the update that its phase says. */
  lemma HolderIs(s: State, i: nat)
    requires Inv(s) && i < |s.threads| && HasMutex(s.threads[i].phase)
    ensures s.mutex == HeldBy(i) && Midway(s, s.threads[i]) && ThreadOk(s, s.threads[i]) && !s.threads[i].mode.NotHeld?
    ensures s.threads[i].phase.BitsSet? ==> s.threads[i].own == {} && s.threads[i].want == 0
  {
    assert ThreadOk(s, s.threads[i]);
  }

  /** The count of the window, the charge, and the thread's rest all cover the run, and the books are in order again. */
  lemma CountStep(s: State, i: nat)
    requires Inv(s) && Enabled(s, i, Count)
    ensures Safe(s, i, Count) && Inv(Apply(s, i, Count))
  {
    hide *;
    CountReady(s, i);
    var before, index, count := s.threads[i].phase.before, s.threads[i].phase.index, s.threads[i].phase.count;
    TakeKeepsOrder(s.bits, s.n, before, index, count);
    RunInHeapOf(s.bits, s.n, before, index, count);
    Counted(s, i);
    CountedKeeps(s, Apply(s, i, Count), i, before.windows[before.current].firstCluster + index, count);
  }

  /** What counting a run starts from. */
  lemma CountReady(s: State, i: nat)
    requires Inv(s) && Enabled(s, i, Count)
    ensures i < |s.threads| && Midway(s, s.threads[i]) && Safe(s, i, Count)
    ensures var t := s.threads[i];
      && t.phase.BitsSet? && 0 < t.phase.count <= t.phase.before.precharged
      && InOrder(s.bits, s.n, t.phase.before) && ClearRun(t.phase.before.bitmap, t.phase.index, t.phase.count)
      && s.books.precharged == t.phase.before.precharged && t.phase.count <= t.unspent
  {
    HolderIs(s, i);
    hide Inv;
    hide ThreadOk;
    hide ClearRun;
    TakeKeepsOrder(s.bits, s.n, s.threads[i].phase.before, s.threads[i].phase.index, s.threads[i].phase.count);
    CurrentIs(s.bits, s.n, s.threads[i].phase.before);
    hide InOrder;
  }

  lemma CurrentIs(bits: IndexBits, n: nat, b: Books)
    requires InOrder(bits, n, b)
    ensures b.current < |b.windows|
  {
  }

  lemma RunInHeapOf(bits: IndexBits, n: nat, b: Books, index: nat, count: nat)
    requires InOrder(bits, n, b) && 0 < count && ClearRun(b.bitmap, index, count)
    ensures b.current < |b.windows| && 2 <= b.windows[b.current].firstCluster
    ensures b.windows[b.current].firstCluster + index + count <= n + 2
  {
    WindowPlaces(bits, n, b.current);
  }

  /** What counting a run does. */
  lemma Counted(s: State, i: nat)
    requires Enabled(s, i, Count) && Midway(s, s.threads[i]) && Safe(s, i, Count)
    ensures var t, s' := s.threads[i], Apply(s, i, Count);
      && t.phase.before.current < |t.phase.before.windows|
      && t.phase.count <= t.phase.before.precharged && t.phase.count <= t.phase.before.windows[t.phase.before.current].clustersFree
      && s'.books == TakeFrom(t.phase.before, t.phase.index, t.phase.count) && s'.books.precharged == s.books.precharged - t.phase.count
      && s.books.used == t.phase.before.used
      && s'.books.used == WithSet(s.books.used, t.phase.before.windows[t.phase.before.current].firstCluster + t.phase.index, t.phase.count)
      && |s'.threads| == |s.threads| && s'.threads == s.threads[i := s'.threads[i]] && s'.bits == s.bits && s'.n == s.n && s'.fat == s.fat && s'.mutex == s.mutex
      && s'.threads[i] == t.(phase := Taken, unspent := t.unspent - t.phase.count,
          own := RunSet(t.phase.before.windows[t.phase.before.current].firstCluster + t.phase.index, t.phase.count))
  {
    hide InOrder;
    hide RunSet;
    hide WithSet;
    hide ClearRun;
  }

  lemma CountedKeeps(s: State, s': State, i: nat, cluster: nat, count: nat)
    requires Inv(s) && i < |s.threads| && s.threads[i].phase.BitsSet? && s'.mutex == s.mutex
    requires |s'.threads| == |s.threads| && s'.threads == s.threads[i := s'.threads[i]] && s'.bits == s.bits && s'.n == s.n && s'.fat == s.fat
    requires 2 <= cluster && cluster + count <= s.n + 2 && ClearRun(s.books.used, cluster, count)
    requires s'.threads[i].own == RunSet(cluster, count) && s'.threads[i].phase.Taken? && s'.threads[i].mode == s.threads[i].mode && s'.threads[i].want == s.threads[i].want
    requires s'.books.used == WithSet(s.books.used, cluster, count) && InOrder(s.bits, s.n, s'.books)
    requires s'.books.precharged + s.threads[i].unspent == s.books.precharged + s'.threads[i].unspent
    ensures Inv(s')
  {
    HolderIs(s, i);
    RunIsApart(s, i, cluster, count);
    UnspentUpdate(s.threads, i, s'.threads[i]);
    KeepsHold(s, i, s'.threads[i].mode);
    hide InOrder;
    hide ThreadOk;
    hide Midway;
    LocksKept(s, s', i);
    ApartKept(s, s', i);
    CountedThread(s, s', i, cluster, count);
    hide LocksOk;
    hide OwnApart;
    hide Agreement;
    MidwayKeeps(s', i);
  }

  lemma MidwayKeeps(s: State, i: nat)
    requires LocksOk(s) && OwnApart(s) && Agreement(s) && (forall k :: 0 <= k < |s.threads| ==> ThreadOk(s, s.threads[k]))
    requires i < |s.threads| && s.mutex == HeldBy(i) && (Midway(s, s.threads[i]) || (!MidUpdate(s.threads[i].phase) && InOrder(s.bits, s.n, s.books)))
    requires s.books.precharged == Unspent(s.threads)
    ensures Inv(s)
  {
    hide LocksOk;
    hide OwnApart;
    hide Agreement;
    hide ThreadOk;
    hide InOrder;
  }

  /** A thread that has the mutex takes an update further that leaves alone which clusters the books have for in use. */
  lemma UpdateKeeps(s: State, s': State, i: nat)
    requires Inv(s) && i < |s.threads| && HasMutex(s.threads[i].phase) && s'.mutex == s.mutex
    requires |s'.threads| == |s.threads| && s'.threads == s.threads[i := s'.threads[i]] && s'.bits == s.bits && s'.n == s.n && s'.fat == s.fat && s'.books.used == s.books.used
    requires HasMutex(s'.threads[i].phase) && s'.threads[i].mode == s.threads[i].mode && s'.threads[i].own == s.threads[i].own
    requires ThreadOk(s, s'.threads[i]) && Midway(s', s'.threads[i])
    requires s'.books.precharged + s.threads[i].unspent == s.books.precharged + s'.threads[i].unspent
    ensures Inv(s')
  {
    HolderIs(s, i);
    UnspentUpdate(s.threads, i, s'.threads[i]);
    hide InOrder;
    hide ThreadOk;
    hide Midway;
    hide LocksOk;
    hide OwnApart;
    hide Agreement;
    HolderKeeps(s, s', i);
    MidwayKeeps(s', i);
  }

  lemma CountedThread(s: State, s': State, i: nat, cluster: nat, count: nat)
    requires OnlyThread(s, s', i) && Agreement(s) && (forall k :: 0 <= k < |s.threads| ==> ThreadOk(s, s.threads[k])) && s'.fat == s.fat
    requires s.threads[i].own == {} && 2 <= cluster && cluster + count <= s.n + 2
    requires s'.threads[i].own == RunSet(cluster, count) && s'.threads[i].phase.Taken? && !s'.threads[i].mode.NotHeld? && s'.threads[i].want == 0
    requires s'.books.used == WithSet(s.books.used, cluster, count)
    requires forall j, c {:trigger c in s.threads[j].own} :: 0 <= j < |s.threads| && c in s.threads[j].own ==> !InRun(c, cluster, count)
    ensures Agreement(s') && forall k :: 0 <= k < |s'.threads| ==> ThreadOk(s', s'.threads[k])
  {
    forall c | c in RunSet(cluster, count) ensures 2 <= c <= s.n + 1 && s'.books.used[c] {
      assert InRun(c, cluster, count);
    }
    OthersKept(s, s', i);
    forall c | 0 <= c < |s'.fat| && s'.fat[c] != s'.books.used[c]
      ensures c in s'.threads[i].own || (s.fat[c] != s.books.used[c] && c !in s.threads[i].own)
    {
      assert InRun(c, cluster, count) <==> c in RunSet(cluster, count);
    }
    AgreementKept(s, s', i);
  }

  lemma ClearedBitsWereSet(bits: IndexBits, n: nat, b: Books, cluster: nat, count: nat)
    requires InOrder(bits, n, b) && forall c :: cluster <= c < cluster + count ==> c < |b.used| && b.used[c]
    ensures b.current < |b.windows|
    ensures forall k: nat {:trigger b.bitmap[k]} :: k < |b.bitmap| && cluster <= b.windows[b.current].firstCluster + k < cluster + count ==> b.bitmap[k]
  {
    forall k: nat | k < |b.bitmap| && cluster <= b.windows[b.current].firstCluster + k < cluster + count ensures b.bitmap[k] {
      assert b.bitmap[k] == b.used[b.windows[b.current].firstCluster + k];
    }
  }

  /** Bits are cleared that were set; the other books follow. */
  lemma UnreserveStep(s: State, i: nat, cluster: nat, count: nat)
    requires Inv(s) && Enabled(s, i, Unreserve(cluster, count))
    ensures Safe(s, i, Unreserve(cluster, count)) && Inv(Apply(s, i, Unreserve(cluster, count)))
  {
    HolderIs(s, i);
    hide Inv;
    RunInUse(s, s.threads[i], cluster, count);
    ClearedBitsWereSet(s.bits, s.n, s.books, cluster, count);
    hide InOrder;
    hide ThreadOk;
    Updated(s, i, Unreserve(cluster, count));
    hide Apply;
    hide Midway;
    UpdateKeeps(s, Apply(s, i, Unreserve(cluster, count)), i);
  }

  /** What the first two steps of giving back a run do. */
  lemma Updated(s: State, i: nat, step: Step)
    requires Enabled(s, i, step) && Safe(s, i, step) && (step.Unreserve? || step.Credit?) && Midway(s, s.threads[i]) && ThreadOk(s, s.threads[i])
    ensures var s' := Apply(s, i, step);
      && s'.mutex == s.mutex && |s'.threads| == |s.threads| && s'.threads == s.threads[i := s'.threads[i]]
      && s'.bits == s.bits && s'.n == s.n && s'.fat == s.fat && s'.books.used == s.books.used && s'.books.precharged == s.books.precharged
      && HasMutex(s'.threads[i].phase) && s'.threads[i] == s.threads[i].(phase := s'.threads[i].phase)
      && ThreadOk(s, s'.threads[i]) && Midway(s', s'.threads[i])
  {
    hide InOrder;
    hide RunSet;
    hide WithClear;
    hide Regained;
  }

  lemma RunInUse(s: State, t: Thread, cluster: nat, count: nat)
    requires ThreadOk(s, t) && RunSet(cluster, count) <= t.own && count > 0
    ensures 2 <= cluster && cluster + count <= s.n + 2 && forall c :: cluster <= c < cluster + count ==> c < |s.books.used| && s.books.used[c]
  {
    forall c | cluster <= c < cluster + count ensures c in t.own {
      assert InRun(c, cluster, count) && c in RunSet(cluster, count);
    }
    assert cluster in t.own && cluster + count - 1 in t.own;
  }

  lemma CreditStep(s: State, i: nat)
    requires Inv(s) && Enabled(s, i, Credit)
    ensures Inv(Apply(s, i, Credit))
  {
    HolderIs(s, i);
    hide Inv;
    hide InOrder;
    hide ThreadOk;
    Updated(s, i, Credit);
    hide Apply;
    hide Midway;
    UpdateKeeps(s, Apply(s, i, Credit), i);
  }

  /** The run is out of flight: the books have it as free, as the FAT does, and they are in order again. */
  lemma AddFreeStep(s: State, i: nat)
    requires Inv(s) && Enabled(s, i, AddFree)
    ensures Inv(Apply(s, i, AddFree))
  {
    hide *;
    InvSays(s);
    AddFreeHolder(s, i);
    AddedFree(s, i);
    var t, s' := s.threads[i], Apply(s, i, AddFree);
    OneThread(s, s', i);
    ReturningHas(s'.threads[i].phase);
    RunInUse(s, t, t.phase.index, t.phase.count);
    GiveBackKeepsOrder(s.bits, s.n, t.phase.before, t.phase.index, t.phase.count);
    UnspentUpdate(s.threads, i, s'.threads[i]);
    SmallerOwnApart(s, i, s'.threads[i].own);
    KeepsHold(s, i, s'.threads[i].mode);
    LocksKept(s, s', i);
    ApartKept(s, s', i);
    ReturnedThread(s, s', i, t.phase.index, t.phase.count);
    MidwayKeeps(s', i);
  }

  lemma AddFreeHolder(s: State, i: nat)
    requires Inv(s) && Enabled(s, i, AddFree)
    ensures i < |s.threads| && s.mutex == HeldBy(i) && Midway(s, s.threads[i]) && !s.threads[i].mode.NotHeld?
  {
    HolderIs(s, i);
  }

  lemma InvSays(s: State)
    requires Inv(s)
    ensures LocksOk(s) && OwnApart(s) && Agreement(s) && (forall i :: 0 <= i < |s.threads| ==> ThreadOk(s, s.threads[i]))
    ensures s.books.precharged == Unspent(s.threads)
  {
    hide LocksOk;
    hide OwnApart;
    hide Agreement;
    hide ThreadOk;
    hide BooksOk;
  }

  /** What adding a run to the volume count does. */
  lemma AddedFree(s: State, i: nat)
    requires Enabled(s, i, AddFree) && Midway(s, s.threads[i])
    ensures Safe(s, i, AddFree)
    ensures var t, s' := s.threads[i], Apply(s, i, AddFree);
      && t.phase.Credited? && RunSet(t.phase.index, t.phase.count) <= t.own && t.phase.count > 0 && s'.mutex == s.mutex
      && |s'.threads| == |s.threads| && s'.threads == s.threads[i := s'.threads[i]] && s'.bits == s.bits && s'.n == s.n && s'.fat == s.fat
      && InOrder(s.bits, s.n, t.phase.before) && t.phase.before.current < |t.phase.before.windows|
      && t.phase.before.used == s.books.used
      && s'.books == GiveBack(t.phase.before, t.phase.index, t.phase.count) && s'.books.precharged == s.books.precharged
      && s'.books.used == WithClear(s.books.used, t.phase.index, t.phase.count)
      && s'.threads[i] == t.(phase := Returning, own := t.own - RunSet(t.phase.index, t.phase.count))
      && s'.threads[i].own <= t.own && s'.threads[i].phase.Returning?
  {
    assert s.threads[i].phase.Credited?;
    CurrentIs(s.bits, s.n, s.threads[i].phase.before);
    hide InOrder;
    hide RunSet;
    hide WithClear;
    hide Regained;
  }

  lemma OneThread(s: State, s': State, i: nat)
    requires i < |s.threads| == |s'.threads| && s'.threads == s.threads[i := s'.threads[i]] && s'.bits == s.bits && s'.n == s.n && s'.mutex == s.mutex
    ensures OnlyThread(s, s', i)
  {
  }

  lemma ReturningHas(p: Phase)
    requires p.Returning?
    ensures HasMutex(p) && !MidUpdate(p)
  {
  }

  lemma ReturnedThread(s: State, s': State, i: nat, cluster: nat, count: nat)
    requires OnlyThread(s, s', i) && Agreement(s) && OwnApart(s) && (forall k :: 0 <= k < |s.threads| ==> ThreadOk(s, s.threads[k])) && s'.fat == s.fat
    requires s.threads[i].phase.Credited? && RunSet(cluster, count) <= s.threads[i].own && !s'.threads[i].mode.NotHeld?
    requires s'.threads[i] == s.threads[i].(phase := Returning, own := s.threads[i].own - RunSet(cluster, count))
    requires s'.books.used == WithClear(s.books.used, cluster, count)
    ensures Agreement(s') && forall k :: 0 <= k < |s'.threads| ==> ThreadOk(s', s'.threads[k])
  {
    var t := s.threads[i];
    forall c: nat ensures InRun(c, cluster, count) <==> c in RunSet(cluster, count) {
    }
    forall k, c {:trigger c in s.threads[k].own} | 0 <= k < |s.threads| && k != i && c in s.threads[k].own ensures !InRun(c, cluster, count) {
      assert if k < i then s.threads[k].own !! t.own else t.own !! s.threads[k].own;
    }
    OthersKept(s, s', i);
    forall c | 0 <= c < |s'.fat| && s'.fat[c] != s'.books.used[c]
      ensures c in s'.threads[i].own || (s.fat[c] != s.books.used[c] && c !in t.own)
    {
      assert c in t.own ==> !InFat(s, c);
    }
    AgreementKept(s, s', i);
  }

  /** Every step that a thread can take is safe, and keeps the invariant. */
  lemma StepKeeps(s: State, i: nat, step: Step)
    requires Inv(s) && Enabled(s, i, step)
    ensures Safe(s, i, step) && Inv(Apply(s, i, step))
  {
    hide Inv;
    hide Apply;
    match step
    case BeginAllocate(count) => BeginStep(s, i, step);
    case BeginFree(clusters) => BeginStep(s, i, step);
    case Acquire => AcquireStep(s, i);
    case Lock => LockStep(s, i, step);
    case Charge => ChargeStep(s, i);
    case Refuse => RefuseStep(s, i);
    case Switch(window) => SwitchStep(s, i, window);
    case Reserve(index, count) => ReserveStep(s, i, index, count);
    case Count => CountStep(s, i);
    case Unlock => LockStep(s, i, step);
    case WriteEntry(cluster) => EntryStep(s, i, step);
    case Written => WrittenStep(s, i);
    case Release => ReleaseStep(s, i);
    case ClearEntry(cluster) => EntryStep(s, i, step);
    case Unreserve(cluster, count) => UnreserveStep(s, i, cluster, count);
    case Credit => CreditStep(s, i);
    case AddFree => AddFreeStep(s, i);
  }

  /** A volume as it is mounted, with its books in order and agreeing with the FAT, and threads that have not begun. */
  ghost predicate Mounted(s: State) {
    && InOrder(s.bits, s.n, s.books) && s.fat == s.books.used && s.books.precharged == 0 && s.mutex.Free?
    && forall i :: 0 <= i < |s.threads| ==> s.threads[i] == Thread(Idle, NotHeld, 0, 0, {})
  }

  lemma {:induction false} NothingUnspent(ts: seq<Thread>)
    requires forall i :: 0 <= i < |ts| ==> ts[i].unspent == 0
    ensures Unspent(ts) == 0
  {
    if ts != [] {
      NothingUnspent(ts[..|ts| - 1]);
    }
  }

  datatype Move = Move(thread: nat, step: Step)

  /** A run of the machine: every state follows from the one before it by a step that is enabled; whether the step is safe is not asked. */
  ghost predicate Execution(states: seq<State>, moves: seq<Move>) {
    && |states| == |moves| + 1 && Mounted(states[0])
    && forall k {:trigger moves[k]} :: 0 <= k < |moves| ==> Follows(states[k], moves[k], states[k + 1])
  }

  ghost predicate Follows(s: State, m: Move, s': State) {
    Enabled(s, m.thread, m.step) && (Safe(s, m.thread, m.step) ==> s' == Apply(s, m.thread, m.step))
  }

  /** In every interleaving, every step is safe and the invariant holds in every state. */
  lemma {:induction false} EveryExecution(states: seq<State>, moves: seq<Move>, k: nat)
    requires Execution(states, moves) && k < |states|
    ensures Inv(states[k])
    ensures k < |moves| ==> Safe(states[k], moves[k].thread, moves[k].step)
  {
    if k == 0 {
      NothingUnspent(states[0].threads);
    } else {
      EveryExecution(states, moves, k - 1);
      assert Follows(states[k - 1], moves[k - 1], states[k]);
      StepKeeps(states[k - 1], moves[k - 1].thread, moves[k - 1].step);
    }
    if k < |moves| {
      assert Follows(states[k], moves[k], states[k + 1]);
      StepKeeps(states[k], moves[k].thread, moves[k].step);
    }
  }

  /**
    What holds in every state of every interleaving: a cluster about which the bitmap's
    books and the FAT disagree belongs to one thread, which holds the resource; and while
    nobody has the mutex, the current window's count is the number of clear bits, and the
    window counts add up to the volume's free count and everything charged and unspent.
   */
  lemma AlwaysTrue(states: seq<State>, moves: seq<Move>, k: nat)
    requires Execution(states, moves) && k < |states|
    ensures var s := states[k];
      && |s.fat| == |s.books.used|
      && (forall c {:trigger s.fat[c]} :: 0 <= c < |s.fat| && s.fat[c] != s.books.used[c] ==> InFlight(s, c))
      && (forall i, j {:trigger s.threads[i], s.threads[j]} :: 0 <= i < j < |s.threads| ==> s.threads[i].own !! s.threads[j].own)
      && (s.mutex.Free? ==>
        && s.books.current < |s.books.windows|
        && s.books.windows[s.books.current].clustersFree == ClearIn(s.books.bitmap, 0, |s.books.bitmap|)
        && TotalFree(s.books.windows) == s.books.free + Unspent(s.threads))
  {
    EveryExecution(states, moves, k);
    var s := states[k];
    if s.mutex.Free? {
      CurrentWindowGood(s.bits, s.n, s.books);
      FreeCountsAddUp(s.bits, s.n, s.books);
    }
  }
}
