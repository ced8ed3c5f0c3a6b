/**
  Deferred closes: FatQueueClose and FatRemoveClose over two global lists, which are
  threaded through lists per volume, and the one worker that drains them.
 */
module CloseQueue {
  datatype CloseContext = CloseContext(id: nat, vcb: nat)

  /** The contexts of one volume, in order. */
  function OfVolume(list: seq<CloseContext>, v: nat): seq<CloseContext> {
    if list == [] then []
    else if list[0].vcb == v then [list[0]] + OfVolume(list[1..], v)
    else OfVolume(list[1..], v)
  }

  /** RemoveEntryList. */
  function Unlink(list: seq<CloseContext>, c: CloseContext): seq<CloseContext> {
    if list == [] then []
    else if list[0] == c then list[1..]
    else [list[0]] + Unlink(list[1..], c)
  }

  lemma {:induction false} OfVolumeAppend(list: seq<CloseContext>, c: CloseContext, v: nat)
    ensures OfVolume(list + [c], v) == if c.vcb == v then OfVolume(list, v) + [c] else OfVolume(list, v)
  {
    if list == [] {
      assert list + [c] == [c] && [c][1..] == [];
    } else {
      OfVolumeAppend(list[1..], c, v);
      assert (list + [c])[1..] == list[1..] + [c];
    }
  }

  /** Unlinking a context takes it off its volume's list, and leaves the others' alone. */
  lemma {:induction false} OfVolumeUnlink(list: seq<CloseContext>, c: CloseContext, v: nat)
    ensures OfVolume(Unlink(list, c), v) == if c.vcb == v then Unlink(OfVolume(list, v), c) else OfVolume(list, v)
  {
    if list != [] {
      if list[0] == c {
        assert c.vcb == v ==> OfVolume(list, v)[1..] == OfVolume(list[1..], v);
      } else {
        OfVolumeUnlink(list[1..], c, v);
        var u := Unlink(list, c);
        assert u[1..] == Unlink(list[1..], c);
        if list[0].vcb == v {
          assert OfVolume(list, v)[1..] == OfVolume(list[1..], v);
        }
      }
    }
  }

  lemma {:induction false} OfVolumeHead(list: seq<CloseContext>, v: nat)
    requires OfVolume(list, v) != []
    ensures OfVolume(list, v)[0].vcb == v && OfVolume(list, v)[0] in list
  {
    if list[0].vcb != v {
      OfVolumeHead(list[1..], v);
    }
  }

  lemma {:induction false} UnlinkBag(list: seq<CloseContext>, c: CloseContext)
    requires c in list
    ensures multiset(list) == multiset(Unlink(list, c)) + multiset{c} && |Unlink(list, c)| == |list| - 1
  {
    assert list == [list[0]] + list[1..];
    if list[0] != c {
      UnlinkBag(list[1..], c);
    }
  }

  /** What has been taken so far, and how many workers are about to be queued, are queued, and are running. */
  datatype Workers = Workers(taken: seq<CloseContext>, starting: nat, queued: nat, running: nat)

  lemma AddedToBag(list: seq<CloseContext>, c: CloseContext)
    ensures multiset(list + [c]) == multiset(list) + multiset{c}
  {
  }

  datatype Volume = AnyVolume | OneVolume(v: nat)

  datatype Removed = Nothing | Taken(context: CloseContext)

  /** What happens to the queues, in the order in which threads get the mutex; each event is a thread's whole stay in it. */
  datatype Event =
    | Close(context: CloseContext, delayClose: bool)
    | QueueWorkItem
    | WorkItemRuns
    | WorkerTakes(hint: Volume)
    | VolumeTakes(v: nat)
    | Shutdown

  class FatData {
    const maxDelayed: nat
    var asyncList: seq<CloseContext>
    var delayedList: seq<CloseContext>
    var vcbAsync: map<nat, seq<CloseContext>>
    var vcbDelayed: map<nat, seq<CloseContext>>
    var asyncCount: int
    var delayedCount: int
    var asyncCloseActive: bool
    var highAsync: bool
    var highDelayed: bool
    var shutdownStarted: bool

    constructor (maxDelayed: nat)
      ensures Valid() && this.maxDelayed == maxDelayed && asyncList == [] && delayedList == [] && !asyncCloseActive
    {
      this.maxDelayed := maxDelayed;
      asyncList, delayedList, vcbAsync, vcbDelayed := [], [], map[], map[];
      asyncCount, delayedCount, asyncCloseActive, highAsync, highDelayed, shutdownStarted := 0, 0, false, false, false, false;
    }

    /** The list of a volume, which is empty for a volume without entries. */
    function VcbList(lists: map<nat, seq<CloseContext>>, v: nat): seq<CloseContext> {
      if v in lists then lists[v] else []
    }

    /** Every volume's list holds exactly its contexts of the global list, in the same order. */
    ghost predicate Threaded(list: seq<CloseContext>, lists: map<nat, seq<CloseContext>>) {
      forall v: nat {:trigger VcbList(lists, v)} :: VcbList(lists, v) == OfVolume(list, v)
    }

    ghost predicate Valid()
      reads this
    {
      && Threaded(asyncList, vcbAsync) && Threaded(delayedList, vcbDelayed)
      && asyncCount == |asyncList| && delayedCount == |delayedList|
      && (asyncList != [] || delayedCount > maxDelayed ==> asyncCloseActive)
    }

    lemma ThreadedAppend(list: seq<CloseContext>, lists: map<nat, seq<CloseContext>>, c: CloseContext)
      requires Threaded(list, lists)
      ensures Threaded(list + [c], lists[c.vcb := VcbList(lists, c.vcb) + [c]])
    {
      var lists' := lists[c.vcb := VcbList(lists, c.vcb) + [c]];
      forall v: nat ensures VcbList(lists', v) == OfVolume(list + [c], v) {
        OfVolumeAppend(list, c, v);
        assert VcbList(lists, v) == OfVolume(list, v);
      }
    }

    lemma ThreadedUnlink(list: seq<CloseContext>, lists: map<nat, seq<CloseContext>>, c: CloseContext)
      requires Threaded(list, lists)
      ensures Threaded(Unlink(list, c), lists[c.vcb := Unlink(VcbList(lists, c.vcb), c)])
    {
      var lists' := lists[c.vcb := Unlink(VcbList(lists, c.vcb), c)];
      forall v: nat ensures VcbList(lists', v) == OfVolume(Unlink(list, c), v) {
        OfVolumeUnlink(list, c, v);
        assert VcbList(lists, v) == OfVolume(list, v);
      }
    }

    /** FatQueueClose, up to the release of the mutex; the caller then queues the work item if it is to start the worker. */
    method QueueClose(c: CloseContext, delayClose: bool) returns (startWorker: bool)
      requires Valid()
      modifies this
      ensures Valid() && asyncCloseActive == (old(asyncCloseActive) || startWorker)
      ensures startWorker <==> !old(asyncCloseActive) && (delayClose ==> |old(delayedList)| + 1 > maxDelayed)
      ensures asyncList == (if delayClose then old(asyncList) else old(asyncList) + [c])
      ensures delayedList == (if delayClose then old(delayedList) + [c] else old(delayedList))
      ensures Pending() == old(Pending()) + multiset{c}
    {
      startWorker := false;
      AddedToBag(asyncList, c);
      AddedToBag(delayedList, c);
      if delayClose {
        ThreadedAppend(delayedList, vcbDelayed, c);
        delayedList, vcbDelayed := delayedList + [c], vcbDelayed[c.vcb := VcbList(vcbDelayed, c.vcb) + [c]];
        delayedCount := delayedCount + 1;
        if delayedCount > maxDelayed && !asyncCloseActive {
          asyncCloseActive, startWorker := true, true;
        }
      } else {
        ThreadedAppend(asyncList, vcbAsync, c);
        asyncList, vcbAsync := asyncList + [c], vcbAsync[c.vcb := VcbList(vcbAsync, c.vcb) + [c]];
        asyncCount := asyncCount + 1;
        if !asyncCloseActive {
          asyncCloseActive, startWorker := true, true;
        }
      }
    }

    /** The contexts of both lists, as a bag. */
    ghost function Pending(): multiset<CloseContext>
      reads this
    {
      multiset(asyncList) + multiset(delayedList)
    }

    /** Takes a context off the async lists. */
    method UnlinkAsync(c: CloseContext)
      requires Valid() && c in asyncList
      modifies `asyncList, `vcbAsync, `asyncCount
      ensures Valid() && asyncList == Unlink(old(asyncList), c) && old(Pending()) == Pending() + multiset{c}
    {
      ThreadedUnlink(asyncList, vcbAsync, c);
      UnlinkBag(asyncList, c);
      asyncList, vcbAsync := Unlink(asyncList, c), vcbAsync[c.vcb := Unlink(VcbList(vcbAsync, c.vcb), c)];
      asyncCount := asyncCount - 1;
    }

    /** Takes a context off the delayed lists. */
    method UnlinkDelayed(c: CloseContext)
      requires Valid() && c in delayedList
      modifies `delayedList, `vcbDelayed, `delayedCount
      ensures Valid() && delayedList == Unlink(old(delayedList), c) && old(Pending()) == Pending() + multiset{c}
    {
      ThreadedUnlink(delayedList, vcbDelayed, c);
      UnlinkBag(delayedList, c);
      delayedList, vcbDelayed := Unlink(delayedList, c), vcbDelayed[c.vcb := Unlink(VcbList(vcbDelayed, c.vcb), c)];
      delayedCount := delayedCount - 1;
    }

    /** Whether there is something for a worker that takes any volume. */
    predicate HasWork()
      reads this
    {
      asyncList != [] || (delayedList != [] && (delayedCount > maxDelayed / 2 || shutdownStarted))
    }

    /** The oldest close of all, async ones first. */
    ghost function Oldest(): CloseContext
      requires HasWork()
      reads this
    {
      if asyncList != [] then asyncList[0] else delayedList[0]
    }

    /** Takes the oldest close, async ones first; a worker that finds none is not active any longer. */
    method TakeAny(workerThread: bool) returns (r: Removed)
      requires Valid()
      modifies `asyncList, `vcbAsync, `asyncCount, `delayedList, `vcbDelayed, `delayedCount, `asyncCloseActive
      ensures Valid() && (r.Taken? <==> old(HasWork()))
      ensures r.Taken? ==>
        && old(Pending()) == Pending() + multiset{r.context} && asyncCloseActive == old(asyncCloseActive)
        && r.context == old(Oldest())
        && if old(asyncList) != [] then asyncList == old(asyncList)[1..] && delayedList == old(delayedList)
           else delayedList == old(delayedList)[1..] && asyncList == []
      ensures r.Nothing? ==> Pending() == old(Pending()) && asyncCloseActive == (old(asyncCloseActive) && !workerThread)
      ensures r.Nothing? ==> asyncList == [] && (delayedList == [] || (|delayedList| <= maxDelayed / 2 && !shutdownStarted))
    {
      if asyncList != [] {
        r := Taken(asyncList[0]);
        UnlinkAsync(r.context);
      } else if delayedList != [] && (delayedCount > maxDelayed / 2 || shutdownStarted) {
        r := Taken(delayedList[0]);
        UnlinkDelayed(r.context);
      } else {
        r := Nothing;
        if workerThread {
          asyncCloseActive := false;
        }
      }
    }

    /** A volume's own lists hold its contexts. */
    lemma VolumeLists(v: nat)
      requires Valid()
      ensures VcbList(vcbAsync, v) == OfVolume(asyncList, v) && VcbList(vcbDelayed, v) == OfVolume(delayedList, v)
    {
    }

    /** Whether a volume has closes pending. */
    ghost predicate HasCloses(v: nat)
      reads this
    {
      OfVolume(asyncList, v) != [] || OfVolume(delayedList, v) != []
    }

    /** The oldest close of a volume, async ones first. */
    ghost function OldestOf(v: nat): CloseContext
      requires HasCloses(v)
      reads this
    {
      if OfVolume(asyncList, v) != [] then OfVolume(asyncList, v)[0] else OfVolume(delayedList, v)[0]
    }

    /** The queues are under pressure: above twice the limit, or above it once and not yet below the limit again. */
    ghost predicate Pressed()
      reads this
    {
      || (if highAsync then asyncCount >= maxDelayed else asyncCount > maxDelayed * 2)
      || (if highDelayed then delayedCount >= maxDelayed else delayedCount > maxDelayed * 2)
    }

    /** Raises and lowers the pressure flags, at twice the limit and at the limit. */
    method UpdatePressure()
      requires Valid()
      modifies `highAsync, `highDelayed
      ensures Valid() && Pending() == old(Pending()) && HasWork() == old(HasWork()) && (HasWork() ==> Oldest() == old(Oldest()))
      ensures forall v :: HasCloses(v) == old(HasCloses(v)) && (HasCloses(v) ==> OldestOf(v) == old(OldestOf(v)))
      ensures highAsync || highDelayed <==> old(Pressed())
      ensures highAsync == if old(highAsync) then asyncCount >= maxDelayed else asyncCount > maxDelayed * 2
      ensures highDelayed == if old(highDelayed) then delayedCount >= maxDelayed else delayedCount > maxDelayed * 2
    {
      if !highAsync && asyncCount > maxDelayed * 2 {
        highAsync := true;
      } else if highAsync && asyncCount < maxDelayed {
        highAsync := false;
      }
      if !highDelayed && delayedCount > maxDelayed * 2 {
        highDelayed := true;
      } else if highDelayed && delayedCount < maxDelayed {
        highDelayed := false;
      }
    }

    /** Takes the oldest close of one volume, async ones first. */
    method TakeOf(v: nat) returns (r: Removed)
      requires Valid()
      modifies `asyncList, `vcbAsync, `asyncCount, `delayedList, `vcbDelayed, `delayedCount
      ensures Valid() && (r.Taken? <==> old(HasCloses(v)))
      ensures r.Taken? ==> r.context.vcb == v && old(Pending()) == Pending() + multiset{r.context}
      ensures r.Taken? ==> r.context == old(OldestOf(v))
      ensures r.Nothing? ==> Pending() == old(Pending()) && HasWork() == old(HasWork()) && (HasWork() ==> Oldest() == old(Oldest()))
    {
      VolumeLists(v);
      if VcbList(vcbAsync, v) != [] {
        OfVolumeHead(asyncList, v);
        r := Taken(VcbList(vcbAsync, v)[0]);
        UnlinkAsync(r.context);
      } else if VcbList(vcbDelayed, v) != [] {
        OfVolumeHead(delayedList, v);
        r := Taken(VcbList(vcbDelayed, v)[0]);
        UnlinkDelayed(r.context);
      } else {
        r := Nothing;
      }
    }

    /** The volume a close is taken from: the one asked for, or, for a worker under pressure, the one it looked at last if that has any. */
    ghost function Preferred(vcb: Volume, lastVcbHint: Volume): Volume
      reads this
    {
      if vcb.AnyVolume? && lastVcbHint.OneVolume? && Pressed() && HasCloses(lastVcbHint.v) then lastVcbHint else vcb
    }

    /** There is something to take, from one volume or any. */
    ghost predicate HasFor(volume: Volume)
      reads this
    {
      if volume.OneVolume? then HasCloses(volume.v) else HasWork()
    }

    ghost function OldestFor(volume: Volume): CloseContext
      requires HasFor(volume)
      reads this
    {
      if volume.OneVolume? then OldestOf(volume.v) else Oldest()
    }

    /** FatRemoveClose. */
    method RemoveClose(vcb: Volume, lastVcbHint: Volume) returns (r: Removed)
      requires Valid() && (vcb.OneVolume? ==> lastVcbHint.AnyVolume?)
      modifies this
      ensures Valid() && shutdownStarted == old(shutdownStarted)
      ensures r.Taken? ==> old(Pending()) == Pending() + multiset{r.context} && asyncCloseActive == old(asyncCloseActive)
      ensures r.Nothing? ==> Pending() == old(Pending()) && asyncCloseActive == (old(asyncCloseActive) && vcb.OneVolume?)
      ensures r.Nothing? && vcb.AnyVolume? ==> asyncList == [] && (delayedList == [] || (|delayedList| <= maxDelayed / 2 && !shutdownStarted))
      ensures r.Taken? <==> old(HasFor(Preferred(vcb, lastVcbHint)))
      ensures r.Taken? ==> r.context == old(OldestFor(Preferred(vcb, lastVcbHint)))
      ensures r.Taken? && old(Preferred(vcb, lastVcbHint)).OneVolume? ==> r.context.vcb == old(Preferred(vcb, lastVcbHint)).v
    {
      hide Threaded;
      hide OfVolume;
      hide Pending;
      hide HasWork;
      hide HasCloses;
      hide Oldest;
      hide OldestOf;
      var volume := vcb;
      if vcb.AnyVolume? && lastVcbHint.OneVolume? {
        UpdatePressure();
        if highAsync || highDelayed {
          volume := lastVcbHint;
        }
      }
      if volume.AnyVolume? {
        r := TakeAny(vcb.AnyVolume?);
      } else {
        r := TakeOf(volume.v);
        if r.Nothing? && lastVcbHint.OneVolume? {
          r := TakeAny(vcb.AnyVolume?);
        }
      }
    }

    /** The state and the workers after some events. */
    ghost predicate Balanced(w: Workers, closed: seq<CloseContext>)
      reads this
    {
      && Valid() && w.starting + w.queued + w.running == (if asyncCloseActive then 1 else 0)
      && multiset(closed) == multiset(w.taken) + Pending()
    }

    /** FatFsdShutdown, as far as the queues see it. */
    method StartShutdown()
      requires Valid()
      modifies `shutdownStarted
      ensures Valid() && Pending() == old(Pending()) && shutdownStarted
    {
      shutdownStarted := true;
    }

    /** One call of FatRemoveClose, by the worker, which ends when there is nothing, or for one volume. */
    method TakeOne(vcb: Volume, hint: Volume, w: Workers, ghost closed: seq<CloseContext>) returns (w': Workers)
      requires Balanced(w, closed) && (if vcb.OneVolume? then hint.AnyVolume? else w.running > 0)
      modifies this
      ensures Balanced(w', closed)
    {
      hide Threaded;
      hide Pending;
      hide HasWork;
      hide HasCloses;
      hide Oldest;
      hide OldestOf;
      w' := w;
      var r := RemoveClose(vcb, hint);
      match r
      case Nothing =>
        if vcb.AnyVolume? {
          w' := w.(running := w.running - 1);
        }
      case Taken(c) =>
        w' := w.(taken := w.taken + [c]);
        AddedToBag(w.taken, c);
    }

    /** Serves one event. */
    method ServeOne(e: Event, w: Workers, ghost closed: seq<CloseContext>) returns (w': Workers)
      requires Balanced(w, closed)
      modifies this
      ensures Balanced(w', if e.Close? then closed + [e.context] else closed)
    {
      hide Threaded;
      hide Pending;
      hide HasWork;
      hide HasCloses;
      hide Oldest;
      hide OldestOf;
      w' := w;
      match e
      case Close(c, delayClose) =>
        var startWorker := QueueClose(c, delayClose);
        if startWorker {
          w' := w.(starting := w.starting + 1);
        }
        AddedToBag(closed, c);
      case QueueWorkItem =>
        if w.starting > 0 {
          w' := w.(starting := w.starting - 1, queued := w.queued + 1);
        }
      case WorkItemRuns =>
        if w.queued > 0 {
          w' := w.(queued := w.queued - 1, running := w.running + 1);
        }
      case WorkerTakes(hint) =>
        if w.running > 0 {
          w' := TakeOne(AnyVolume, hint, w, closed);
        }
      case VolumeTakes(v) => w' := TakeOne(OneVolume(v), AnyVolume, w, closed);
      case Shutdown => StartShutdown();
    }

    /**
      Any sequence of events: every context that has been queued is either still pending or
      has been taken, exactly once; and the flag is set exactly while one worker is about
      to be queued, is queued, or is running.
     */
    method Serve(events: seq<Event>) returns (w: Workers)
      requires Valid() && asyncList == [] && delayedList == [] && !asyncCloseActive
      modifies this
      ensures Balanced(w, ClosesOf(events))
    {
      w := Workers([], 0, 0, 0);
      assert events[..0] == [];
      for k := 0 to |events|
        invariant Balanced(w, ClosesOf(events[..k]))
      {
        ClosesGrow(events, k);
        w := ServeOne(events[k], w, ClosesOf(events[..k]));
      }
      assert events[..|events|] == events;
    }
  }

  /** The contexts that a sequence of events queues. */
  function ClosesOf(events: seq<Event>): seq<CloseContext> {
    if events == [] then []
    else
      var last := events[|events| - 1];
      ClosesOf(events[..|events| - 1]) + if last.Close? then [last.context] else []
  }

  lemma ClosesGrow(events: seq<Event>, k: nat)
    requires k < |events|
    ensures ClosesOf(events[..k + 1]) == if events[k].Close? then ClosesOf(events[..k]) + [events[k].context] else ClosesOf(events[..k])
  {
    assert events[..k + 1][..k] == events[..k];
  }
}
