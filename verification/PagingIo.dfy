/**
  FatPagingFileIo over more than one run, as a state machine: any number of threads,
  each of which cuts a request into pieces and issues them, and the completions of those
  pieces, in any order and at any time.  A piece goes out on an associated IRP, whose
  completion counts the master down and completes it at zero, or on the master itself.
  A piece for which no MDL can be allocated waits for the reserve MDL, which all requests
  share, and which the completion of the master gives back.
 */
module PagingIo {
  datatype Extent = Extent(vbo: nat, lbo: nat, length: nat)

  /** A request: bytes from an offset of the file, which lie in runs of the map, from the first through the last. */
  datatype Request = Request(runs: seq<Extent>, vbo: nat, byteCount: nat, reserveSize: nat)

  datatype Piece = Piece(vbo: nat, lbo: nat, length: nat)

  datatype Phase =
    | Top                         // at the head of the loop
    | Reserving                   // waits for the reserve MDL
    | Bounded(mdlIsReserve: bool) // the piece has been cut
    | Draining(mdlIsReserve: bool) // the master is to be re-used
    | OnMaster(mdlIsReserve: bool) // the piece is on the master
    | Issued                      // the piece is on its way or done
    | Bottom                      // behind the loop
    | Waiting                     // for what was launched
    | Done

  datatype State = State(phase: Phase, vbo: nat, byteCount: nat, index: nat, nextLbo: nat, nextByteCount: nat, remaining: nat,
                         irpCount: nat,       // associated IRPs still to launch
                         masterCount: nat,    // Irp->AssociatedIrp.IrpCount
                         ok: bool,            // Irp->IoStatus shows success
                         inFlight: set<nat>, masterBusy: bool, issued: seq<Piece>,
                         completions: nat)    // how often the master has been completed

  datatype Step =
    | StartPiece
    | MissMdl
    | TakeReserve
    | LaunchAssociated
    | FallBack
    | UseMaster
    | MasterDone(success: bool)
    | CheckMaster
    | Advance
    | AssociatedDone(piece: nat, success: bool)
    | LeaveLoop
    | CompleteByHand

  predicate RunFollows(runs: seq<Extent>, i: nat)
    requires 0 < i < |runs|
  {
    runs[i].vbo == runs[i - 1].vbo + runs[i - 1].length
  }

  /** The runs follow each other in the file, the request starts in the first and ends in the last, and there is more than one. */
  ghost predicate RequestOk(q: Request) {
    && |q.runs| > 1 && q.reserveSize > 0
    && (forall i :: 0 <= i < |q.runs| ==> q.runs[i].length > 0)
    && (forall i :: 0 < i < |q.runs| ==> RunFollows(q.runs, i))
    && q.runs[0].vbo <= q.vbo < q.runs[0].vbo + q.runs[0].length
    && q.runs[|q.runs| - 1].vbo < q.vbo + q.byteCount <= q.runs[|q.runs| - 1].vbo + q.runs[|q.runs| - 1].length
  }

  /** The state in which the loop starts. */
  function Start(q: Request): State
    requires RequestOk(q)
  {
    var run := q.runs[0];
    State(Top, q.vbo, q.byteCount, 0, run.lbo + (q.vbo - run.vbo), run.vbo + run.length - q.vbo, 0, |q.runs|, |q.runs|, true, {}, false, [], 0)
  }

  function Min(a: nat, b: nat): nat {
    if a < b then a else b
  }

  /** An associated IRP may be used if it will not complete the master early. */
  predicate MayAssociate(q: Request, s: State) {
    s.phase.Bounded? && !s.phase.mdlIsReserve && (s.irpCount != 1 || (s.index + 1 == |q.runs| && s.remaining == 0))
  }

  /** When a request can take a step, as far as it is its own affair: taking the reserve MDL also needs the reserve MDL to be free. */
  predicate Enabled(q: Request, s: State, step: Step) {
    match step
    case StartPiece => s.phase.Top?
    case MissMdl => s.phase.Top?
    case TakeReserve => s.phase.Reserving?
    case LaunchAssociated => MayAssociate(q, s)
    case FallBack => s.phase.Bounded? // an associated IRP may not be used, or cannot be had
    case UseMaster => s.phase.Draining? && s.masterCount == s.irpCount
    case MasterDone(_) => s.masterBusy
    case CheckMaster => s.phase.OnMaster? && !s.masterBusy
    case Advance => s.phase.Issued?
    case AssociatedDone(piece, _) => piece in s.inFlight
    case LeaveLoop => s.phase.Bottom?
    case CompleteByHand => s.phase.Waiting? && s.masterCount == s.irpCount
  }

  /** What the issuing thread and the I/O manager rely on: no count goes below zero, and the master is not touched once completed. */
  predicate Safe(q: Request, s: State, step: Step) {
    match step
    case LaunchAssociated => s.irpCount > 0 && s.completions == 0
    case UseMaster => s.completions == 0 && s.inFlight == {}
    case CheckMaster => s.completions == 0
    case Advance => s.nextByteCount <= s.byteCount && s.index < |q.runs|
    case AssociatedDone(_, _) => s.masterCount > 0 && s.completions == 0
    case CompleteByHand => s.completions == 0 && s.inFlight == {} && !s.masterBusy
    case _ => true
  }

  function Apply(q: Request, s: State, step: Step): State
    requires Enabled(q, s, step) && Safe(q, s, step)
  {
    match step
    case StartPiece => s.(phase := Bounded(false), nextByteCount := Min(s.nextByteCount, s.byteCount), remaining := 0)
    case MissMdl => s.(phase := Reserving, nextByteCount := Min(s.nextByteCount, s.byteCount), remaining := 0)
    case TakeReserve => // the piece is trimmed to fit
      var piece := Min(s.nextByteCount, q.reserveSize);
      s.(phase := Bounded(true), nextByteCount := piece, remaining := s.nextByteCount - piece)
    case LaunchAssociated =>
      s.(phase := Issued, irpCount := s.irpCount - 1, inFlight := s.inFlight + {|s.issued|},
         issued := s.issued + [Piece(s.vbo, s.nextLbo, s.nextByteCount)])
    case FallBack => s.(phase := Draining(s.phase.mdlIsReserve))
    case UseMaster =>
      if !s.ok then s.(phase := Bottom) // leaves the loop with the MDL in hand
      else s.(phase := OnMaster(s.phase.mdlIsReserve), masterBusy := true, issued := s.issued + [Piece(s.vbo, s.nextLbo, s.nextByteCount)])
    case MasterDone(success) => s.(masterBusy := false, ok := success)
    case CheckMaster => s.(phase := if s.ok then Issued else Bottom)
    case Advance =>
      var s' := s.(phase := Top, vbo := s.vbo + s.nextByteCount, byteCount := s.byteCount - s.nextByteCount);
      if s.remaining > 0 then s'.(nextLbo := s.nextLbo + s.nextByteCount, nextByteCount := s.remaining)
      else if s.index + 1 < |q.runs| then s'.(index := s.index + 1, nextLbo := q.runs[s.index + 1].lbo, nextByteCount := q.runs[s.index + 1].length)
      else s'.(index := s.index + 1, phase := Bottom)
    case AssociatedDone(piece, success) => // the completion routine stores an error before the count goes down
      s.(inFlight := s.inFlight - {piece}, ok := s.ok && success, masterCount := s.masterCount - 1,
         completions := if s.masterCount == 1 then s.completions + 1 else s.completions)
    case LeaveLoop => s.(phase := if s.irpCount == 0 then Done else Waiting)
    case CompleteByHand => s.(phase := Done, completions := s.completions + 1)
  }

  /** A piece reads or writes where the map says. */
  ghost predicate Placed(q: Request, p: Piece) {
    exists i {:trigger q.runs[i]} :: 0 <= i < |q.runs| && q.runs[i].vbo <= p.vbo && p.vbo + p.length <= q.runs[i].vbo + q.runs[i].length
      && p.lbo == q.runs[i].lbo + (p.vbo - q.runs[i].vbo)
  }

  predicate ReachesNext(pieces: seq<Piece>, k: nat, end: nat)
    requires k < |pieces|
  {
    pieces[k].vbo + pieces[k].length == if k + 1 < |pieces| then pieces[k + 1].vbo else end
  }

  /** The pieces, in order, tile the request up to an offset, each in its place on the disk. */
  ghost predicate Tiles(q: Request, pieces: seq<Piece>, end: nat) {
    && (forall k :: 0 <= k < |pieces| ==> pieces[k].length > 0 && Placed(q, pieces[k]))
    && (forall k :: 0 <= k < |pieces| ==> ReachesNext(pieces, k, end))
    && (if pieces == [] then end == q.vbo else pieces[0].vbo == q.vbo)
  }

  /** Where the issuing thread is in the runs. */
  ghost predicate Cursor(q: Request, s: State) {
    && s.index < |q.runs| && q.runs[s.index].vbo <= s.vbo < q.runs[s.index].vbo + q.runs[s.index].length
    && s.vbo + s.byteCount == q.vbo + q.byteCount && s.byteCount > 0
    && s.nextLbo == q.runs[s.index].lbo + (s.vbo - q.runs[s.index].vbo)
    && var rest := q.runs[s.index].vbo + q.runs[s.index].length - s.vbo;
      if s.phase.Top? then s.nextByteCount == rest || s.nextByteCount == Min(rest, s.byteCount)
      else s.nextByteCount > 0 && s.nextByteCount + s.remaining == Min(rest, s.byteCount) && (s.phase.Reserving? ==> s.remaining == 0)
  }

  /** How far the issued pieces reach. */
  ghost predicate Reached(q: Request, s: State) {
    match s.phase
    case Top => Cursor(q, s) && Tiles(q, s.issued, s.vbo)
    case Reserving => Cursor(q, s) && Tiles(q, s.issued, s.vbo)
    case Bounded(_) => Cursor(q, s) && Tiles(q, s.issued, s.vbo)
    case Draining(_) => Cursor(q, s) && Tiles(q, s.issued, s.vbo)
    case OnMaster(_) => Cursor(q, s) && Tiles(q, s.issued, s.vbo + s.nextByteCount) && s.issued != []
    case Issued => Cursor(q, s) && Tiles(q, s.issued, s.vbo + s.nextByteCount) && s.issued != []
    case _ => s.ok ==> Tiles(q, s.issued, q.vbo + q.byteCount)
  }

  /** The counts: what is in flight is launched and not completed, and the count to launch runs out only with the last piece. */
  ghost predicate CountsOk(q: Request, s: State) {
    && s.masterCount == s.irpCount + |s.inFlight|
    && (forall k :: k in s.inFlight ==> k < |s.issued|)
    && (s.masterBusy ==> s.phase.OnMaster? && s.inFlight == {} && s.ok)
    && (s.phase.OnMaster? ==> s.inFlight == {})
    && (s.irpCount == 0 ==>
      || s.phase.Bottom? || s.phase.Done?
      || (s.phase.Issued? && s.index + 1 == |q.runs| && s.remaining == 0))
    && (s.phase.Waiting? ==> s.irpCount > 0)
    && s.completions == (if s.masterCount == 0 || (s.phase.Done? && s.irpCount > 0) then 1 else 0)
    && (s.phase.Done? && s.irpCount > 0 ==> s.inFlight == {})
    && (s.irpCount == 0 ==> s.phase.Issued? || Tiles(q, s.issued, q.vbo + q.byteCount))
  }

  ghost predicate Inv(q: Request, s: State) {
    CountsOk(q, s) && Reached(q, s)
  }

  lemma StartOk(q: Request)
    requires RequestOk(q)
    ensures Inv(q, Start(q))
  {
    RunsBefore(q, |q.runs| - 1, 0);
  }

  /** A run that is not the last lies wholly before the last. */
  lemma {:induction false} RunsBefore(q: Request, j: nat, i: nat)
    requires RequestOk(q) && i <= j < |q.runs|
    ensures i < j ==> q.runs[i].vbo + q.runs[i].length <= q.runs[j].vbo
    decreases j
  {
    if i < j {
      RunsBefore(q, j - 1, i);
      assert RunFollows(q.runs, j);
    }
  }

  /** One more piece behind the others. */
  lemma TilesGrow(q: Request, pieces: seq<Piece>, p: Piece)
    requires Tiles(q, pieces, p.vbo) && p.length > 0 && Placed(q, p)
    ensures Tiles(q, pieces + [p], p.vbo + p.length)
  {
    var all := pieces + [p];
    forall k | 0 <= k < |all|
      ensures all[k].length > 0 && Placed(q, all[k])
      ensures ReachesNext(all, k, p.vbo + p.length)
    {
      assert k < |pieces| ==> all[k] == pieces[k] && ReachesNext(pieces, k, p.vbo);
    }
  }

  /** The piece that has been cut lies in its run, and does not reach past the request. */
  lemma PieceFits(q: Request, s: State)
    requires RequestOk(q) && Cursor(q, s) && !s.phase.Top?
    ensures Placed(q, Piece(s.vbo, s.nextLbo, s.nextByteCount)) && s.nextByteCount <= s.byteCount
    ensures s.remaining == 0 && s.index + 1 == |q.runs| ==> s.vbo + s.nextByteCount == q.vbo + q.byteCount
    ensures s.remaining == 0 && s.index + 1 < |q.runs| ==> s.vbo + s.nextByteCount == q.runs[s.index].vbo + q.runs[s.index].length
  {
    RunsBefore(q, |q.runs| - 1, s.index);
    var run := q.runs[s.index];
    assert run == q.runs[s.index];
  }

  lemma LaunchStep(q: Request, s: State)
    requires RequestOk(q) && Inv(q, s) && Enabled(q, s, LaunchAssociated)
    ensures Safe(q, s, LaunchAssociated) && Inv(q, Apply(q, s, LaunchAssociated))
  {
    PieceFits(q, s);
    TilesGrow(q, s.issued, Piece(s.vbo, s.nextLbo, s.nextByteCount));
    hide Tiles;
    hide RequestOk;
    assert |s.issued| !in s.inFlight;
  }

  lemma MasterStep(q: Request, s: State)
    requires RequestOk(q) && Inv(q, s) && Enabled(q, s, UseMaster)
    ensures Safe(q, s, UseMaster) && Inv(q, Apply(q, s, UseMaster))
  {
    PieceFits(q, s);
    TilesGrow(q, s.issued, Piece(s.vbo, s.nextLbo, s.nextByteCount));
    NothingInFlight(s.inFlight);
    hide Tiles;
    hide RequestOk;
  }

  lemma NothingInFlight(inFlight: set<nat>)
    ensures |inFlight| == 0 <==> inFlight == {}
  {
  }

  lemma AdvanceStep(q: Request, s: State)
    requires RequestOk(q) && Inv(q, s) && Enabled(q, s, Advance)
    ensures Safe(q, s, Advance) && Inv(q, Apply(q, s, Advance))
  {
    CursorMoves(q, s);
    hide Tiles;
    hide RequestOk;
    hide Cursor;
    hide Placed;
  }

  /** The cursor moves to what is left of the piece, or to the next run, or to the end of the request. */
  lemma CursorMoves(q: Request, s: State)
    requires RequestOk(q) && Cursor(q, s) && Enabled(q, s, Advance)
    ensures Safe(q, s, Advance)
    ensures var s' := Apply(q, s, Advance); if s'.phase.Top? then Cursor(q, s') else s'.vbo == q.vbo + q.byteCount
  {
    PieceFits(q, s);
    if s.remaining == 0 && s.index + 1 < |q.runs| {
      RunsBefore(q, |q.runs| - 1, s.index + 1);
      RunsBefore(q, |q.runs| - 1, s.index);
      assert RunFollows(q.runs, s.index + 1);
      assert q.runs[s.index + 1].length > 0;
    }
    hide Tiles;
    hide RequestOk;
  }

  lemma CompletionStep(q: Request, s: State, step: Step)
    requires RequestOk(q) && Inv(q, s) && Enabled(q, s, step) && (step.AssociatedDone? || step.MasterDone?)
    ensures Safe(q, s, step) && Inv(q, Apply(q, s, step))
  {
    NothingInFlight(s.inFlight);
    hide Tiles;
    if step.AssociatedDone? {
      assert |s.inFlight - {step.piece}| == |s.inFlight| - 1;
    }
  }

  /** Every step is safe and keeps the invariant. */
  lemma StepKeeps(q: Request, s: State, step: Step)
    requires RequestOk(q) && Inv(q, s) && Enabled(q, s, step)
    ensures Safe(q, s, step) && Inv(q, Apply(q, s, step))
  {
    hide Tiles;
    match step
    case LaunchAssociated => LaunchStep(q, s);
    case UseMaster => MasterStep(q, s);
    case Advance => AdvanceStep(q, s);
    case AssociatedDone(_, _) => CompletionStep(q, s, step);
    case MasterDone(_) => CompletionStep(q, s, step);
    case _ => NothingInFlight(s.inFlight);
  }

  /** A request that has been completed, once, and whose thread is done. */
  predicate Completed(s: State) {
    s.phase.Done? && s.completions == 1
  }

  /** A request that is neither completed nor waits for the reserve MDL can take a step of its own. */
  lemma CanMove(q: Request, s: State)
    requires Inv(q, s) && !Completed(s) && (s.phase.Reserving? ==> s.inFlight != {})
    ensures exists step :: Enabled(q, s, step) && !step.TakeReserve?
  {
    NothingInFlight(s.inFlight);
    hide Tiles;
    if s.inFlight != {} {
      var piece :| piece in s.inFlight;
      assert Enabled(q, s, AssociatedDone(piece, true));
    } else {
      match s.phase
      case Top => assert Enabled(q, s, StartPiece);
      case Reserving =>
      case Bounded(_) => assert Enabled(q, s, FallBack);
      case Draining(_) => assert Enabled(q, s, UseMaster);
      case OnMaster(_) => assert if s.masterBusy then Enabled(q, s, MasterDone(true)) else Enabled(q, s, CheckMaster);
      case Issued => assert Enabled(q, s, Advance);
      case Bottom => assert Enabled(q, s, LeaveLoop);
      case Waiting => assert Enabled(q, s, CompleteByHand);
      case Done =>
    }
  }

  /** All requests so far, and whether the event of the reserve MDL is set. */
  datatype System = System(requests: seq<Request>, states: seq<State>, reserveFree: bool)

  datatype Event = Arrive(q: Request) | Move(i: nat, step: Step)

  /** A request has the reserve MDL in hand, or on its master IRP. */
  predicate Holds(s: State) {
    match s.phase
    case Bounded(mdlIsReserve) => mdlIsReserve
    case Draining(mdlIsReserve) => mdlIsReserve
    case OnMaster(mdlIsReserve) => mdlIsReserve && s.masterBusy
    case _ => false
  }

  /** The completion of the master gives the reserve MDL back. */
  predicate GivesBack(s: State, step: Step) {
    step.MasterDone? && Holds(s)
  }

  /** The guard of the branch that loses the reserve MDL: the master is to be re-used with it, and shows a failure. */
  predicate LosesReserve(s: State, step: Step) {
    step.UseMaster? && s.phase == Draining(true) && !s.ok
  }

  ghost predicate Can(g: System, e: Event) {
    match e
    case Arrive(q) => RequestOk(q) && |g.requests| == |g.states|
    case Move(i, step) =>
      && i < |g.states| == |g.requests| && Enabled(g.requests[i], g.states[i], step)
      && (step.TakeReserve? ==> g.reserveFree)
  }

  /** What a step relies on, and that the reserve MDL is in one hand at a time. */
  ghost predicate SafeFor(g: System, e: Event)
    requires Can(g, e)
  {
    match e
    case Arrive(_) => true
    case Move(i, step) =>
      && Safe(g.requests[i], g.states[i], step)
      && (step.TakeReserve? ==> forall j :: 0 <= j < |g.states| ==> !Holds(g.states[j]))
      && (GivesBack(g.states[i], step) ==> !g.reserveFree)
  }

  ghost function After(g: System, e: Event): System
    requires Can(g, e) && SafeFor(g, e)
  {
    match e
    case Arrive(q) => System(g.requests + [q], g.states + [Start(q)], g.reserveFree)
    case Move(i, step) =>
      System(g.requests, g.states[i := Apply(g.requests[i], g.states[i], step)],
        if step.TakeReserve? then false else if GivesBack(g.states[i], step) then true else g.reserveFree)
  }

  /** The reserve MDL is in at most one hand, and in none while its event is set. */
  ghost predicate OneHolder(g: System) {
    && (g.reserveFree ==> forall i :: 0 <= i < |g.states| ==> !Holds(g.states[i]))
    && forall i, j :: 0 <= i < j < |g.states| ==> !(Holds(g.states[i]) && Holds(g.states[j]))
  }

  ghost predicate AllOk(g: System) {
    && |g.requests| == |g.states| && OneHolder(g)
    && forall i :: 0 <= i < |g.states| ==> RequestOk(g.requests[i]) && Inv(g.requests[i], g.states[i])
  }

  /** Every step of every request is safe and keeps all requests in order, with the reserve MDL in one hand at most. */
  lemma EventKeeps(g: System, e: Event)
    requires AllOk(g) && Can(g, e)
    ensures SafeFor(g, e) && AllOk(After(g, e))
  {
    hide Inv;
    hide Enabled;
    hide Safe;
    hide RequestOk;
    hide Start;
    match e
    case Arrive(q) =>
      StartOk(q);
      StartHolds(q);
    case Move(i, step) =>
      var q, s := g.requests[i], g.states[i];
      StepKeeps(q, s, step);
      HoldsNext(q, s, step);
      hide Apply;
      hide Holds;
      hide GivesBack;
      var s' := Apply(q, s, step);
      if GivesBack(s, step) {
        GivingBack(s, step);
      }
  }

  lemma GivingBack(s: State, step: Step)
    requires GivesBack(s, step)
    ensures Holds(s) && step.MasterDone?
  {
  }

  lemma StartHolds(q: Request)
    requires RequestOk(q)
    ensures !Holds(Start(q))
  {
  }

  /** The reserve MDL changes hands only when it is taken, given back, or lost. */
  lemma HoldsNext(q: Request, s: State, step: Step)
    requires Inv(q, s) && Enabled(q, s, step) && Safe(q, s, step)
    ensures var s' := Apply(q, s, step);
      Holds(s') <==> step.TakeReserve? || (Holds(s) && !GivesBack(s, step) && !LosesReserve(s, step))
  {
    assert s.masterBusy ==> s.phase.OnMaster?;
    hide Reached;
    hide Tiles;
  }

  predicate Loses(g: System, e: Event) {
    e.Move? && e.i < |g.states| && LosesReserve(g.states[e.i], e.step)
  }

  /** The event of the reserve MDL is not set, and nobody has the MDL: nobody can ever set the event again. */
  predicate Lost(g: System) {
    !g.reserveFree && forall i :: 0 <= i < |g.states| ==> !Holds(g.states[i])
  }

  /** The event of the reserve MDL is lost by a losing step, and only so. */
  lemma LostNext(g: System, e: Event)
    requires AllOk(g) && Can(g, e) && SafeFor(g, e)
    ensures Lost(After(g, e)) <==> Lost(g) || Loses(g, e)
  {
    hide Inv;
    hide Enabled;
    hide Safe;
    hide RequestOk;
    hide Start;
    hide Apply;
    match e
    case Arrive(q) =>
      StartHolds(q);
      assert After(g, e).states[|g.states|] == Start(q);
      assert forall i :: 0 <= i < |g.states| ==> After(g, e).states[i] == g.states[i];
    case Move(i, step) =>
      var q, s := g.requests[i], g.states[i];
      var s' := Apply(q, s, step);
      HoldsNext(q, s, step);
      LosesHolding(s, step);
      hide Holds;
      hide LosesReserve;
      hide GivesBack;
      if GivesBack(s, step) {
        GivingBack(s, step);
      }
      assert After(g, e).states[i] == s';
      assert forall j :: 0 <= j < |g.states| && j != i ==> After(g, e).states[j] == g.states[j];
  }

  lemma LosesHolding(s: State, step: Step)
    ensures LosesReserve(s, step) ==> Holds(s) && !step.TakeReserve? && !GivesBack(s, step)
  {
  }

  ghost predicate Follows(g: System, e: Event, g': System) {
    Can(g, e) && (SafeFor(g, e) ==> g' == After(g, e))
  }

  /** A run of the machine from a given state; whether the steps are safe is not asked. */
  ghost predicate From(g: System, gs: seq<System>, es: seq<Event>) {
    && |gs| == |es| + 1 && gs[0] == g
    && forall k {:trigger es[k]} :: 0 <= k < |es| ==> Follows(gs[k], es[k], gs[k + 1])
  }

  /** A run from the start of the driver, when no request has been made and the event is set. */
  ghost predicate Execution(gs: seq<System>, es: seq<Event>) {
    From(System([], [], true), gs, es)
  }

  /** In every interleaving of any number of requests, every step is safe, and all requests stay in order. */
  lemma {:induction false} EveryExecution(g: System, gs: seq<System>, es: seq<Event>, k: nat)
    requires From(g, gs, es) && AllOk(g) && k < |gs|
    ensures AllOk(gs[k])
    ensures k < |es| ==> Can(gs[k], es[k]) && SafeFor(gs[k], es[k]) && gs[k + 1] == After(gs[k], es[k])
  {
    hide AllOk;
    hide Can;
    hide SafeFor;
    hide After;
    if k > 0 {
      EveryExecution(g, gs, es, k - 1);
      EventKeeps(gs[k - 1], es[k - 1]);
    }
    if k < |es| {
      assert Follows(gs[k], es[k], gs[k + 1]);
      EventKeeps(gs[k], es[k]);
    }
  }

  lemma StartsInOrder()
    ensures AllOk(System([], [], true)) && !Lost(System([], [], true))
  {
  }

  /** No request has taken the losing step before event k. */
  ghost predicate Kept(gs: seq<System>, es: seq<Event>, k: nat)
    requires k <= |es| < |gs|
  {
    forall j :: 0 <= j < k ==> !Loses(gs[j], es[j])
  }

  /** In every execution, the reserve MDL is lost exactly when some request has taken the losing step. */
  lemma {:induction false} LostIff(gs: seq<System>, es: seq<Event>, k: nat)
    requires Execution(gs, es) && k < |gs|
    ensures Lost(gs[k]) <==> !Kept(gs, es, k)
  {
    StartsInOrder();
    hide AllOk;
    hide Lost;
    hide Loses;
    if k > 0 {
      LostIff(gs, es, k - 1);
      EveryExecution(gs[0], gs, es, k - 1);
      LostNext(gs[k - 1], es[k - 1]);
    }
  }

  /**
    In every interleaving: the master of every request is completed at most once; once it
    is completed nothing is in flight and the issuing thread no longer touches it; and when
    the thread is done and nothing is in flight it has been completed.
   */
  lemma CompletedExactlyOnce(gs: seq<System>, es: seq<Event>, k: nat, i: nat)
    requires Execution(gs, es) && k < |gs| && i < |gs[k].states|
    ensures var s := gs[k].states[i];
      && s.completions <= 1
      && (s.completions == 1 ==> s.inFlight == {} && !s.masterBusy)
      && (s.phase.Done? && s.inFlight == {} ==> s.completions == 1)
  {
    StartsInOrder();
    EveryExecution(gs[0], gs, es, k);
    var s := gs[k].states[i];
    assert Inv(gs[k].requests[i], s);
    NothingInFlight(s.inFlight);
  }

  /** A piece of request i is done, and has failed. */
  predicate FailsPiece(e: Event, i: nat) {
    e.Move? && e.i == i && ((e.step.AssociatedDone? && !e.step.success) || (e.step.MasterDone? && !e.step.success))
  }

  /** A piece of request i has failed before event k. */
  ghost predicate HasFailed(es: seq<Event>, k: nat, i: nat)
    requires k <= |es|
  {
    exists j :: 0 <= j < k && FailsPiece(es[j], i)
  }

  lemma NotYetFailed(es: seq<Event>, i: nat)
    ensures !HasFailed(es, 0, i)
  {
  }

  lemma FailedNext(es: seq<Event>, k: nat, i: nat)
    requires k < |es|
    ensures HasFailed(es, k + 1, i) <==> HasFailed(es, k, i) || FailsPiece(es[k], i)
  {
    if FailsPiece(es[k], i) {
      assert HasFailed(es, k + 1, i);
    }
  }

  /** An error is stored by the completion that meets it, and is never taken back. */
  lemma StatusNext(g: System, e: Event, i: nat)
    requires AllOk(g) && Can(g, e) && SafeFor(g, e) && i < |After(g, e).states|
    ensures i >= |g.states| ==> e.Arrive? && After(g, e).states[i].ok && !FailsPiece(e, i)
    ensures i < |g.states| ==> (After(g, e).states[i].ok <==> g.states[i].ok && !FailsPiece(e, i))
  {
    hide Reached;
    hide Tiles;
    if e.Move? && i < |g.states| {
      assert Inv(g.requests[i], g.states[i]);
    }
  }

  /** A request that has not arrived has no piece that could fail. */
  lemma {:induction false} NoneBeforeArrival(gs: seq<System>, es: seq<Event>, k: nat, i: nat)
    requires Execution(gs, es) && k < |gs| && i >= |gs[k].states|
    ensures !HasFailed(es, k, i)
  {
    NotYetFailed(es, i);
    if k > 0 {
      StartsInOrder();
      EveryExecution(gs[0], gs, es, k - 1);
      hide AllOk;
      hide SafeFor;
      assert |gs[k - 1].states| <= |gs[k].states|;
      NoneBeforeArrival(gs, es, k - 1, i);
      FailedNext(es, k - 1, i);
    }
  }

  /** In every execution, the status of a request shows success exactly as long as none of its pieces has failed. */
  lemma {:induction false} StatusIs(gs: seq<System>, es: seq<Event>, k: nat, i: nat)
    requires Execution(gs, es) && k < |gs| && i < |gs[k].states|
    ensures gs[k].states[i].ok <==> !HasFailed(es, k, i)
  {
    StartsInOrder();
    if k > 0 {
      EveryExecution(gs[0], gs, es, k - 1);
      hide AllOk;
      hide Can;
      hide SafeFor;
      hide After;
      hide Execution;
      hide HasFailed;
      StatusNext(gs[k - 1], es[k - 1], i);
      FailedNext(es, k - 1, i);
      if i < |gs[k - 1].states| {
        StatusIs(gs, es, k - 1, i);
      } else {
        NoneBeforeArrival(gs, es, k - 1, i);
      }
    }
  }

  /**
    If a request is completed, it is with success if and only if none of its pieces has
    failed; the pieces then tile the request, each in its place on the disk.
   */
  lemma SuccessTiles(gs: seq<System>, es: seq<Event>, k: nat, i: nat)
    requires Execution(gs, es) && k < |gs| && i < |gs[k].states| == |gs[k].requests|
    requires gs[k].states[i].completions == 1
    ensures gs[k].states[i].inFlight == {} && !gs[k].states[i].masterBusy
    ensures gs[k].states[i].ok <==> !HasFailed(es, k, i)
    ensures !HasFailed(es, k, i) ==> Tiles(gs[k].requests[i], gs[k].states[i].issued, gs[k].requests[i].vbo + gs[k].requests[i].byteCount)
  {
    StatusIs(gs, es, k, i);
    StartsInOrder();
    EveryExecution(gs[0], gs, es, k);
    hide HasFailed;
    var s := gs[k].states[i];
    assert Inv(gs[k].requests[i], s);
    NothingInFlight(s.inFlight);
  }

  /** A piece that has been cut to go out with the reserve MDL fits it. */
  predicate FitsReserve(q: Request, s: State) {
    match s.phase
    case Bounded(mdlIsReserve) => mdlIsReserve ==> s.nextByteCount <= q.reserveSize
    case Draining(mdlIsReserve) => mdlIsReserve ==> s.nextByteCount <= q.reserveSize
    case OnMaster(mdlIsReserve) => mdlIsReserve ==> s.nextByteCount <= q.reserveSize
    case _ => true
  }

  lemma FitsNext(q: Request, s: State, step: Step)
    requires Enabled(q, s, step) && Safe(q, s, step) && FitsReserve(q, s)
    ensures FitsReserve(q, Apply(q, s, step))
    ensures step.TakeReserve? ==> Trimmed(q, s, Apply(q, s, step))
  {
  }

  /** A piece is cut as long as the reserve MDL allows, and what is left of it follows. */
  predicate Trimmed(q: Request, s: State, s': State) {
    if s.nextByteCount <= q.reserveSize then s'.nextByteCount == s.nextByteCount && s'.remaining == 0
    else s'.nextByteCount == q.reserveSize && s'.nextByteCount + s'.remaining == s.nextByteCount
  }

  /** In every execution, no piece that goes out with the reserve MDL is longer than it, and none is cut shorter than it must be. */
  lemma {:induction false} PiecesFit(gs: seq<System>, es: seq<Event>, k: nat, i: nat)
    requires Execution(gs, es) && k < |gs| && i < |gs[k].states| == |gs[k].requests|
    ensures FitsReserve(gs[k].requests[i], gs[k].states[i])
    ensures k < |es| && es[k] == Move(i, TakeReserve) ==> i < |gs[k + 1].states| && Trimmed(gs[k].requests[i], gs[k].states[i], gs[k + 1].states[i])
  {
    StartsInOrder();
    hide AllOk;
    hide Enabled;
    hide Safe;
    hide Apply;
    hide Trimmed;
    EveryExecution(gs[0], gs, es, k);
    if k > 0 {
      var g, e := gs[k - 1], es[k - 1];
      EveryExecution(gs[0], gs, es, k - 1);
      SameLength(g);
      if e.Move? && e.i == i {
        PiecesFit(gs, es, k - 1, i);
        hide FitsReserve;
        FitsNext(g.requests[i], g.states[i], e.step);
      } else if i < |g.states| {
        PiecesFit(gs, es, k - 1, i);
        hide FitsReserve;
      }
    }
    if k < |es| && es[k] == Move(i, TakeReserve) && FitsReserve(gs[k].requests[i], gs[k].states[i]) {
      FitsNext(gs[k].requests[i], gs[k].states[i], TakeReserve);
    }
  }

  lemma SameLength(g: System)
    requires AllOk(g)
    ensures |g.requests| == |g.states|
  {
  }

  /** Whether an event puts a piece of request i on its way. */
  ghost predicate IssuesPiece(g: System, g': System, i: nat) {
    i < |g.states| && i < |g'.states| && g'.states[i].issued != g.states[i].issued
  }

  /** A request that will issue nothing more: the thread has left the loop, or is about to. */
  predicate Leaving(s: State) {
    s.phase.Bottom? || s.phase.Waiting? || s.phase.Done? || (s.phase.OnMaster? && !s.masterBusy && !s.ok)
  }

  lemma LeavingNext(q: Request, s: State, step: Step)
    requires Enabled(q, s, step) && Safe(q, s, step) && CountsOk(q, s)
    ensures Leaving(s) ==> Leaving(Apply(q, s, step)) && Apply(q, s, step).issued == s.issued
    ensures step.MasterDone? && !step.success ==> Leaving(Apply(q, s, step)) && Apply(q, s, step).issued == s.issued
  {
    hide Tiles;
  }

  /** Once a piece that went out on the master has failed, nothing more is issued. */
  lemma {:induction false} StopsAtFailure(gs: seq<System>, es: seq<Event>, k: nat, i: nat, j: nat)
    requires Execution(gs, es) && j < k < |gs| && es[j] == Move(i, MasterDone(false))
    ensures i < |gs[j].states| && i < |gs[k].states| && gs[k].states[i].issued == gs[j].states[i].issued && Leaving(gs[k].states[i])
  {
    StartsInOrder();
    EveryExecution(gs[0], gs, es, k - 1);
    if k - 1 > j {
      StopsAtFailure(gs, es, k - 1, i, j);
    }
    var g, e := gs[k - 1], es[k - 1];
    hide Leaving;
    if e.Move? && e.i == i {
      assert Inv(g.requests[i], g.states[i]);
      LeavingNext(g.requests[i], g.states[i], e.step);
    }
    hide Inv;
    hide Enabled;
    hide Safe;
    hide Apply;
  }

  /** A piece goes out on the master only if no piece has failed. */
  lemma MasterAfterSuccess(gs: seq<System>, es: seq<Event>, k: nat, i: nat)
    requires Execution(gs, es) && k < |es| && es[k] == Move(i, UseMaster)
    ensures i < |gs[k].states| && (IssuesPiece(gs[k], gs[k + 1], i) <==> !HasFailed(es, k, i))
  {
    StartsInOrder();
    EveryExecution(gs[0], gs, es, k);
    StatusIs(gs, es, k, i);
    hide HasFailed;
    hide AllOk;
  }

  /** No request can take a step. */
  ghost predicate Over(g: System) {
    forall i, step :: !Can(g, Move(i, step))
  }

  /** When all is over, every request has been completed, once, or waits for the reserve MDL, which then is lost. */
  lemma WhenOver(g: System, i: nat)
    requires AllOk(g) && Over(g) && i < |g.states|
    ensures Completed(g.states[i]) || (g.states[i].phase.Reserving? && g.states[i].completions == 0 && Lost(g))
    ensures !Holds(g.states[i])
  {
    hide Tiles;
    forall j: nat | j < |g.states| ensures Completed(g.states[j]) || (g.states[j].phase.Reserving? && g.states[j].inFlight == {}) {
      forall step ensures !(Enabled(g.requests[j], g.states[j], step) && !step.TakeReserve?) {
        assert !Can(g, Move(j, step));
      }
      if !Completed(g.states[j]) && (g.states[j].phase.Reserving? ==> g.states[j].inFlight != {}) {
        CanMove(g.requests[j], g.states[j]);
      }
    }
    assert Inv(g.requests[i], g.states[i]);
    if !Completed(g.states[i]) {
      assert Enabled(g.requests[i], g.states[i], TakeReserve) && !Can(g, Move(i, TakeReserve));
    }
  }

  /** The reserve MDL is lost, or in the hand of a request that shows a failure and so will lose it. */
  predicate Doomed(g: System) {
    !g.reserveFree && forall i :: 0 <= i < |g.states| && Holds(g.states[i]) ==> !g.states[i].ok
  }

  predicate Waits(g: System, i: nat) {
    i < |g.states| && g.states[i].phase.Reserving? && g.states[i].completions == 0
  }

  /** Whatever happens from now on, a request waits for the reserve MDL and is not completed. */
  ghost predicate StuckForever(g: System, i: nat) {
    forall gs, es, k :: From(g, gs, es) && 0 <= k < |gs| ==> Waits(gs[k], i)
  }

  /** A failure that a request shows stays, and a request that waits stays where it is until it takes the reserve MDL. */
  lemma StaysSo(q: Request, s: State, step: Step)
    requires Inv(q, s) && Enabled(q, s, step) && Safe(q, s, step)
    ensures !s.ok ==> !Apply(q, s, step).ok
    ensures s.phase.Reserving? && !step.TakeReserve? ==> Apply(q, s, step).phase.Reserving?
    ensures s.phase.Reserving? ==> s.completions == 0
  {
    hide Reached;
    hide Tiles;
    assert s.masterBusy ==> s.ok && s.phase.OnMaster?;
  }

  lemma DoomedNext(g: System, e: Event, i: nat)
    requires AllOk(g) && Can(g, e) && SafeFor(g, e) && Doomed(g) && i < |g.states| && g.states[i].phase.Reserving?
    ensures var g' := After(g, e); Doomed(g') && i < |g'.states| && g'.states[i].phase.Reserving?
  {
    hide Inv;
    hide Enabled;
    hide Safe;
    hide RequestOk;
    hide Start;
    hide Apply;
    match e
    case Arrive(q) =>
      StartHolds(q);
    case Move(j, step) =>
      StaysSo(g.requests[j], g.states[j], step);
      HoldsNext(g.requests[j], g.states[j], step);
      if GivesBack(g.states[j], step) {
        GivingBackOk(g.requests[j], g.states[j], step);
      }
      hide Holds;
      hide GivesBack;
  }

  lemma GivingBackOk(q: Request, s: State, step: Step)
    requires Inv(q, s) && GivesBack(s, step) && Enabled(q, s, step)
    ensures s.ok && Holds(s)
  {
    hide Reached;
  }

  lemma {:induction false} DoomedStays(g: System, gs: seq<System>, es: seq<Event>, i: nat, k: nat)
    requires AllOk(g) && Doomed(g) && i < |g.states| && g.states[i].phase.Reserving? && From(g, gs, es) && k < |gs|
    ensures Doomed(gs[k]) && i < |gs[k].states| && gs[k].states[i].phase.Reserving? && Waits(gs[k], i)
  {
    hide Doomed;
    hide From;
    FromStarts(g, gs, es);
    EveryExecution(g, gs, es, k);
    if k > 0 {
      DoomedStays(g, gs, es, i, k - 1);
      EveryExecution(g, gs, es, k - 1);
      hide AllOk;
      DoomedNext(gs[k - 1], es[k - 1], i);
    }
    WaitsUncompleted(gs[k], i);
  }

  lemma FromStarts(g: System, gs: seq<System>, es: seq<Event>)
    requires From(g, gs, es)
    ensures |gs| == |es| + 1 && gs[0] == g
  {
  }

  lemma WaitsUncompleted(g: System, i: nat)
    requires AllOk(g) && i < |g.states| && g.states[i].phase.Reserving?
    ensures Waits(g, i)
  {
    assert Inv(g.requests[i], g.states[i]);
    hide Reached;
    hide Tiles;
  }

  /** One event more in front of a run. */
  lemma Prepend(g: System, e: Event, gs: seq<System>, es: seq<Event>)
    requires Can(g, e) && SafeFor(g, e) && From(After(g, e), gs, es)
    ensures From(g, [g] + gs, [e] + es)
  {
    var gs', es' := [g] + gs, [e] + es;
    forall k | 0 <= k < |es'| ensures Follows(gs'[k], es'[k], gs'[k + 1]) {
      assert k > 0 ==> Follows(gs[k - 1], es[k - 1], gs[k]);
    }
    hide Can;
    hide SafeFor;
    hide After;
  }

  /** How far a thread is from being done with the piece it is at. */
  function Left(phase: Phase): nat {
    match phase
    case Top => 9
    case Reserving => 8
    case Bounded(_) => 7
    case Draining(_) => 6
    case OnMaster(_) => 4
    case Issued => 3
    case Bottom => 2
    case Waiting => 1
    case Done => 0
  }

  /** A bound on the steps that are left for a request. */
  function Rank(s: State): nat {
    10 * s.byteCount + Left(s.phase) + |s.inFlight| + if s.masterBusy then 1 else 0
  }

  lemma RankFalls(q: Request, s: State, step: Step)
    requires RequestOk(q) && Inv(q, s) && Enabled(q, s, step) && Safe(q, s, step)
    ensures Rank(Apply(q, s, step)) < Rank(s)
  {
    hide Inv;
    hide RequestOk;
    match step
    case Advance =>
      CutNotEmpty(q, s);
      RankAdvances(q, s);
    case LaunchAssociated => RankLaunches(q, s);
    case AssociatedDone(_, _) => RankCompletes(q, s, step);
    case _ => RankInPlace(q, s, step);
  }

  lemma RankAdvances(q: Request, s: State)
    requires Enabled(q, s, Advance) && Safe(q, s, Advance) && s.nextByteCount > 0
    ensures Rank(Apply(q, s, Advance)) < Rank(s)
  {
    hide Min;
    assert Apply(q, s, Advance).inFlight == s.inFlight;
  }

  lemma RankLaunches(q: Request, s: State)
    requires Enabled(q, s, LaunchAssociated) && Safe(q, s, LaunchAssociated)
    ensures Rank(Apply(q, s, LaunchAssociated)) < Rank(s)
  {
    hide Min;
    FlightGrows(s.inFlight, |s.issued|);
    assert Apply(q, s, LaunchAssociated).inFlight == s.inFlight + {|s.issued|};
  }

  lemma RankCompletes(q: Request, s: State, step: Step)
    requires step.AssociatedDone? && Enabled(q, s, step) && Safe(q, s, step)
    ensures Rank(Apply(q, s, step)) < Rank(s)
  {
    hide Min;
    FlightShrinks(s.inFlight, step.piece);
    assert Apply(q, s, step).inFlight == s.inFlight - {step.piece};
  }

  lemma RankInPlace(q: Request, s: State, step: Step)
    requires !step.Advance? && !step.LaunchAssociated? && !step.AssociatedDone? && Enabled(q, s, step) && Safe(q, s, step)
    ensures Rank(Apply(q, s, step)) < Rank(s)
  {
    hide Min;
    var s' := Apply(q, s, step);
    assert s'.byteCount == s.byteCount && s'.inFlight == s.inFlight;
    assert Left(s'.phase) + (if s'.masterBusy then 1 else 0) < Left(s.phase) + if s.masterBusy then 1 else 0;
  }

  lemma FlightGrows(inFlight: set<nat>, piece: nat)
    ensures |inFlight + {piece}| <= |inFlight| + 1
  {
  }

  lemma FlightShrinks(inFlight: set<nat>, piece: nat)
    requires piece in inFlight
    ensures |inFlight - {piece}| == |inFlight| - 1
  {
  }

  lemma CutNotEmpty(q: Request, s: State)
    requires Inv(q, s)
    ensures s.phase.Issued? ==> s.nextByteCount > 0
  {
    hide Tiles;
    hide CountsOk;
  }

  /** The next step of a request that has the reserve MDL, towards giving it back. */
  lemma HolderCanMove(q: Request, s: State) returns (step: Step)
    requires Inv(q, s) && Holds(s) && s.ok
    ensures Enabled(q, s, step) && !step.TakeReserve? && (Safe(q, s, step) ==> Apply(q, s, step).ok && !LosesReserve(s, step))
  {
    hide Tiles;
    NothingInFlight(s.inFlight);
    if s.inFlight != {} {
      var piece :| piece in s.inFlight;
      step := AssociatedDone(piece, true);
    } else {
      step := if s.phase.Bounded? then FallBack else if s.phase.OnMaster? then MasterDone(true) else UseMaster;
    }
  }

  /** A request that has the reserve MDL and shows no failure can give it back, by steps of its own. */
  lemma {:induction false} GivenBack(g: System, j: nat) returns (gs: seq<System>, es: seq<Event>)
    requires AllOk(g) && j < |g.states| && Holds(g.states[j]) && g.states[j].ok
    ensures From(g, gs, es) && AllOk(gs[|es|]) && gs[|es|].reserveFree && |gs[|es|].states| == |g.states|
    ensures forall i :: 0 <= i < |g.states| && i != j ==> gs[|es|].states[i] == g.states[i]
    decreases Rank(g.states[j])
  {
    var q, s := g.requests[j], g.states[j];
    assert Inv(q, s) && RequestOk(q);
    hide Inv;
    hide RequestOk;
    hide Rank;
    var step := HolderCanMove(q, s);
    var e := Move(j, step);
    EventKeeps(g, e);
    var g' := After(g, e);
    HoldsNext(q, s, step);
    RankFalls(q, s, step);
    assert g'.states[j] == Apply(q, s, step);
    hide AllOk;
    hide Enabled;
    hide Safe;
    hide Apply;
    hide Holds;
    hide LosesReserve;
    hide GivesBack;
    var gs1, es1;
    if GivesBack(s, step) {
      gs1, es1 := [g'], [];
    } else {
      gs1, es1 := GivenBack(g', j);
    }
    Prepend(g, e, gs1, es1);
    gs, es := [g] + gs1, [e] + es1;
  }

  /** A request that waits can get the reserve MDL, unless that is lost or about to be. */
  lemma CanBeServed(g: System, i: nat) returns (gs: seq<System>, es: seq<Event>)
    requires AllOk(g) && i < |g.states| && g.states[i].phase.Reserving? && !Doomed(g)
    ensures From(g, gs, es) && i < |gs[|es|].states| && !gs[|es|].states[i].phase.Reserving?
  {
    hide AllOk;
    hide From;
    var last;
    gs, es, last := FreeAgain(g, i);
    FreeToTake(last, i);
    gs, es := Extend(g, gs, es, Move(i, TakeReserve));
    TakenNow(last, i);
  }

  lemma TakenNow(g: System, i: nat)
    requires i < |g.states| && g.states[i].phase.Reserving? && Can(g, Move(i, TakeReserve)) && SafeFor(g, Move(i, TakeReserve))
    ensures var g' := After(g, Move(i, TakeReserve)); i < |g'.states| && !g'.states[i].phase.Reserving?
  {
  }

  lemma FreeAgain(g: System, i: nat) returns (gs: seq<System>, es: seq<Event>, last: System)
    requires AllOk(g) && i < |g.states| && g.states[i].phase.Reserving? && !Doomed(g)
    ensures From(g, gs, es) && last == gs[|es|] && AllOk(last) && last.reserveFree && i < |last.states| && last.states[i].phase.Reserving?
  {
    hide AllOk;
    if g.reserveFree {
      gs, es := [g], [];
    } else {
      var j :| 0 <= j < |g.states| && Holds(g.states[j]) && g.states[j].ok;
      gs, es := GivenBack(g, j);
    }
    last := gs[|es|];
  }

  lemma FreeToTake(g: System, i: nat)
    requires AllOk(g) && g.reserveFree && i < |g.states| && g.states[i].phase.Reserving?
    ensures Can(g, Move(i, TakeReserve))
  {
    hide Inv;
    hide RequestOk;
  }

  /** One event more at the end of a run. */
  lemma Extend(g: System, gs: seq<System>, es: seq<Event>, e: Event) returns (gs': seq<System>, es': seq<Event>)
    requires From(g, gs, es) && AllOk(g) && Can(gs[|es|], e)
    ensures From(g, gs', es') && AllOk(gs[|es|]) && SafeFor(gs[|es|], e) && AllOk(After(gs[|es|], e))
    ensures gs' == gs + [After(gs[|es|], e)] && es' == es + [e] && |gs'| == |es'| + 1 && gs'[|es'|] == After(gs[|es|], e)
  {
    EveryExecution(g, gs, es, |es|);
    EventKeeps(gs[|es|], e);
    gs', es' := gs + [After(gs[|es|], e)], es + [e];
    forall k | 0 <= k < |es'| ensures Follows(gs'[k], es'[k], gs'[k + 1]) {
      assert k < |es| ==> Follows(gs[k], es[k], gs[k + 1]);
    }
    hide Can;
    hide SafeFor;
    hide After;
  }

  /** A request is stuck for ever exactly when it waits for the reserve MDL and that is lost, or about to be. */
  lemma StuckIff(g: System, i: nat)
    requires AllOk(g) && i < |g.states|
    ensures StuckForever(g, i) <==> g.states[i].phase.Reserving? && Doomed(g)
  {
    hide AllOk;
    hide Doomed;
    assert From(g, [g], []);
    if !g.states[i].phase.Reserving? {
      assert !Waits([g][0], i);
    } else if Doomed(g) {
      forall gs, es, k: nat | From(g, gs, es) && 0 <= k < |gs| ensures Waits(gs[k], i) {
        DoomedStays(g, gs, es, i, k);
      }
    } else {
      var gs, es := CanBeServed(g, i);
      assert !Waits(gs[|es|], i);
      hide Waits;
      hide From;
    }
  }

  /** A request that has just arrived, and for which no MDL could be allocated. */
  ghost function WithWaiting(g: System, q: Request): System
    requires RequestOk(q)
  {
    System(g.requests + [q], g.states + [Apply(q, Start(q), MissMdl)], g.reserveFree)
  }

  lemma WaitingOk(g: System, q: Request)
    requires AllOk(g) && RequestOk(q)
    ensures var g' := WithWaiting(g, q);
      AllOk(g') && g'.states[|g.states|].phase.Reserving? && (Doomed(g') <==> Doomed(g))
  {
    var s := Apply(q, Start(q), MissMdl);
    var g' := WithWaiting(g, q);
    StartOk(q);
    StepKeeps(q, Start(q), MissMdl);
    hide Inv;
    hide RequestOk;
    hide Start;
    assert !Holds(s) && s.phase.Reserving?;
    assert forall i :: 0 <= i < |g.states| ==> g'.states[i] == g.states[i] && g'.requests[i] == g.requests[i];
    hide Apply;
    hide Holds;
  }

  /**
    In every execution that is over: no request has taken the losing step if and only if
    every request has been completed, once, and no request that arrives later and has to
    wait for the reserve MDL is stuck for ever.
   */
  lemma ServedIff(gs: seq<System>, es: seq<Event>)
    requires Execution(gs, es) && Over(gs[|es|])
    ensures Kept(gs, es, |es|) <==>
      var g := gs[|es|];
      && (forall i :: 0 <= i < |g.states| ==> Completed(g.states[i]))
      && forall q | RequestOk(q) :: !StuckForever(WithWaiting(g, q), |g.states|)
  {
    var g := gs[|es|];
    StartsInOrder();
    EveryExecution(gs[0], gs, es, |es|);
    LostIff(gs, es, |es|);
    hide AllOk;
    hide Execution;
    hide Kept;
    hide Over;
    hide RequestOk;
    hide Completed;
    hide StuckForever;
    forall i: nat | i < |g.states| ensures !Holds(g.states[i]) && (!Lost(g) ==> Completed(g.states[i])) {
      WhenOver(g, i);
    }
    hide Holds;
    forall q | RequestOk(q) ensures StuckForever(WithWaiting(g, q), |g.states|) <==> Lost(g) {
      WaitingOk(g, q);
      StuckIff(WithWaiting(g, q), |g.states|);
    }
    var q := SomeRequest();
    assert RequestOk(q);
  }

  lemma SomeRequest() returns (q: Request)
    ensures RequestOk(q)
  {
    q := Request([Extent(0, 0, 1), Extent(1, 0, 1)], 0, 2, 1);
    assert RunFollows(q.runs, 1);
  }

  /** A bound on all the steps that requests take. */
  function Work(requests: seq<Request>): nat {
    if requests == [] then 0 else Work(requests[..|requests| - 1]) + 10 * requests[|requests| - 1].byteCount + 9
  }

  function Ranks(states: seq<State>): nat {
    if states == [] then 0 else Ranks(states[..|states| - 1]) + Rank(states[|states| - 1])
  }

  lemma {:induction false} RanksUpdate(states: seq<State>, i: nat, s: State)
    requires i < |states|
    ensures Ranks(states[i := s]) + Rank(states[i]) == Ranks(states) + Rank(s)
  {
    hide Rank;
    var last := |states| - 1;
    if i < last {
      RanksUpdate(states[..last], i, s);
      assert states[i := s][..last] == states[..last][i := s];
    } else {
      assert states[i := s][..last] == states[..last];
    }
  }

  /** How many of the first k events are steps of requests. */
  function Moves(es: seq<Event>, k: nat): nat
    requires k <= |es|
  {
    if k == 0 then 0 else Moves(es, k - 1) + if es[k - 1].Move? then 1 else 0
  }

  /** One event: the steps taken and those left grow by no more than what a new request brings. */
  lemma WorkNext(g: System, e: Event)
    requires AllOk(g) && Can(g, e) && SafeFor(g, e)
    ensures var g' := After(g, e); (if e.Move? then 1 else 0) + Ranks(g'.states) + Work(g.requests) <= Ranks(g.states) + Work(g'.requests)
  {
    match e
    case Arrive(q) =>
      assert (g.requests + [q])[..|g.requests|] == g.requests;
      assert (g.states + [Start(q)])[..|g.states|] == g.states;
      hide Inv;
      hide RequestOk;
    case Move(i, step) =>
      assert RequestOk(g.requests[i]) && Inv(g.requests[i], g.states[i]);
      hide Inv;
      hide RequestOk;
      hide Enabled;
      hide Safe;
      RankFalls(g.requests[i], g.states[i], step);
      hide Apply;
      hide Rank;
      RanksUpdate(g.states, i, Apply(g.requests[i], g.states[i], step));
  }

  /** In every execution, the steps that have been taken and those that are left are bounded by the bytes asked for: all comes to an end. */
  lemma {:induction false} StepsBounded(gs: seq<System>, es: seq<Event>, k: nat)
    requires Execution(gs, es) && k < |gs|
    ensures Moves(es, k) + Ranks(gs[k].states) <= Work(gs[k].requests)
  {
    hide AllOk;
    hide After;
    hide Can;
    hide SafeFor;
    if k > 0 {
      StepsBounded(gs, es, k - 1);
      StartsInOrder();
      EveryExecution(gs[0], gs, es, k - 1);
      WorkNext(gs[k - 1], es[k - 1]);
      hide Follows;
      hide Work;
      hide Ranks;
    }
  }

  /** Steps of the only request of the driver, one after the other. */
  ghost predicate Alone(g: System, gs: seq<System>, es: seq<Event>, q: Request, s: State, reserveFree: bool) {
    From(g, gs, es) && gs[|es|] == System([q], [s], reserveFree)
  }

  lemma StepAlone(g: System, gs: seq<System>, es: seq<Event>, q: Request, s: State, reserveFree: bool, step: Step)
    returns (gs': seq<System>, es': seq<Event>, s': State, free': bool)
    requires AllOk(g) && Alone(g, gs, es, q, s, reserveFree) && Enabled(q, s, step) && (step.TakeReserve? ==> reserveFree)
    ensures Safe(q, s, step) && s' == Apply(q, s, step) && Alone(g, gs', es', q, s', free') && es' == es + [Move(0, step)]
    ensures free' == if step.TakeReserve? then false else if GivesBack(s, step) then true else reserveFree
    ensures gs' == gs + [gs'[|es'|]] && |gs'| == |gs| + 1 == |es| + 2
  {
    var e := Move(0, step);
    hide AllOk;
    gs', es' := Extend(g, gs, es, e);
    var last := gs[|es|];
    s' := Apply(q, s, step);
    free' := After(last, e).reserveFree;
    assert last.states[0 := s'] == [s'];
  }

  /**
    Every request can lose the reserve MDL: its first piece goes out on an associated IRP,
    no MDL can be allocated for the second, and the first piece fails before the thread
    looks at the status.
   */
  lemma CanLose(q: Request) returns (gs: seq<System>, es: seq<Event>)
    requires RequestOk(q)
    ensures Execution(gs, es) && gs[|es|].requests == [q] && es != [] && Loses(gs[|es| - 1], es[|es| - 1]) && Lost(gs[|es|])
  {
    StartsInOrder();
    hide AllOk;
    hide Alone;
    hide From;
    hide RequestOk;
    var g0 := System([], [], true);
    var s := FirstPieceOut(q);
    var free;
    gs, es := LaunchedAlone(q);
    gs, es, s, free := StepAlone(g0, gs, es, q, s, true, MissMdl);
    gs, es, s, free := StepAlone(g0, gs, es, q, s, free, TakeReserve);
    gs, es, s, free := StepAlone(g0, gs, es, q, s, free, FallBack);
    gs, es, s, free := StepAlone(g0, gs, es, q, s, free, AssociatedDone(0, false));
    var gs1, es1, s1, free1 := StepAlone(g0, gs, es, q, s, free, UseMaster);
    LostAlone(g0, gs, es, q, s, gs1, es1, s1);
    gs, es := gs1, es1;
  }

  /** A request whose first piece is on its way. */
  function FirstPieceOut(q: Request): (s: State)
    requires RequestOk(q)
    ensures s.phase.Top? && s.inFlight == {0} && s.ok && !s.masterBusy && s.irpCount + 1 == s.masterCount == |q.runs|
  {
    var run := q.runs[0];
    var count := Min(run.vbo + run.length - q.vbo, q.byteCount);
    State(Top, q.vbo + count, q.byteCount - count, 1, q.runs[1].lbo, q.runs[1].length, 0, |q.runs| - 1, |q.runs|, true, {0}, false,
      [Piece(q.vbo, run.lbo + (q.vbo - run.vbo), count)], 0)
  }

  lemma LaunchedAlone(q: Request) returns (gs: seq<System>, es: seq<Event>)
    requires RequestOk(q)
    ensures Alone(System([], [], true), gs, es, q, FirstPieceOut(q), true)
  {
    var g0 := System([], [], true);
    StartsInOrder();
    assert From(g0, [g0], []);
    gs, es := Extend(g0, [g0], [], Arrive(q));
    var s, free := Start(q), true;
    assert Alone(g0, gs, es, q, s, true);
    hide AllOk;
    hide Alone;
    hide From;
    hide RequestOk;
    gs, es, s, free := StepAlone(g0, gs, es, q, s, free, StartPiece);
    gs, es, s, free := StepAlone(g0, gs, es, q, s, free, LaunchAssociated);
    gs, es, s, free := StepAlone(g0, gs, es, q, s, free, Advance);
    assert s.inFlight == {0} && s.issued == FirstPieceOut(q).issued;
  }

  lemma LostAlone(g: System, gs: seq<System>, es: seq<Event>, q: Request, s: State, gs': seq<System>, es': seq<Event>, s': State)
    requires Alone(g, gs, es, q, s, false) && Alone(g, gs', es', q, s', false) && es' == es + [Move(0, UseMaster)]
    requires gs' == gs + [gs'[|es'|]] && |gs'| == |gs| + 1 == |es| + 2 && LosesReserve(s, UseMaster) && !Holds(s')
    ensures From(g, gs', es') && gs'[|es'|].requests == [q] && Loses(gs'[|es'| - 1], es'[|es'| - 1]) && Lost(gs'[|es'|])
  {
    assert gs'[|es|] == gs[|es|];
    hide Holds;
  }
}
