/** The subscription smoke script: its handlers and timers, and the server that stores the price. */
module Subscription {
  import opened Outcomes

  datatype Price = Price(amountMinor: int, compareAtMinor: int)

  const SEED := Price(1999, 2299)
  const CHANGED := Price(2199, 2499)

  datatype Update = CommitChange | RestoreSeed

  function PriceOf(update: Update): Price { if update.CommitChange? then CHANGED else SEED }

  // ----- the script -----

  /** The variables of the script, the commit timers that may still fire, and the updates requested. */
  datatype Script = Script(
    events: nat,
    acknowledged: bool,
    restored: bool,
    restoreStarted: bool,
    finished: bool,
    exit: Option<int>,
    timeoutArmed: bool,
    pending: set<nat>,
    timers: nat,
    commitTimer: Option<nat>,
    sent: seq<Update>
  )

  const STARTED := Script(0, false, false, false, false, None, true, {}, 0, None, [])

  /** `fail` and `succeed` differ in the exit code alone. */
  function Finish(s: Script, code: int): Script {
    if s.finished then s
    else s.(finished := true, timeoutArmed := false, exit := Some(code),
            pending := if s.commitTimer.Some? then s.pending - {s.commitTimer.value} else s.pending)
  }

  function AfterTimeout(s: Script): Script {
    var fired := s.(timeoutArmed := false);
    if s.events < 1 || !s.restored then Finish(fired, 1) else Finish(fired, 0)
  }

  /** Each acknowledgement arms one more commit timer. */
  function AfterAck(s: Script): Script {
    s.(acknowledged := true, pending := s.pending + {s.timers}, commitTimer := Some(s.timers), timers := s.timers + 1)
  }

  function AfterCommitTimer(s: Script, id: nat): Script {
    var fired := s.(pending := s.pending - {id});
    if s.finished then fired else fired.(sent := s.sent + [CommitChange])
  }

  function AfterNext(s: Script): Script {
    if s.restoreStarted then s.(events := s.events + 1)
    else s.(events := s.events + 1, restoreStarted := true, sent := s.sent + [RestoreSeed])
  }

  function AfterRestored(s: Script): Script { Finish(s.(restored := true), 0) }

  // ----- what every handler keeps -----

  ghost predicate AsksToRestore(sent: seq<Update>) { exists i | 0 <= i < |sent| :: sent[i].RestoreSeed? }

  ghost predicate AsksOnce(sent: seq<Update>) {
    forall i, j | 0 <= i < j < |sent| :: !(sent[i].RestoreSeed? && sent[j].RestoreSeed?)
  }

  /** The exit is set just when the script has finished, 0 only after an event and the restored price;
      restoring is asked for once at most, and only after an event. */
  ghost predicate ScriptSound(s: Script) {
    && (s.finished <==> s.exit.Some?)
    && (s.exit == Some(0) ==> s.events >= 1 && s.restored)
    && (s.restored ==> s.restoreStarted)
    && (s.restoreStarted ==> s.events >= 1)
    && (s.restoreStarted <==> AsksToRestore(s.sent))
    && AsksOnce(s.sent)
  }

  lemma Asking(sent: seq<Update>, update: Update)
    ensures AsksToRestore(sent + [update]) <==> AsksToRestore(sent) || update.RestoreSeed?
    ensures AsksOnce(sent) && (update.CommitChange? || !AsksToRestore(sent)) ==> AsksOnce(sent + [update])
  {
    var more := sent + [update];
    assert forall i | 0 <= i < |sent| :: more[i] == sent[i];
    assert more[|sent|] == update;
  }

  lemma FinishIsSound(s: Script, code: int)
    requires ScriptSound(s) && (code == 0 ==> s.events >= 1 && s.restored)
    ensures ScriptSound(Finish(s, code))
  {
  }

  lemma TimeoutIsSound(s: Script)
    requires ScriptSound(s)
    ensures ScriptSound(AfterTimeout(s))
  {
  }

  lemma AckIsSound(s: Script)
    requires ScriptSound(s)
    ensures ScriptSound(AfterAck(s))
  {
  }

  lemma CommitTimerIsSound(s: Script, id: nat)
    requires ScriptSound(s)
    ensures ScriptSound(AfterCommitTimer(s, id))
  {
    hide AsksToRestore, AsksOnce;
    Asking(s.sent, CommitChange);
  }

  lemma NextIsSound(s: Script)
    requires ScriptSound(s)
    ensures ScriptSound(AfterNext(s))
  {
    hide AsksToRestore, AsksOnce;
    Asking(s.sent, RestoreSeed);
  }

  lemma RestoredIsSound(s: Script)
    requires ScriptSound(s) && s.restoreStarted
    ensures ScriptSound(AfterRestored(s))
  {
  }

  class Client {
    var events: nat
    var acknowledged: bool
    var restored: bool
    var restoreStarted: bool
    var finished: bool
    var exit: Option<int>
    var timeoutArmed: bool
    var pending: set<nat>
    var timers: nat
    var commitTimer: Option<nat>
    var sent: seq<Update>

    function State(): Script
      reads this
    {
      Script(events, acknowledged, restored, restoreStarted, finished, exit, timeoutArmed, pending, timers,
             commitTimer, sent)
    }

    ghost predicate Valid()
      reads this
    {
      ScriptSound(State())
    }

    constructor ()
      ensures State() == STARTED && Valid()
    {
      events, acknowledged, restored, restoreStarted, finished := 0, false, false, false, false;
      exit, timeoutArmed, pending, timers, commitTimer, sent := None, true, {}, 0, None, [];
    }

    method ClearTimers()
      modifies this`timeoutArmed, this`pending
      ensures !timeoutArmed && (commitTimer.Some? ==> commitTimer.value !in pending)
      ensures pending == if commitTimer.Some? then old(pending) - {commitTimer.value} else old(pending)
    {
      timeoutArmed := false;
      if commitTimer.Some? {
        pending := pending - {commitTimer.value};
      }
    }

    /** Only the first decision on the exit counts. */
    method Fail()
      requires Valid()
      modifies this
      ensures Valid() && State() == Finish(old(State()), 1)
      ensures exit == if old(exit).Some? then old(exit) else Some(1)
      ensures old(exit).Some? ==> State() == old(State())
      ensures old(exit).None? ==> !timeoutArmed && (commitTimer.Some? ==> commitTimer.value !in pending)
    {
      if finished {
        return;
      }
      finished := true;
      ClearTimers();
      exit := Some(1);
      FinishIsSound(old(State()), 1);
    }

    method Succeed()
      requires Valid() && events >= 1 && restored
      modifies this
      ensures Valid() && State() == Finish(old(State()), 0)
      ensures exit == if old(exit).Some? then old(exit) else Some(0)
      ensures old(exit).Some? ==> State() == old(State())
      ensures old(exit).None? ==> !timeoutArmed && (commitTimer.Some? ==> commitTimer.value !in pending)
    {
      if finished {
        return;
      }
      finished := true;
      ClearTimers();
      exit := Some(0);
      FinishIsSound(old(State()), 0);
    }

    /** The last chance: a script still undecided succeeds exactly if the restored price was reported. */
    method OnTimeout()
      requires Valid() && timeoutArmed
      modifies this
      ensures Valid() && State() == AfterTimeout(old(State()))
      ensures exit.Some? && (old(exit).Some? ==> exit == old(exit))
      ensures old(exit).None? ==> (exit == Some(0) <==> restored)
      ensures exit == Some(0) ==> events >= 1 && restored
    {
      TimeoutIsSound(State());
      timeoutArmed := false;
      if events < 1 {
        Fail();
        return;
      }
      if !restored {
        Fail();
        return;
      }
      Succeed();
    }

    method OnAck()
      requires Valid()
      modifies this
      ensures Valid() && State() == AfterAck(old(State()))
      ensures commitTimer.Some? && commitTimer.value in pending && exit == old(exit) && sent == old(sent)
    {
      AckIsSound(State());
      acknowledged := true;
      pending, commitTimer, timers := pending + {timers}, Some(timers), timers + 1;
    }

    method OnCommitTimer(id: nat)
      requires Valid() && id in pending
      modifies this
      ensures Valid() && State() == AfterCommitTimer(old(State()), id)
      ensures id !in pending && (old(exit).Some? ==> sent == old(sent))
    {
      CommitTimerIsSound(State(), id);
      pending := pending - {id};
      if finished {
        return;
      }
      sent := sent + [CommitChange];
    }

    /** A `next` message of this subscription: after it restoring was asked for exactly once. */
    method OnNext()
      requires Valid()
      modifies this
      ensures Valid() && State() == AfterNext(old(State()))
      ensures events == old(events) + 1 && AsksToRestore(sent) && AsksOnce(sent)
      ensures AsksToRestore(old(sent)) ==> sent == old(sent)
    {
      NextIsSound(State());
      events := events + 1;
      if !restoreStarted {
        restoreStarted := true;
        sent := sent + [RestoreSeed];
      }
    }

    /** The restored price was reported, so it had been asked for. */
    method OnRestored()
      requires Valid() && restoreStarted
      modifies this
      ensures Valid() && State() == AfterRestored(old(State()))
      ensures restored && exit == if old(exit).Some? then old(exit) else Some(0)
    {
      RestoredIsSound(State());
      restored := true;
      Succeed();
    }

    method OnClose()
      requires Valid()
      modifies this
      ensures Valid() && State() == Finish(old(State()), 1)
      ensures exit == if old(exit).Some? then old(exit) else Some(1)
    {
      if !finished {
        Fail();
      }
    }
  }

  // ----- the script and the server -----

  /** `applied` and `answered` hold the places of the updates the server has carried out, and of those
      the script has heard of. */
  datatype World = World(script: Script, price: Price, applied: set<nat>, answered: set<nat>)

  /** Success is reported only for an update that was carried out; an error may be reported for any. */
  datatype Event =
    | Ack
    | Next
    | OtherMessage
    | ErrorMessage
    | Closed
    | SocketError
    | Timeout
    | CommitTimer(id: nat)
    | Applies(update: nat)
    | Reports(update: nat)
    | ReportsError(update: nat)
    | ForeignWrite(price: Price)

  predicate CanHappen(w: World, e: Event) {
    match e
    case Timeout => w.script.timeoutArmed
    case CommitTimer(id) => id in w.script.pending
    case Applies(i) => i < |w.script.sent| && i !in w.applied
    case Reports(i) => i < |w.script.sent| && i in w.applied && i !in w.answered
    case ReportsError(i) => i < |w.script.sent| && i !in w.answered
    case _ => true
  }

  function Step(w: World, e: Event): World
    requires CanHappen(w, e)
  {
    match e
    case Ack => w.(script := AfterAck(w.script))
    case Next => w.(script := AfterNext(w.script))
    case OtherMessage => w
    case ErrorMessage => w.(script := Finish(w.script, 1))
    case Closed => w.(script := Finish(w.script, 1))
    case SocketError => w.(script := Finish(w.script, 1))
    case Timeout => w.(script := AfterTimeout(w.script))
    case CommitTimer(id) => w.(script := AfterCommitTimer(w.script, id))
    case Applies(i) => w.(price := PriceOf(w.script.sent[i]), applied := w.applied + {i})
    case Reports(i) =>
      var heard := w.(answered := w.answered + {i});
      if w.script.sent[i].RestoreSeed? then heard.(script := AfterRestored(w.script)) else heard
    case ReportsError(i) => w.(answered := w.answered + {i}, script := Finish(w.script, 1))
    case ForeignWrite(price) => w.(price := price)
  }

  function Begin(price: Price): World { World(STARTED, price, {}, {}) }

  /** The worlds a history runs through, its last the one it leads to. */
  ghost predicate Runs(worlds: seq<World>, events: seq<Event>) {
    && |worlds| == |events| + 1
    && forall i | 0 <= i < |events| :: CanHappen(worlds[i], events[i]) && worlds[i + 1] == Step(worlds[i], events[i])
  }

  // ----- every history -----

  ghost predicate Sound(w: World) {
    && ScriptSound(w.script)
    && (forall i | i in w.applied :: i < |w.script.sent|)
    && (w.script.restored ==> RestoreApplied(w))
  }

  ghost predicate RestoreApplied(w: World) {
    exists i | 0 <= i < |w.script.sent| :: w.script.sent[i].RestoreSeed? && i in w.applied
  }

  lemma StepKeepsApplied(w: World, e: Event)
    requires CanHappen(w, e)
    ensures w.script.sent <= Step(w, e).script.sent && w.applied <= Step(w, e).applied
    ensures RestoreApplied(w) ==> RestoreApplied(Step(w, e))
  {
    var next := Step(w, e);
    assert forall i | 0 <= i < |w.script.sent| :: next.script.sent[i] == w.script.sent[i];
  }

  lemma ScriptStepIsSound(w: World, e: Event)
    requires Sound(w) && CanHappen(w, e)
    ensures ScriptSound(Step(w, e).script)
  {
    hide ScriptSound, Finish, AfterTimeout, AfterAck, AfterCommitTimer, AfterNext, AfterRestored, RestoreApplied;
    var s := w.script;
    match e
    case Ack => AckIsSound(s);
    case Next => NextIsSound(s);
    case ErrorMessage => FinishIsSound(s, 1);
    case Closed => FinishIsSound(s, 1);
    case SocketError => FinishIsSound(s, 1);
    case Timeout => TimeoutIsSound(s);
    case CommitTimer(id) => CommitTimerIsSound(s, id);
    case Reports(i) =>
      if s.sent[i].RestoreSeed? {
        SentMeansStarted(s, i);
        RestoredIsSound(s);
      }
    case ReportsError(i) => FinishIsSound(s, 1);
    case _ =>
  }

  lemma SentMeansStarted(s: Script, i: nat)
    requires ScriptSound(s) && i < |s.sent| && s.sent[i].RestoreSeed?
    ensures s.restoreStarted
  {
  }

  lemma StepIsSound(w: World, e: Event)
    requires Sound(w) && CanHappen(w, e)
    ensures Sound(Step(w, e))
  {
    hide ScriptSound;
    ScriptStepIsSound(w, e);
    StepKeepsApplied(w, e);
    if e.Reports? {
      assert w.script.sent[e.update].RestoreSeed? ==> RestoreApplied(w);
    }
  }

  /** An error message, a closed or failing socket and an update reported as failed leave an undecided script with
      exit 1 and no timer, and a decided one as it was. */
  lemma FailuresExit(w: World, e: Event)
    requires Sound(w) && CanHappen(w, e) && (e.ErrorMessage? || e.Closed? || e.SocketError? || e.ReportsError?)
    ensures var (s, t) := (w.script, Step(w, e).script);
            && (s.exit.Some? ==> t == s)
            && (s.exit.None? ==> t.finished && t.exit == Some(1) && !t.timeoutArmed
                                 && t.pending == s.pending - (if s.commitTimer.Some? then {s.commitTimer.value}
                                       else {}))
            && t.sent == s.sent && t.events == s.events && t.restored == s.restored
    ensures Step(w, e).price == w.price && Step(w, e).applied == w.applied
    ensures Step(w, e).answered == w.answered + (if e.ReportsError? then {e.update} else {})
  {
    hide RestoreApplied;
  }

  /** What the other events lead to. */
  lemma StepIs(w: World, e: Event)
    requires Sound(w) && CanHappen(w, e)
    ensures var (s, t) := (w.script, Step(w, e).script);
            match e
            case Ack => t == s.(acknowledged := true, timers := s.timers + 1, commitTimer := Some(s.timers),
                                pending := s.pending + {s.timers})
            case Next =>
              && t.events == s.events + 1 && t.exit == s.exit && t.pending == s.pending
              && t.sent == if exists i | 0 <= i < |s.sent| ::
                    s.sent[i].RestoreSeed? then s.sent else s.sent + [RestoreSeed]
            case Timeout =>
              && !t.timeoutArmed && t.sent == s.sent
              && t.exit == (if s.exit.Some? then s.exit else if s.restored then Some(0) else Some(1))
            case CommitTimer(id) =>
              && t.exit == s.exit && t.pending == s.pending - {id}
              && t.sent == if s.exit.Some? then s.sent else s.sent + [CommitChange]
            case Reports(i) =>
              if s.sent[i].CommitChange? then t == s
              else t.restored && t.sent == s.sent && t.exit == if s.exit.Some? then s.exit else Some(0)
            case OtherMessage => t == s
            case Applies(i) => t == s
            case ForeignWrite(price) => t == s
            case _ => true
    ensures match e
            case Applies(i) =>
              && Step(w, e).price == (if w.script.sent[i].CommitChange? then Price(2199, 2499) else Price(1999, 2299))
              && Step(w, e).applied == w.applied + {i}
            case ForeignWrite(price) => Step(w, e).price == price && Step(w, e).applied == w.applied
            case _ => Step(w, e).price == w.price && Step(w, e).applied == w.applied
    ensures Step(w, e).answered == w.answered + (if e.Reports? || e.ReportsError? then {e.update} else {})
  {
    hide RestoreApplied, AsksOnce;
  }

  lemma StepKeepsExit(w: World, e: Event)
    requires Sound(w) && CanHappen(w, e)
    ensures w.script.exit.Some? ==> Step(w, e).script.exit == w.script.exit
  {
  }

  lemma {:induction false} RunsAreSound(worlds: seq<World>, events: seq<Event>, price: Price)
    requires Runs(worlds, events) && worlds[0] == Begin(price)
    ensures forall i | 0 <= i < |worlds| :: Sound(worlds[i])
    decreases |events|
  {
    if events != [] {
      var n := |events| - 1;
      RunsAreSound(worlds[..n + 1], events[..n], price);
      assert worlds[n] == worlds[..n + 1][n];
      StepIsSound(worlds[n], events[n]);
    }
  }

  lemma {:induction false} ExitStays(worlds: seq<World>, events: seq<Event>, i: nat, j: nat)
    requires Runs(worlds, events) && i <= j < |worlds| && worlds[i].script.exit.Some?
    requires forall k | 0 <= k < |worlds| :: Sound(worlds[k])
    ensures worlds[j].script.exit == worlds[i].script.exit
    decreases j - i
  {
    hide Sound, Step, CanHappen;
    if i < j {
      ExitStays(worlds, events, i, j - 1);
      StepKeepsExit(worlds[j - 1], events[j - 1]);
    }
  }

  /** In every history the exit is decided once, restoring is asked for at most once, and exit 0 means
      an event was seen and the restored price was carried out and reported. */
  lemma ScriptIsSound(worlds: seq<World>, events: seq<Event>, price: Price, i: nat, j: nat)
    requires Runs(worlds, events) && worlds[0] == Begin(price) && i <= j < |worlds|
    ensures worlds[i].script.exit.Some? ==> worlds[j].script.exit == worlds[i].script.exit
    ensures AsksOnce(worlds[j].script.sent)
    ensures worlds[j].script.exit == Some(0) ==> worlds[j].script.events >= 1 && RestoreApplied(worlds[j])
  {
    RunsAreSound(worlds, events, price);
    if worlds[i].script.exit.Some? {
      ExitStays(worlds, events, i, j);
    }
  }

  // ----- which price is left -----

  /** Step `j` carries an update of this kind out. */
  ghost predicate CarriesOut(worlds: seq<World>, events: seq<Event>, j: nat, update: Update)
    requires |worlds| == |events| + 1
  {
    && j < |events| && events[j].Applies?
    && events[j].update < |worlds[j].script.sent| && worlds[j].script.sent[events[j].update] == update
  }

  ghost predicate NoForeignWrite(events: seq<Event>) { forall e | e in events :: !e.ForeignWrite? }

  lemma {:induction false} AppliedStays(worlds: seq<World>, events: seq<Event>, k: nat, n: nat)
    requires Runs(worlds, events) && k <= n <= |events|
    ensures worlds[k].applied <= worlds[n].applied && worlds[k].script.sent <= worlds[n].script.sent
    decreases n
  {
    hide Step, CanHappen;
    if k < n {
      StepKeepsApplied(worlds[n - 1], events[n - 1]);
      AppliedStays(worlds, events, k, n - 1);
    }
  }

  lemma CarriedOutStays(worlds: seq<World>, events: seq<Event>, k: nat, n: nat)
    requires Runs(worlds, events) && k < n <= |events| && events[k].Applies?
    ensures events[k].update in worlds[n].applied
    ensures events[k].update < |worlds[k].script.sent| && worlds[k].script.sent <= worlds[n].script.sent
  {
    assert CanHappen(worlds[k], events[k]) && worlds[k + 1] == Step(worlds[k], events[k]);
    AppliedStays(worlds, events, k, n);
    AppliedStays(worlds, events, k + 1, n);
  }

  /** The restored price is carried out no second time. */
  lemma RestoredOnce(worlds: seq<World>, events: seq<Event>, k: nat, n: nat)
    requires Runs(worlds, events) && k < n < |events| && Sound(worlds[n])
    requires CarriesOut(worlds, events, k, RestoreSeed)
    ensures !CarriesOut(worlds, events, n, RestoreSeed)
  {
    CarriedOutStays(worlds, events, k, n);
    var i := events[k].update;
    assert worlds[n].script.sent[i].RestoreSeed?;
    assert CanHappen(worlds[n], events[n]);
  }

  /** Without another writer, once the restored price is carried out at step `k` it stays exactly until
      the change is carried out after it. */
  lemma {:induction false} PriceAfterRestore(worlds: seq<World>, events: seq<Event>, price: Price, k: nat, n: nat)
    requires Runs(worlds, events) && worlds[0] == Begin(price) && NoForeignWrite(events)
    requires CarriesOut(worlds, events, k, RestoreSeed) && k < n <= |events|
    ensures worlds[n].price == SEED
       <==> forall j: nat | k < j < n :: !CarriesOut(worlds, events, j, CommitChange)
    decreases n
  {
    hide Sound, Finish, AfterTimeout, AfterAck, AfterCommitTimer, AfterNext, AfterRestored;
    var last := n - 1;
    assert events[last] in events && CanHappen(worlds[last], events[last]);
    if k < last {
      PriceAfterRestore(worlds, events, price, k, last);
      RunsAreSound(worlds, events, price);
      RestoredOnce(worlds, events, k, last);
      if CarriesOut(worlds, events, last, CommitChange) {
        assert worlds[n].price == CHANGED;
      } else {
        assert !events[last].Applies?;
        assert worlds[n].price == worlds[last].price;
      }
    }
  }

  /** An update that was carried out was so at some step. */
  lemma {:induction false} CarriedOutAt(worlds: seq<World>, events: seq<Event>, price: Price, n: nat, i: nat)
    returns (k: nat)
    requires Runs(worlds, events) && worlds[0] == Begin(price) && n <= |events|
    requires i < |worlds[n].script.sent| && i in worlds[n].applied
    ensures k < n && events[k] == Applies(i) && CarriesOut(worlds, events, k, worlds[n].script.sent[i])
    decreases n
  {
    StepKeepsApplied(worlds[n - 1], events[n - 1]);
    if events[n - 1] == Applies(i) {
      k := n - 1;
    } else {
      assert i in worlds[n - 1].applied;
      AppliedWasSent(worlds, events, price, n - 1, i);
      k := CarriedOutAt(worlds, events, price, n - 1, i);
    }
  }

  lemma AppliedWasSent(worlds: seq<World>, events: seq<Event>, price: Price, n: nat, i: nat)
    requires Runs(worlds, events) && worlds[0] == Begin(price) && n <= |events| && i in worlds[n].applied
    ensures i < |worlds[n].script.sent|
  {
    RunsAreSound(worlds, events, price);
  }

  /** Up to step `n` the restored price was carried out, and the change not after it. */
  ghost predicate RestoredLast(worlds: seq<World>, events: seq<Event>, n: nat)
    requires |worlds| == |events| + 1
  {
    exists k: nat | k < n && CarriesOut(worlds, events, k, RestoreSeed) ::
      forall j: nat | k < j < n :: !CarriesOut(worlds, events, j, CommitChange)
  }

  lemma RestoreStep(worlds: seq<World>, events: seq<Event>, price: Price, n: nat) returns (k: nat)
    requires Runs(worlds, events) && worlds[0] == Begin(price) && n <= |events|
    requires worlds[n].script.exit == Some(0)
    ensures k < n && CarriesOut(worlds, events, k, RestoreSeed)
  {
    ScriptIsSound(worlds, events, price, n, n);
    var i :| 0 <= i < |worlds[n].script.sent| && worlds[n].script.sent[i].RestoreSeed? && i in worlds[n].applied;
    k := CarriedOutAt(worlds, events, price, n, i);
  }

  /** Without another writer, a script that exited with 0 leaves the seed price exactly if the server
      carried the restored price out after every change. */
  lemma ExitZeroRestoresIff(worlds: seq<World>, events: seq<Event>, price: Price, n: nat)
    requires Runs(worlds, events) && worlds[0] == Begin(price) && NoForeignWrite(events) && n <= |events|
    requires worlds[n].script.exit == Some(0)
    ensures worlds[n].price == SEED <==> RestoredLast(worlds, events, n)
  {
    var k := RestoreStep(worlds, events, price, n);
    PriceAfterRestore(worlds, events, price, k, n);
    if RestoredLast(worlds, events, n) {
      var m: nat :| m < n && CarriesOut(worlds, events, m, RestoreSeed)
                    && forall j: nat | m < j < n :: !CarriesOut(worlds, events, j, CommitChange);
      PriceAfterRestore(worlds, events, price, m, n);
    }
  }

  // ----- histories in which the server keeps to the protocol -----

  ghost predicate CommitApplied(w: World) {
    exists i | 0 <= i < |w.script.sent| :: w.script.sent[i].CommitChange? && i in w.applied
  }

  /** One acknowledgement, no other writer, and events only of the script's committed change. */
  ghost predicate Orderly(w: World, e: Event) {
    && (e.Ack? ==> !w.script.acknowledged)
    && !e.ForeignWrite?
    && (e.Next? ==> CommitApplied(w))
  }

  /** The change is asked for once, by the one timer of the one acknowledgement. */
  ghost predicate ScriptInOrder(s: Script) {
    && (!s.acknowledged ==> s.pending == {} && s.timers == 0 && s.commitTimer.None?)
    && (s.pending != {} ==> s.pending == {0} && s.timers == 1)
    && (s.pending != {} ==> forall i | 0 <= i < |s.sent| :: !s.sent[i].CommitChange?)
    && (s.acknowledged ==> s.timers == 1)
    && (!s.acknowledged ==> s.sent == [])
    && (forall i, j | 0 <= i < j < |s.sent| :: !(s.sent[i].CommitChange? && s.sent[j].CommitChange?))
  }

  ghost predicate InOrder(w: World) {
    ScriptInOrder(w.script) && (w.script.restoreStarted ==> CommitApplied(w))
  }

  lemma StepKeepsScriptOrder(w: World, e: Event)
    requires ScriptInOrder(w.script) && CanHappen(w, e) && Orderly(w, e)
    ensures ScriptInOrder(Step(w, e).script)
  {
    var t := Step(w, e).script;
    assert forall i | 0 <= i < |w.script.sent| :: t.sent[i] == w.script.sent[i];
  }

  lemma StepKeepsCommit(w: World, e: Event)
    requires CanHappen(w, e) && CommitApplied(w)
    ensures CommitApplied(Step(w, e))
  {
    var k :| 0 <= k < |w.script.sent| && w.script.sent[k].CommitChange? && k in w.applied;
    assert Step(w, e).script.sent[k].CommitChange? && k in Step(w, e).applied;
  }

  lemma StepKeepsOrder(w: World, e: Event)
    requires Sound(w) && InOrder(w) && CanHappen(w, e) && Orderly(w, e)
    ensures InOrder(Step(w, e))
  {
    hide CommitApplied, ScriptInOrder;
    StepKeepsScriptOrder(w, e);
    if CommitApplied(w) {
      StepKeepsCommit(w, e);
    }
    assert Step(w, e).script.restoreStarted ==> w.script.restoreStarted || e.Next?;
  }

  lemma {:induction false} RunsKeepOrder(worlds: seq<World>, events: seq<Event>, price: Price)
    requires Runs(worlds, events) && worlds[0] == Begin(price)
    requires forall i | 0 <= i < |events| :: Orderly(worlds[i], events[i])
    ensures forall i | 0 <= i < |worlds| :: InOrder(worlds[i])
    decreases |events|
  {
    if events != [] {
      var n := |events| - 1;
      assert forall i | 0 <= i <= n :: worlds[..n + 1][i] == worlds[i];
      RunsKeepOrder(worlds[..n + 1], events[..n], price);
      RunsAreSound(worlds, events, price);
      assert worlds[n] == worlds[..n + 1][n];
      StepKeepsOrder(worlds[n], events[n]);
    }
  }

  /** In such a history nothing changes the price after the restored one. */
  lemma ChangeComesFirst(worlds: seq<World>, events: seq<Event>, k: nat, j: nat)
    requires Runs(worlds, events) && k < j < |events| && CarriesOut(worlds, events, k, RestoreSeed)
    requires Sound(worlds[k]) && InOrder(worlds[k]) && InOrder(worlds[j])
    ensures !CarriesOut(worlds, events, j, CommitChange)
  {
    SentMeansStarted(worlds[k].script, events[k].update);
    var i :| 0 <= i < |worlds[k].script.sent| && worlds[k].script.sent[i].CommitChange? && i in worlds[k].applied;
    AppliedStays(worlds, events, k, j);
    assert worlds[j].script.sent[i].CommitChange?;
    assert CanHappen(worlds[j], events[j]);
  }

  /** With one acknowledgement, no other writer, and events only after the committed change, a script
      that exits with 0 leaves the seed price stored, from then on. */
  lemma ExitZeroRestores(worlds: seq<World>, events: seq<Event>, price: Price, n: nat)
    requires Runs(worlds, events) && worlds[0] == Begin(price) && n <= |events|
    requires forall i | 0 <= i < |events| :: Orderly(worlds[i], events[i])
    requires worlds[n].script.exit == Some(0)
    ensures worlds[n].price == SEED
  {
    RunsAreSound(worlds, events, price);
    RunsKeepOrder(worlds, events, price);
    var k := RestoreStep(worlds, events, price, n);
    forall j: nat | k < j < n
      ensures !CarriesOut(worlds, events, j, CommitChange)
    {
      ChangeComesFirst(worlds, events, k, j);
    }
    assert RestoredLast(worlds, events, n);
    ExitZeroRestoresIff(worlds, events, price, n);
  }

  // ----- the assumptions are needed -----

  lemma OneStep(worlds: seq<World>, events: seq<Event>, e: Event)
    returns (after: seq<World>, more: seq<Event>, w: World)
    requires Runs(worlds, events) && CanHappen(worlds[|events|], e)
    ensures more == events + [e] && w == Step(worlds[|events|], e)
    ensures Runs(after, more) && after[0] == worlds[0] && after[|more|] == w
  {
    w := Step(worlds[|events|], e);
    after, more := worlds + [w], events + [e];
  }

  lemma Beginning(price: Price) returns (worlds: seq<World>, events: seq<Event>)
    ensures worlds == [Begin(price)] && events == [] && Runs(worlds, events)
  {
    worlds, events := [Begin(price)], [];
  }

  lemma ChangeCarriedOut() returns (worlds: seq<World>, events: seq<Event>)
    ensures Runs(worlds, events) && worlds[0] == Begin(SEED)
    ensures events == [Ack, CommitTimer(0), Applies(0)]
    ensures var script := STARTED.(acknowledged := true, timers := 1, commitTimer := Some(0), sent := [CommitChange]);
            worlds[3] == World(script, CHANGED, {0}, {})
  {
    hide Runs;
    worlds, events := Beginning(SEED);
    var w;
    worlds, events, w := OneStep(worlds, events, Ack);
    worlds, events, w := OneStep(worlds, events, CommitTimer(0));
    worlds, events, w := OneStep(worlds, events, Applies(0));
  }

  /** The intended course ends with exit 0 and the seed price. */
  lemma IntendedCourse() returns (worlds: seq<World>, events: seq<Event>)
    ensures Runs(worlds, events) && worlds[0] == Begin(SEED)
    ensures events == [Ack, CommitTimer(0), Applies(0), Reports(0), Next, Applies(1), Reports(1)]
    ensures worlds[|events|].script.exit == Some(0) && worlds[|events|].price == SEED
  {
    hide Runs;
    worlds, events := ChangeCarriedOut();
    var w;
    worlds, events, w := OneStep(worlds, events, Reports(0));
    worlds, events, w := OneStep(worlds, events, Next);
    worlds, events, w := OneStep(worlds, events, Applies(1));
    worlds, events, w := OneStep(worlds, events, Reports(1));
  }

  lemma TwoChangesAskedFor() returns (worlds: seq<World>, events: seq<Event>)
    ensures Runs(worlds, events) && worlds[0] == Begin(SEED)
    ensures events == [Ack, Ack, CommitTimer(0), CommitTimer(1)]
    ensures var asked := [CommitChange, CommitChange];
            var script := STARTED.(acknowledged := true, timers := 2, commitTimer := Some(1), sent := asked);
            worlds[4] == World(script, SEED, {}, {})
  {
    hide Runs;
    worlds, events := Beginning(SEED);
    var w;
    worlds, events, w := OneStep(worlds, events, Ack);
    worlds, events, w := OneStep(worlds, events, Ack);
    worlds, events, w := OneStep(worlds, events, CommitTimer(0));
    worlds, events, w := OneStep(worlds, events, CommitTimer(1));
  }

  /** A second acknowledgement asks for the change twice, and the second can outlive the restored price. */
  lemma TwoAcknowledgements() returns (worlds: seq<World>, events: seq<Event>)
    ensures Runs(worlds, events) && worlds[0] == Begin(SEED)
    ensures events == [Ack, Ack, CommitTimer(0), CommitTimer(1), Applies(0), Next, Applies(2), Applies(1), Reports(2)]
    ensures worlds[|events|].script.exit == Some(0) && worlds[|events|].price == CHANGED
  {
    hide Runs;
    worlds, events := TwoChangesAskedFor();
    var w;
    worlds, events, w := OneStep(worlds, events, Applies(0));
    worlds, events, w := OneStep(worlds, events, Next);
    worlds, events, w := OneStep(worlds, events, Applies(2));
    worlds, events, w := OneStep(worlds, events, Applies(1));
    worlds, events, w := OneStep(worlds, events, Reports(2));
  }

  /** An event from before the change restores the price too early. */
  lemma EarlyEvent() returns (worlds: seq<World>, events: seq<Event>)
    ensures Runs(worlds, events) && worlds[0] == Begin(SEED)
    ensures events == [Ack, CommitTimer(0), Next, Applies(1), Applies(0), Reports(1)]
    ensures worlds[|events|].script.exit == Some(0) && worlds[|events|].price == CHANGED
  {
    hide Runs;
    worlds, events := Beginning(SEED);
    var w;
    worlds, events, w := OneStep(worlds, events, Ack);
    worlds, events, w := OneStep(worlds, events, CommitTimer(0));
    worlds, events, w := OneStep(worlds, events, Next);
    worlds, events, w := OneStep(worlds, events, Applies(1));
    worlds, events, w := OneStep(worlds, events, Applies(0));
    worlds, events, w := OneStep(worlds, events, Reports(1));
  }

  /** Another writer can leave any price behind. */
  lemma AnotherWriter(price: Price) returns (worlds: seq<World>, events: seq<Event>)
    ensures Runs(worlds, events) && worlds[0] == Begin(SEED)
    ensures events == [Ack, CommitTimer(0), Applies(0), Next, Applies(1), ForeignWrite(price), Reports(1)]
    ensures worlds[|events|].script.exit == Some(0) && worlds[|events|].price == price
  {
    hide Runs;
    worlds, events := ChangeCarriedOut();
    var w;
    worlds, events, w := OneStep(worlds, events, Next);
    worlds, events, w := OneStep(worlds, events, Applies(1));
    worlds, events, w := OneStep(worlds, events, ForeignWrite(price));
    worlds, events, w := OneStep(worlds, events, Reports(1));
  }
}
