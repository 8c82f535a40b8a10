/**
 Threads sharing a file descriptor: any number may use it at once, one may close it. The counter of users is
 incremented under the file's lock but decremented without it.
 */
module DescriptorTickets {

  /** Where a thread is: outside, in `DeeFileFD_ACQUIRE_SHARED`, with a ticket, or in `close`. */
  datatype Place =
    | Outside
    | Entering
    | Granted
    | Using
    | Closing
    | Waiting
    | Exclusive
    | Destroyed
    | Cleared

  /** `destroyed` counts how often the descriptor was given back to the system. */
  datatype World = World(lock: bool, valid: bool, users: int, destroyed: nat, place: map<nat, Place>)

  datatype Action =
    | Lock(t: nat, close: bool)
    | Check(t: nat)
    | Unlock(t: nat)
    | Release(t: nat)
    | Quit(t: nat)
    | Clear(t: nat)

  predicate Start(w: World) {
    !w.lock && w.valid && w.users == 0 && w.destroyed == 0 && forall t :: t in w.place ==> w.place[t] == Outside
  }

  predicate Enabled(w: World, a: Action) {
    a.t in w.place &&
    match a
    case Lock(t, close) => !w.lock && (w.place[t] == Outside || (close && w.place[t] == Waiting))
    case Check(t) => w.place[t] == Entering || w.place[t] == Closing
    case Unlock(t) => w.place[t] == Granted || w.place[t] == Cleared
    case Release(t) => w.place[t] == Using
    case Quit(t) => w.place[t] == Exclusive
    case Clear(t) => w.place[t] == Destroyed
  }

  function Move(w: World, t: nat, p: Place): World {
    w.(place := w.place[t := p])
  }

  function Step(w: World, a: Action): World
    requires Enabled(w, a)
  {
    match a
    case Lock(t, close) => Move(w, t, if close then Closing else Entering).(lock := true)
    case Check(t) =>
      if !w.valid then Move(w, t, Outside).(lock := false)
      else if w.place[t] == Entering then Move(w, t, Granted).(users := w.users + 1)
      else if w.users == 0 then Move(w, t, Exclusive)
      else Move(w, t, Waiting).(lock := false)
    case Unlock(t) => Move(w, t, if w.place[t] == Granted then Using else Outside).(lock := false)
    case Release(t) => Move(w, t, Outside).(users := w.users - 1)
    case Quit(t) => Move(w, t, Destroyed).(destroyed := w.destroyed + 1)
    case Clear(t) => Move(w, t, Cleared).(valid := false)
  }

  ghost predicate Schedule(w: World, actions: seq<Action>)
    decreases actions
  {
    actions == [] || (Enabled(w, actions[0]) && Schedule(Step(w, actions[0]), actions[1..]))
  }

  ghost function Final(w: World, actions: seq<Action>): World
    requires Schedule(w, actions)
    decreases actions
  {
    if actions == [] then w else Final(Step(w, actions[0]), actions[1..])
  }

  predicate HasTicket(p: Place) {
    p == Granted || p == Using
  }

  predicate HasLock(p: Place) {
    p == Entering || p == Granted || p == Closing || p == Exclusive || p == Destroyed || p == Cleared
  }

  function Tickets(place: map<nat, Place>): set<nat> {
    set t | t in place && HasTicket(place[t])
  }

  /** The lock is taken exactly if some thread is at a place where it has it. */
  ghost predicate LockHeld(w: World) {
    w.lock <==> exists t :: t in w.place && HasLock(w.place[t])
  }

  ghost predicate Inv(w: World) {
    && w.users == |Tickets(w.place)|
    && (forall t, u :: t in w.place && u in w.place && HasLock(w.place[t]) && HasLock(w.place[u]) ==> t == u)
    && LockHeld(w)
    && (forall t :: t in w.place && w.place[t] in {Exclusive, Destroyed, Cleared} ==> w.users == 0)
    && (forall t :: t in w.place && w.place[t] == Exclusive ==> w.valid && w.destroyed == 0)
    && (forall t :: t in w.place && w.place[t] == Destroyed ==> w.valid && w.destroyed == 1)
    && (w.valid && w.destroyed > 0 ==> exists t :: t in w.place && w.place[t] == Destroyed)
    && (!w.valid ==> w.users == 0 && w.destroyed == 1)
    && w.destroyed <= 1
  }

  lemma MoveCounts(place: map<nat, Place>, t: nat, p: Place)
    requires t in place
    ensures |Tickets(place[t := p])|
         == |Tickets(place)| + (if HasTicket(p) then 1 else 0) - (if HasTicket(place[t]) then 1 else 0)
  {
    var (before, after) := (Tickets(place), Tickets(place[t := p]));
    if HasTicket(p) && !HasTicket(place[t]) {
      assert after == before + {t};
    } else if !HasTicket(p) && HasTicket(place[t]) {
      assert before == after + {t};
    } else {
      assert before == after;
    }
  }

  lemma StepKeepsLock(w: World, a: Action)
    requires Inv(w) && Enabled(w, a)
    ensures LockHeld(Step(w, a))
  {
    var (v, t) := (Step(w, a), a.t);
    if a.Release? {
      forall u | u in w.place && HasLock(w.place[u]) ensures u in v.place && HasLock(v.place[u]) {
      }
      forall u | u in v.place && HasLock(v.place[u]) ensures u in w.place && HasLock(w.place[u]) {
      }
    } else if v.lock {
      assert t in v.place && HasLock(v.place[t]);
    } else {
      forall u | u in v.place ensures !HasLock(v.place[u]) {
        assert u != t ==> v.place[u] == w.place[u];
      }
    }
  }

  lemma StepKeepsInv(w: World, a: Action)
    requires Inv(w) && Enabled(w, a)
    ensures Inv(Step(w, a))
  {
    var (v, t) := (Step(w, a), a.t);
    MoveCounts(w.place, t, v.place[t]);
    StepKeepsLock(w, a);
    assert v.place[t] == Destroyed ==> t in v.place;
  }

  lemma {:induction false} ScheduleKeepsInv(w: World, actions: seq<Action>)
    requires Inv(w) && Schedule(w, actions)
    ensures Inv(Final(w, actions))
    ensures !w.valid ==> !Final(w, actions).valid
    decreases actions
  {
    if actions != [] {
      StepKeepsInv(w, actions[0]);
      ScheduleKeepsInv(Step(w, actions[0]), actions[1..]);
    }
  }

  lemma StartInv(w: World)
    requires Start(w)
    ensures Inv(w)
  {
    assert Tickets(w.place) == {};
  }

  /**
   In every interleaving of any number of threads the descriptor is destroyed at most once, and never while a
   thread holds a ticket; a ticket is granted only while it is valid, and once it is not it never is again.
   */
  lemma TicketsProtect(w: World, actions: seq<Action>, more: seq<Action>)
    requires Start(w) && Schedule(w, actions) && Schedule(Final(w, actions), more)
    ensures var v := Final(w, actions);
            && v.destroyed <= 1
            && (forall t :: t in v.place && HasTicket(v.place[t]) ==> v.destroyed == 0 && v.valid)
            && (!v.valid ==> !Final(v, more).valid)
            && (!v.valid ==> forall t :: t in Final(v, more).place ==> !HasTicket(Final(v, more).place[t]))
  {
    StartInv(w);
    ScheduleKeepsInv(w, actions);
    var v := Final(w, actions);
    ScheduleKeepsInv(v, more);
    NoTickets(v);
    NoTickets(Final(v, more));
  }

  lemma NoTickets(w: World)
    requires Inv(w)
    ensures w.destroyed > 0 || !w.valid ==> forall t :: t in w.place ==> !HasTicket(w.place[t])
  {
    if w.destroyed > 0 || !w.valid {
      assert w.users == 0;
      forall t | t in w.place ensures !HasTicket(w.place[t]) {
        assert HasTicket(w.place[t]) ==> t in Tickets(w.place);
      }
    }
  }

  // ----- nobody is refused or stuck

  /** A thread that enters and finds the descriptor valid gets a ticket and is counted; else it is sent away. */
  lemma TicketIfValid(w: World, t: nat)
    requires Enabled(w, Check(t)) && w.place[t] == Entering
    ensures var v := Step(w, Check(t));
            if w.valid then HasTicket(v.place[t]) && v.users == w.users + 1 && v.place == w.place[t := v.place[t]]
            else v.place == w.place[t := Outside] && v.users == w.users && !v.lock
    ensures w.valid ==>
              var v := Step(w, Check(t));
              Enabled(v, Unlock(t)) && Step(v, Unlock(t)).place == w.place[t := Using] && !Step(v, Unlock(t)).lock
  {
  }

  /**
   A thread that comes to close and finds the descriptor valid and without users destroys it at once and leaves it
   invalid; while there are users it waits, without the lock.
   */
  lemma ClosedIfUnused(w: World, t: nat)
    requires Inv(w) && Enabled(w, Check(t)) && w.place[t] == Closing && w.valid
    ensures var v := Step(w, Check(t));
            if w.users > 0 then v.place == w.place[t := Waiting] && !v.lock && v.valid && v.destroyed == w.destroyed
            else
              && Enabled(v, Quit(t)) && Enabled(Step(v, Quit(t)), Clear(t))
              && var u := Step(Step(v, Quit(t)), Clear(t));
                 && !u.valid && u.destroyed == 1 && Enabled(u, Unlock(t))
                 && Step(u, Unlock(t)).place == w.place[t := Outside] && !Step(u, Unlock(t)).lock
  {
    assert HasLock(w.place[t]);
    assert w.destroyed == 0;
  }

  /** Nobody waits for ever: whoever has the lock can go on, and if nobody has it everybody can. */
  lemma SomebodyMoves(w: World)
    requires Inv(w) && w.place != map[]
    ensures exists a :: Enabled(w, a)
    ensures !w.lock ==> forall t :: t in w.place ==> exists a :: Enabled(w, a) && a.t == t
  {
    if w.lock {
      var t :| t in w.place && HasLock(w.place[t]);
      var _ := Next(w, t);
      return;
    }
    forall t | t in w.place ensures exists a :: Enabled(w, a) && a.t == t {
      var _ := Next(w, t);
    }
    var t :| t in w.place;
    var _ := Next(w, t);
  }

  /** What a thread can do if it has the lock or nobody has. */
  lemma Next(w: World, t: nat) returns (a: Action)
    requires Inv(w) && t in w.place && (w.lock ==> HasLock(w.place[t]))
    ensures Enabled(w, a) && a.t == t
  {
    match w.place[t]
    case Outside => a := Lock(t, true);
    case Entering => a := Check(t);
    case Granted => a := Unlock(t);
    case Using => a := Release(t);
    case Closing => a := Check(t);
    case Waiting => a := Lock(t, true);
    case Exclusive => a := Quit(t);
    case Destroyed => a := Clear(t);
    case Cleared => a := Unlock(t);
  }
}
