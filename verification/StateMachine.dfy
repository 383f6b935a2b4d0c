/** The four-state machine: `set_state` asks for a state, `state_main` moves towards it along the allowed edges. */
module StateMachine {

  datatype Place = INIT | LOCKED | UNLOCKED | SETTING

  /** `g_state` and the two variables of `state_trans`. */
  datatype Machine = Machine(requested: Place, current: Place, next: Place)

  const START := Machine(INIT, INIT, INIT)

  /** Where `state_trans` goes from `current` when `state` is asked for. */
  function Destination(current: Place, state: Place): Place {
    match current
    case INIT => if state == LOCKED then LOCKED else if state == UNLOCKED then UNLOCKED else INIT
    case LOCKED => if state == UNLOCKED then UNLOCKED else LOCKED
    case UNLOCKED => if state == LOCKED then LOCKED else if state == SETTING then SETTING else UNLOCKED
    case SETTING => if state == INIT then INIT else SETTING
  }

  /** The servo commands that the `init` callback of a state sends. */
  function Entering(p: Place): seq<int> {
    match p
    case LOCKED => [150]
    case UNLOCKED => [70]
    case _ => []
  }

  /** The three callbacks of a state. */
  datatype Callback = InitOf(p: Place) | DoOf(p: Place) | EndOf(p: Place)

  /** The callbacks that `state_main` makes. */
  function Calls(m: Machine): seq<Callback> {
    if m.current != m.requested then
      var n := Destination(m.current, m.requested);
      [EndOf(m.current), InitOf(n), DoOf(n)]
    else [DoOf(m.next)]
  }

  /** `state_main`: the machine afterwards and the servo commands sent. */
  function Moved(m: Machine): (r: (Machine, seq<int>)) {
    if m.current != m.requested then
      var n := Destination(m.current, m.requested);
      (Machine(m.requested, n, n), Entering(n))
    else (Machine(m.requested, m.next, m.next), [])
  }

  /** The edges of the state diagram. */
  predicate Edge(a: Place, b: Place) {
    || (a == INIT && (b == LOCKED || b == UNLOCKED))
    || (a == LOCKED && b == UNLOCKED)
    || (a == UNLOCKED && (b == LOCKED || b == SETTING))
    || (a == SETTING && b == INIT)
  }

  /** A settled machine reaches what is asked for exactly along an edge; otherwise it stays where it is. */
  lemma FollowsEdges(m: Machine)
    requires m.current == m.next
    ensures var n := Moved(m).0;
            && n.current == n.next && n.requested == m.requested
            && (n.current == m.requested <==> m.current == m.requested || Edge(m.current, m.requested))
            && (n.current == m.current || n.current == m.requested)
  {
  }

  /** A request that no edge leads to ends and enters the machine's own state anew at every call. */
  lemma RefusedReenters(m: Machine)
    requires m.current == m.next && m.current != m.requested && !Edge(m.current, m.requested)
    ensures Moved(m) == (m, Entering(m.current))
    ensures Calls(m) == [EndOf(m.current), InitOf(m.current), DoOf(m.current)]
    ensures Moved(Moved(m).0) == Moved(m) && Calls(Moved(m).0) == Calls(m)
  {
  }

  /** A state is entered exactly when one is left, in this order, and the state then current is run last. */
  lemma CallsFollow(m: Machine)
    requires m.current == m.next
    ensures var n, calls := Moved(m).0.current, Calls(m);
            && calls[|calls| - 1] == DoOf(n)
            && (InitOf(n) in calls <==> m.current != m.requested)
            && (EndOf(m.current) in calls <==> m.current != m.requested)
            && (forall p :: InitOf(p) in calls ==> p == n) && (forall p :: EndOf(p) in calls ==> p == m.current)
  {
  }

  class Controller {
    var gState: Place
    var oldState: Place
    var nextState: Place
    var called: seq<Callback>
    var servo: seq<int>

    function Now(): Machine
      reads this
    {
      Machine(gState, oldState, nextState)
    }

    constructor ()
      ensures Now() == START && servo == [] && called == []
    {
      gState, oldState, nextState, servo, called := INIT, INIT, INIT, [], [];
    }

    method SetState(state: Place)
      modifies this`gState
      ensures Now() == old(Now()).(requested := state)
    {
      gState := state;
    }

    /** `state_main`, with the callbacks of `main.cpp` reduced to a log and their servo commands. */
    method StateMain()
      modifies this`oldState, this`nextState, this`servo, this`called
      ensures Now() == Moved(old(Now())).0 && servo == old(servo) + Moved(old(Now())).1
      ensures called == old(called) + Calls(old(Now()))
    {
      StateTrans(gState);
    }

    method StateTrans(state: Place)
      requires state == gState
      modifies this`oldState, this`nextState, this`servo, this`called
      ensures Now() == Moved(old(Now())).0 && servo == old(servo) + Moved(old(Now())).1
      ensures called == old(called) + Calls(old(Now()))
    {
      if oldState != state {
        match oldState {
          case INIT =>
            nextState := if state == LOCKED then LOCKED else if state == UNLOCKED then UNLOCKED else INIT;
          case LOCKED =>
            nextState := if state == UNLOCKED then UNLOCKED else LOCKED;
          case UNLOCKED =>
            nextState := if state == LOCKED then LOCKED else if state == SETTING then SETTING else UNLOCKED;
          case SETTING =>
            nextState := if state == INIT then INIT else SETTING;
        }
        called := called + [EndOf(oldState)];
        Init(nextState);
      }
      oldState := nextState;
      called := called + [DoOf(nextState)];
    }

    /** The `init` callbacks. */
    method Init(p: Place)
      modifies this`servo, this`called
      ensures servo == old(servo) + Entering(p) && called == old(called) + [InitOf(p)]
    {
      called := called + [InitOf(p)];
      if p == LOCKED {
        servo := servo + [150];
      } else if p == UNLOCKED {
        servo := servo + [70];
      }
    }
  }
}
