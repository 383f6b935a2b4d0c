/** `main.cpp`: the main loop over its password object and its state machine. */
module LockApp {
  import opened StateMachine
  import opened Lock
  import P = Password

  class App {
    const password: P.Password
    const controller: Controller
    var doorOpenOld: bool
    var targetWeight: real

    ghost function Footprint(): set<object>
      reads this
    {
      {this, password, password.target, password.guess, controller}
    }

    ghost predicate Valid()
      reads Footprint()
    {
      password.Valid() && P.NUL !in password.Typed()
    }

    ghost function Now(): Lock
      requires Valid()
      reads Footprint()
    {
      Lock(password.Target(), password.Typed(), targetWeight, controller.Now(), doorOpenOld, controller.servo)
    }

    /** Up to the loop: the switch is read once. */
    constructor (doorOpen: bool)
      ensures Valid() && Now() == Begin(doorOpen) && fresh(Footprint() - {this})
    {
      password := new P.Password("1234");
      controller := new Controller();
      doorOpenOld, targetWeight := false, 100.0;
      new;
      if doorOpen {
        controller.SetState(UNLOCKED);
      } else {
        controller.SetState(LOCKED);
      }
    }

    method WatchDoor(doorOpen: bool)
      requires Valid()
      modifies controller`gState, this`doorOpenOld
      ensures Valid() && Now() == DoorStep(old(Now()), doorOpen)
    {
      if doorOpenOld != doorOpen {
        if !doorOpen {
          controller.SetState(LOCKED);
        }
      }
      doorOpenOld := doorOpen;
    }

    method CheckPassword(i: Input)
      requires Valid() && controller.gState == LOCKED
      modifies controller`gState
      ensures Valid() && Now() == Check(old(Now()), i)
    {
      P.TextOfString(password.Typed());
      var same := password.Evaluate();
      if !same {
        return;
      }
      if i.stable.Initial? {
        return;
      }
      if i.weight < targetWeight {
        controller.SetState(UNLOCKED);
      }
    }

    /** The case of '*': set the goal, set the password, or check it. */
    method EnterKey(i: Input)
      requires Valid() && controller.gState == LOCKED
      modifies controller`gState, this`targetWeight, password, password.target, password.guess
      ensures Valid() && Now() == Enter(old(Now()), i)
    {
      P.TextOfString(password.Typed());
      var guess2 := password.GetGuess();
      if |guess2| >= 2 && guess2[0] == '0' && guess2[1] == '0' {
        targetWeight := Atoi(guess2[2..]) as real;
      } else if |guess2| >= 1 && guess2[0] == '0' {
        password.Set(guess2[1..]);
      } else {
        CheckPassword(i);
      }
      password.Reset();
    }

    method KeypadEvent(i: Input)
      requires Valid() && controller.gState == LOCKED && Keyed(i)
      modifies controller`gState, this`targetWeight, password, password.target, password.guess
      ensures Valid() && Now() == KeyStep(old(Now()), i)
    {
      if i.pressed {
        if i.key == '*' {
          EnterKey(i);
        } else if i.key == '#' {
          password.Reset();
        } else {
          var ok := password.Append(i.key);
          assert !ok ==> Now().guess == old(Now()).guess;
        }
      }
    }

    /** The loop body. */
    method LoopBody(i: Input)
      requires Valid() && Keyed(i)
      modifies this, controller, password, password.target, password.guess
      ensures Valid() && Now() == Round(old(Now()), i)
    {
      WatchDoor(i.door);
      if controller.gState == LOCKED {
        KeypadEvent(i);
      }
      controller.StateMain();
    }

    /** The main loop over the readings of a run. */
    method ComMain(doorOpen: bool, inputs: seq<Input>)
      requires Valid() && Keys(inputs) && Now() == Begin(doorOpen)
      modifies this, controller, password, password.target, password.guess
      ensures Valid() && Now() == After(doorOpen, inputs)
    {
      var k := 0;
      assert inputs[..0] == [];
      while k < |inputs|
        invariant k <= |inputs| && Valid() && Now() == After(doorOpen, inputs[..k])
      {
        LoopBody(inputs[k]);
        assert inputs[..k + 1][..k] == inputs[..k];
        k := k + 1;
      }
      assert inputs[..k] == inputs;
    }
  }
}
