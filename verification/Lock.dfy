/** The door lock: what one round of the main loop does, and what holds in every run of it. */
module Lock {
  import opened StateMachine

  /** Readings of the scale. */
  datatype Stable = Start | Ongoing | Determined | Waiting | Initial

  /** What one round of the loop reads. */
  datatype Input = Input(door: bool, stable: Stable, weight: real, pressed: bool, key: char)

  datatype Lock = Lock(target: string, guess: string, goal: real, machine: Machine, doorOld: bool, servo: seq<int>)

  const MAX_GUESS: nat := 19
  const MAX_TYPEABLE: nat := 18

  /** The state before the loop; the door switch is read once. */
  function Begin(doorOpen: bool): Lock {
    Lock("1234", "", 100.0, Machine(if doorOpen then UNLOCKED else LOCKED, INIT, INIT), false, [])
  }

  // ----- one round

  /** A door that has just been closed asks for the locked state. */
  function DoorStep(l: Lock, door: bool): Lock {
    var m := if l.doorOld != door && !door then l.machine.(requested := LOCKED) else l.machine;
    l.(machine := m, doorOld := door)
  }

  function IsDigit(c: char): bool { '0' <= c <= '9' }

  function IsSpace(c: char): bool { c == ' ' || '\t' <= c <= '\r' }

  /** The digits at the head of a string, as a number on top of `n`. */
  function Digits(s: string, n: nat): nat {
    if s == [] || !IsDigit(s[0]) then n else Digits(s[1..], 10 * n + (s[0] as int - '0' as int))
  }

  function Atoi(s: string): int {
    if s == [] then 0
    else if IsSpace(s[0]) then Atoi(s[1..])
    else if s[0] == '-' then 0 - Digits(s[1..], 0)
    else if s[0] == '+' then Digits(s[1..], 0)
    else Digits(s, 0)
  }

  /** `Password::evaluate`. */
  predicate Accepts(target: string, guess: string) { guess == target && |target| <= MAX_TYPEABLE }

  /** `checkPassword` */
  function Check(l: Lock, i: Input): Lock {
    if Accepts(l.target, l.guess) && !i.stable.Initial? && i.weight < l.goal then
      l.(machine := l.machine.(requested := UNLOCKED))
    else l
  }

  /** The key that ends an entry: set the goal, set the password, or check it. */
  function Enter(l: Lock, i: Input): Lock {
    var g := l.guess;
    if |g| >= 2 && g[0] == '0' && g[1] == '0' then l.(goal := Atoi(g[2..]) as real, guess := "")
    else if |g| >= 1 && g[0] == '0' then l.(target := g[1..], guess := "")
    else Check(l, i).(guess := "")
  }

  /** `keypadEvent`, which only a lock that asks to be locked listens to. */
  function KeyStep(l: Lock, i: Input): Lock {
    if l.machine.requested != LOCKED || !i.pressed then l
    else if i.key == '*' then Enter(l, i)
    else if i.key == '#' then l.(guess := "")
    else if |l.guess| < MAX_GUESS then l.(guess := l.guess + [i.key])
    else l
  }

  function MachineStep(l: Lock): Lock {
    var r := Moved(l.machine);
    l.(machine := r.0, servo := l.servo + r.1)
  }

  function Round(l: Lock, i: Input): Lock { MachineStep(KeyStep(DoorStep(l, i.door), i)) }

  /** The state after all rounds. */
  function After(doorOpen: bool, inputs: seq<Input>): Lock {
    if inputs == [] then Begin(doorOpen) else Round(After(doorOpen, inputs[..|inputs| - 1]), inputs[|inputs| - 1])
  }

  /** No key of the keypad is NUL; what is read when none is pushed can be anything. */
  predicate Keyed(i: Input) { i.pressed ==> i.key != '\0' }

  predicate Keys(inputs: seq<Input>) { forall i :: 0 <= i < |inputs| ==> Keyed(inputs[i]) }

  // ----- the state and the servo

  predicate Settled(l: Lock) {
    && l.machine.current == l.machine.next == l.machine.requested
    && (l.machine.requested == LOCKED || l.machine.requested == UNLOCKED)
    && l.servo != []
    && l.servo[|l.servo| - 1] == if l.machine.requested == LOCKED then 150 else 70
  }

  predicate Ready(l: Lock) {
    && l.machine.current == l.machine.next
    && (l.machine.requested == LOCKED || l.machine.requested == UNLOCKED)
    && (l.machine.current == INIT || Settled(l))
  }

  lemma RoundSettles(l: Lock, i: Input)
    requires Ready(l)
    ensures Settled(Round(l, i))
  {
  }

  /** After every round the machine is in the state asked for, and the servo was last sent to its angle. */
  lemma {:induction false} RunSettles(doorOpen: bool, inputs: seq<Input>)
    ensures Ready(After(doorOpen, inputs)) && (inputs != [] ==> Settled(After(doorOpen, inputs)))
    decreases |inputs|
  {
    if inputs != [] {
      RunSettles(doorOpen, inputs[..|inputs| - 1]);
      RoundSettles(After(doorOpen, inputs[..|inputs| - 1]), inputs[|inputs| - 1]);
    }
  }

  // ----- when the door is unlocked

  predicate Closes(l: Lock, i: Input) { l.doorOld && !i.door }

  /** The round in which '*' is pushed on the right password, with a reading of the scale below the goal. */
  predicate Opens(l: Lock, i: Input) {
    && (l.machine.requested == LOCKED || Closes(l, i))
    && i.pressed && i.key == '*'
    && Accepts(l.target, l.guess) && (l.guess == "" || l.guess[0] != '0')
    && !i.stable.Initial? && i.weight < l.goal
  }

  /** What the machine is asked for in a round: to unlock, to lock, or what it was asked for before. */
  function Asked(l: Lock, i: Input): Place {
    if Opens(l, i) then UNLOCKED else if Closes(l, i) then LOCKED else l.machine.requested
  }

  lemma KeyStepAsks(l: Lock, i: Input)
    requires l.machine.requested == LOCKED || l.machine.requested == UNLOCKED
    ensures var k := KeyStep(DoorStep(l, i.door), i);
            k.machine == l.machine.(requested := Asked(l, i)) && k.servo == l.servo
  {
  }

  /** One round moves the machine towards what is asked for, and sends the angles of that move. */
  lemma RoundRequests(l: Lock, i: Input)
    requires Ready(l)
    ensures var m := Moved(l.machine.(requested := Asked(l, i)));
            Round(l, i).machine == m.0 && Round(l, i).servo == l.servo + m.1
    ensures Round(l, i).machine.requested == Asked(l, i)
  {
    KeyStepAsks(l, i);
  }

  /** The unlock angle is sent exactly when `Opens` holds, or in the first round if the switch was read open. */
  lemma UnlockAngle(l: Lock, i: Input)
    requires Ready(l)
    ensures l.servo <= Round(l, i).servo
    ensures 70 in Round(l, i).servo[|l.servo|..] <==>
            && l.machine.current != UNLOCKED
            && (Opens(l, i) || (l.machine.current == INIT && l.machine.requested == UNLOCKED && !Closes(l, i)))
  {
    RoundRequests(l, i);
    SentAfter(l.servo, Moved(l.machine.(requested := Asked(l, i))).1);
  }

  lemma SentAfter(before: seq<int>, sent: seq<int>)
    ensures (before + sent)[|before|..] == sent
  {
  }

  /** The locking angle is sent exactly when the door closes on an unlocked machine, or in the first round. */
  lemma LockAngle(l: Lock, i: Input)
    requires Ready(l)
    ensures 150 in Round(l, i).servo[|l.servo|..] <==>
            && l.machine.current != LOCKED && !Opens(l, i)
            && (Closes(l, i) || (l.machine.current == INIT && l.machine.requested == LOCKED))
  {
    RoundRequests(l, i);
    SentAfter(l.servo, Moved(l.machine.(requested := Asked(l, i))).1);
  }

  /** The reading that `Closes` compares with is that of the round before; in the first round it is `false`. */
  lemma DoorOldIs(doorOpen: bool, inputs: seq<Input>)
    ensures After(doorOpen, inputs).doorOld == (inputs != [] && inputs[|inputs| - 1].door)
  {
  }

  /** The switch is read open in one round and closed in the next, round `k`. */
  predicate ClosesIn(inputs: seq<Input>, k: nat) { 0 < k < |inputs| && inputs[k - 1].door && !inputs[k].door }

  predicate OpensIn(doorOpen: bool, inputs: seq<Input>, k: nat)
    requires k < |inputs|
  {
    Opens(After(doorOpen, inputs[..k]), inputs[k])
  }

  /**
   * The lock was opened before round `k` of a run, by the start with the switch open (k == 0) or by the
   * right password in the round before, and the door has not been closed in any round since.
   */
  ghost predicate OpenSince(doorOpen: bool, inputs: seq<Input>, k: nat) {
    && k <= |inputs| && (if k == 0 then doorOpen else OpensIn(doorOpen, inputs, k - 1))
    && forall j :: k <= j < |inputs| ==> !ClosesIn(inputs, j)
  }

  predicate Unlocked(l: Lock) { l.machine.requested == UNLOCKED }

  lemma UnlockedStep(doorOpen: bool, init: seq<Input>, i: Input)
    ensures var l, now := After(doorOpen, init), After(doorOpen, init + [i]);
            Unlocked(now) <==> Opens(l, i) || (Unlocked(l) && !ClosesIn(init + [i], |init|))
  {
    var inputs := init + [i];
    assert inputs[..|inputs| - 1] == init;
    RunSettles(doorOpen, init);
    RoundRequests(After(doorOpen, init), i);
    DoorOldIs(doorOpen, init);
  }

  lemma OpenSinceStep(doorOpen: bool, init: seq<Input>, i: Input, k: nat)
    ensures OpenSince(doorOpen, init + [i], k) <==>
            if k == |init| + 1 then Opens(After(doorOpen, init), i)
            else OpenSince(doorOpen, init, k) && !ClosesIn(init + [i], |init|)
  {
    var inputs := init + [i];
    assert inputs[..|init|] == init;
    if k <= |init| {
      assert forall j :: 0 <= j < |init| ==> ClosesIn(inputs, j) == ClosesIn(init, j);
      assert k > 0 ==> inputs[..k - 1] == init[..k - 1];
    }
  }

  /** In every run the lock asks to be unlocked exactly when it has been opened and not closed since. */
  lemma {:induction false} UnlockedExactly(doorOpen: bool, inputs: seq<Input>)
    ensures Unlocked(After(doorOpen, inputs)) <==> exists k: nat :: OpenSince(doorOpen, inputs, k)
    decreases |inputs|
  {
    if inputs == [] {
      assert OpenSince(doorOpen, inputs, 0) <==> doorOpen;
    } else {
      var init, i := inputs[..|inputs| - 1], inputs[|inputs| - 1];
      assert inputs == init + [i];
      UnlockedExactly(doorOpen, init);
      UnlockedRound(doorOpen, init, i);
    }
  }

  lemma UnlockedRound(doorOpen: bool, init: seq<Input>, i: Input)
    requires Unlocked(After(doorOpen, init)) <==> exists k: nat :: OpenSince(doorOpen, init, k)
    ensures Unlocked(After(doorOpen, init + [i])) <==> exists k: nat :: OpenSince(doorOpen, init + [i], k)
  {
    UnlockedStep(doorOpen, init, i);
    if Unlocked(After(doorOpen, init + [i])) {
      var k: nat := |init| + 1;
      if !Opens(After(doorOpen, init), i) {
        k :| OpenSince(doorOpen, init, k);
      }
      OpenSinceStep(doorOpen, init, i, k);
    }
    if k: nat :| OpenSince(doorOpen, init + [i], k) {
      OpenSinceStep(doorOpen, init, i, k);
    }
  }

  /** While the lock is open and the door does not close, no key has any effect. */
  lemma OpenIgnoresKeys(l: Lock, i: Input)
    requires Settled(l) && Unlocked(l) && !Closes(l, i)
    ensures Round(l, i) == l.(doorOld := i.door)
  {
    assert l.servo + [] == l.servo;
  }

  // ----- the password

  predicate Typeable(target: string) {
    && |target| <= MAX_TYPEABLE && (target == "" || target[0] != '0')
    && '*' !in target && '#' !in target && '\0' !in target
  }

  predicate PasswordOk(l: Lock) {
    && Typeable(l.target)
    && |l.guess| <= MAX_GUESS && '*' !in l.guess && '#' !in l.guess && '\0' !in l.guess
  }

  lemma RoundKeepsPassword(l: Lock, i: Input)
    requires PasswordOk(l) && Keyed(i)
    ensures PasswordOk(Round(l, i))
  {
    var d := DoorStep(l, i.door);
    if d.machine.requested == LOCKED && i.pressed && i.key == '*' {
      EnterKeepsPassword(d, i);
    }
  }

  lemma EnterKeepsPassword(l: Lock, i: Input)
    requires PasswordOk(l)
    ensures PasswordOk(Enter(l, i))
  {
  }

  /** In every run the password in force can be typed, and the guess fits its array. */
  lemma {:induction false} PasswordStaysTypeable(doorOpen: bool, inputs: seq<Input>)
    requires Keys(inputs)
    ensures PasswordOk(After(doorOpen, inputs))
    decreases |inputs|
  {
    if inputs != [] {
      PasswordStaysTypeable(doorOpen, inputs[..|inputs| - 1]);
      RoundKeepsPassword(After(doorOpen, inputs[..|inputs| - 1]), inputs[|inputs| - 1]);
    }
  }

  function Rounds(l: Lock, inputs: seq<Input>): Lock
    decreases |inputs|
  {
    if inputs == [] then l else Rounds(Round(l, inputs[0]), inputs[1..])
  }

  /** The keys pushed, in order; in the other rounds none is. */
  function Pushed(inputs: seq<Input>): string {
    if inputs == [] then ""
    else (if inputs[0].pressed then [inputs[0].key] else "") + Pushed(inputs[1..])
  }

  predicate DoorClosed(inputs: seq<Input>) { forall i :: 0 <= i < |inputs| ==> !inputs[i].door }

  /** A guess takes no more than 19 characters. */
  function Capped(s: string): string { if |s| <= MAX_GUESS then s else s[..MAX_GUESS] }

  /** A locked lock with the door closed, which listens to its keys. */
  predicate Listening(l: Lock) { Settled(l) && l.machine.requested == LOCKED && !l.doorOld && |l.guess| <= MAX_GUESS }

  /** What is pushed adds to the guess, up to its length, and nothing else changes. */
  lemma {:induction false} PushedAppends(l: Lock, inputs: seq<Input>)
    requires Listening(l) && DoorClosed(inputs)
    requires '*' !in Pushed(inputs) && '#' !in Pushed(inputs)
    ensures Rounds(l, inputs) == l.(guess := Capped(l.guess + Pushed(inputs)))
    decreases |inputs|
  {
    if inputs != [] {
      var first: string := if inputs[0].pressed then [inputs[0].key] else "";
      AppendFirst(l.guess, first, Pushed(inputs[1..]), Pushed(inputs));
      PushedRound(l, inputs[0], first);
      PushedAppends(Round(l, inputs[0]), inputs[1..]);
    } else {
      assert l.guess + "" == l.guess;
    }
  }

  lemma AppendFirst(s: string, first: string, rest: string, all: string)
    requires all == first + rest
    ensures Capped(Capped(s + first) + rest) == Capped(s + all)
    ensures forall c :: c in first || c in rest ==> c in all
  {
    CappedTwice(s + first, rest);
    assert s + first + rest == s + all;
  }

  lemma CappedTwice(s: string, more: string)
    ensures Capped(Capped(s) + more) == Capped(s + more)
  {
  }

  lemma PushedRound(l: Lock, i: Input, first: string)
    requires Listening(l) && !i.door
    requires first == (if i.pressed then [i.key] else "")
    requires '*' !in first && '#' !in first
    ensures Round(l, i) == l.(guess := Capped(l.guess + first)) && Listening(Round(l, i))
  {
    assert l.servo + [] == l.servo;
    if i.pressed {
      assert i.key == first[0];
    } else {
      assert l.guess + first == l.guess;
    }
  }

  /** '#', then any rounds in which `keys` are pushed, then '*'; the door stays closed. */
  predicate Types(reset: Input, inputs: seq<Input>, last: Input, keys: string) {
    && reset.pressed && reset.key == '#' && !reset.door
    && DoorClosed(inputs) && Pushed(inputs) == keys && |keys| <= MAX_GUESS && '*' !in keys && '#' !in keys
    && last.pressed && last.key == '*' && !last.door
  }

  function Typed(l: Lock, reset: Input, inputs: seq<Input>, last: Input): Lock {
    Round(Rounds(Round(l, reset), inputs), last)
  }

  lemma TypedGuess(l: Lock, reset: Input, inputs: seq<Input>, last: Input, keys: string)
    requires Listening(l) && Types(reset, inputs, last, keys)
    ensures Rounds(Round(l, reset), inputs) == l.(guess := keys)
  {
    assert l.servo + [] == l.servo;
    var cleared := Round(l, reset);
    assert cleared == l.(guess := "");
    PushedAppends(cleared, inputs);
    assert "" + keys == keys;
  }

  /** A '*' on a locked lock is the whole round, unless it opens the lock. */
  lemma StarRound(l: Lock, i: Input)
    requires Listening(l) && i.pressed && i.key == '*' && !i.door
    ensures Enter(l, i).machine == l.machine ==> Round(l, i) == Enter(l, i)
  {
    assert l.servo + [] == l.servo;
  }

  /** Typing the password in force, with a reading below the goal, opens the lock. */
  lemma TypingOpens(l: Lock, reset: Input, inputs: seq<Input>, last: Input)
    requires Listening(l) && PasswordOk(l) && Types(reset, inputs, last, l.target)
    requires !last.stable.Initial? && last.weight < l.goal
    ensures Typed(l, reset, inputs, last).machine.current == UNLOCKED
  {
    TypedGuess(l, reset, inputs, last, l.target);
  }

  /** Typing anything that is not a setting clears the guess and opens the lock in no other case. */
  lemma TypingElse(l: Lock, reset: Input, inputs: seq<Input>, last: Input, keys: string)
    requires Listening(l) && Types(reset, inputs, last, keys) && (keys == "" || keys[0] != '0')
    requires keys != l.target || last.stable.Initial? || last.weight >= l.goal
    ensures Typed(l, reset, inputs, last) == l.(guess := "")
  {
    TypedGuess(l, reset, inputs, last, keys);
    StarRound(l.(guess := keys), last);
  }

  /** Typing 0 and then a text sets the text as the password. */
  lemma TypingSetsPassword(l: Lock, reset: Input, inputs: seq<Input>, last: Input, text: string)
    requires Listening(l) && Types(reset, inputs, last, "0" + text) && (text == "" || text[0] != '0')
    ensures Typed(l, reset, inputs, last) == l.(target := text, guess := "")
  {
    TypedGuess(l, reset, inputs, last, "0" + text);
    StarRound(l.(guess := "0" + text), last);
    assert ("0" + text)[1..] == text;
  }

  /** A number in decimal digits. */
  function Decimal(n: nat): (s: string)
    ensures s != "" && forall i :: 0 <= i < |s| ==> IsDigit(s[i])
  {
    if n < 10 then [DigitOf(n)] else Decimal(n / 10) + [DigitOf(n % 10)]
  }

  function DigitOf(d: nat): char
    requires d < 10
  {
    "0123456789"[d]
  }

  lemma {:induction false} DigitsAppend(s: string, rest: string, n: nat)
    requires forall i :: 0 <= i < |s| ==> IsDigit(s[i])
    ensures Digits(s + rest, n) == Digits(rest, Digits(s, n))
    decreases |s|
  {
    if s == "" {
      assert s + rest == rest;
    } else {
      assert (s + rest)[1..] == s[1..] + rest;
      DigitsAppend(s[1..], rest, 10 * n + (s[0] as int - '0' as int));
    }
  }

  /** Reading the decimal digits of a number gives the number back; a character that is no digit ends it. */
  lemma {:induction false} DecimalReads(n: nat, rest: string)
    requires rest == "" || !IsDigit(rest[0])
    ensures Digits(Decimal(n) + rest, 0) == n
    decreases n
  {
    if n < 10 {
      var d := DigitOf(n);
      assert d as int == '0' as int + n;
      DigitsAppend([d], rest, 0);
      assert [d][1..] == "";
    } else {
      var d := DigitOf(n % 10);
      assert d as int == '0' as int + n % 10;
      var tail := [d] + rest;
      assert tail[1..] == rest;
      DecimalReads(n / 10, "");
      assert Decimal(n / 10) + "" == Decimal(n / 10);
      DigitsAppend(Decimal(n / 10), tail, 0);
      assert Decimal(n) + rest == Decimal(n / 10) + tail;
    }
  }

  /** `atoi` skips spaces, takes a sign, and reads as far as the digits go. */
  lemma {:induction false} AtoiReads(spaces: string, sign: string, n: nat, rest: string)
    requires forall i :: 0 <= i < |spaces| ==> IsSpace(spaces[i])
    requires sign == "" || sign == "+" || sign == "-"
    requires rest == "" || !IsDigit(rest[0])
    ensures Atoi(spaces + sign + Decimal(n) + rest) == if sign == "-" then 0 - n else n
    decreases |spaces|
  {
    var s := spaces + sign + Decimal(n) + rest;
    if spaces != "" {
      assert s[1..] == spaces[1..] + sign + Decimal(n) + rest;
      AtoiReads(spaces[1..], sign, n, rest);
    } else {
      DecimalReads(n, rest);
      if sign == "" {
        assert s == Decimal(n) + rest;
      } else {
        assert s[1..] == Decimal(n) + rest;
      }
    }
  }

  lemma AtoiPlain(n: nat, rest: string)
    requires rest == "" || !IsDigit(rest[0])
    ensures Atoi(Decimal(n) + rest) == n
  {
    AtoiReads("", "", n, rest);
    assert "" + "" + Decimal(n) + rest == Decimal(n) + rest;
  }

  lemma TypingSetsAtoi(l: Lock, reset: Input, inputs: seq<Input>, last: Input, text: string)
    requires Listening(l) && Types(reset, inputs, last, "00" + text)
    ensures Typed(l, reset, inputs, last) == l.(goal := Atoi(text) as real, guess := "")
  {
    var keys := "00" + text;
    TypedGuess(l, reset, inputs, last, keys);
    assert keys[2..] == text;
    StarRound(l.(guess := keys), last);
  }

  /** Typing 00 and then a number sets it as the goal. */
  lemma TypingSetsGoal(l: Lock, reset: Input, inputs: seq<Input>, last: Input, n: nat, rest: string)
    requires Listening(l) && Types(reset, inputs, last, "00" + (Decimal(n) + rest)) && (rest == "" || !IsDigit(rest[0]))
    ensures Typed(l, reset, inputs, last) == l.(goal := n as real, guess := "")
  {
    AtoiPlain(n, rest);
    TypingSetsAtoi(l, reset, inputs, last, Decimal(n) + rest);
  }

  /** A lock that starts with its door closed opens to 1234 and a reading below 100. */
  lemma FactoryPassword(first: Input, reset: Input, inputs: seq<Input>, last: Input)
    requires !first.door && !first.pressed && Types(reset, inputs, last, "1234")
    requires !last.stable.Initial? && last.weight < 100.0
    ensures Listening(After(false, [first]))
    ensures Typed(After(false, [first]), reset, inputs, last).machine.current == UNLOCKED
  {
    var one := [first];
    assert one[..|one| - 1] == [];
    assert After(false, []) == Begin(false);
    var l := After(false, one);
    assert l == Round(Begin(false), first);
    assert Begin(false).servo + [150] == [150];
    TypingOpens(l, reset, inputs, last);
  }

  /** A door that is open when first read and closed by the first round never locks: no closing is seen. */
  lemma {:induction false} ClosedUnseen(inputs: seq<Input>)
    requires forall i :: 0 <= i < |inputs| ==> !inputs[i].door
    ensures After(true, inputs).machine.requested == UNLOCKED && !After(true, inputs).doorOld
    decreases |inputs|
  {
    if inputs != [] {
      ClosedUnseen(inputs[..|inputs| - 1]);
    }
  }
}
