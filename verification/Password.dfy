/** `Password`: a target and a guess in two fixed arrays of characters, each ended by a NUL. */
module Password {

  const MAX_PASSWORD_LENGTH: nat := 20
  const NUL: char := '\0'

  /** The C string that an array holds. */
  function Text(a: seq<char>): (s: string)
    ensures |s| <= |a| && NUL !in s
    ensures forall i :: 0 <= i < |s| ==> s[i] == a[i] != NUL
    ensures |s| < |a| ==> a[|s|] == NUL
  {
    if a == [] || a[0] == NUL then [] else [a[0]] + Text(a[1..])
  }

  predicate Terminated(a: seq<char>) { |Text(a)| < |a| }

  /** A string is determined by its characters and the NUL after them. */
  lemma TextIs(a: seq<char>, s: string)
    requires |s| < |a| && NUL !in s && a[|s|] == NUL
    requires forall i :: 0 <= i < |s| ==> a[i] == s[i]
    ensures Text(a) == s
  {
    var t := Text(a);
    assert forall i :: 0 <= i < |s| ==> s[i] in s;
  }

  class Password {
    const target: array<char>
    const guess: array<char>
    var currentIndex: nat

    /** Both arrays end in a NUL; the guess has one where the next character would go. */
    ghost predicate Valid()
      reads this, target, guess
    {
      && target.Length == MAX_PASSWORD_LENGTH && guess.Length == MAX_PASSWORD_LENGTH && target != guess
      && Terminated(target[..]) && currentIndex < MAX_PASSWORD_LENGTH && guess[currentIndex] == NUL
    }

    ghost function Target(): string
      reads target
    {
      Text(target[..])
    }

    /** What has been appended since the last reset. */
    ghost function Typed(): seq<char>
      requires Valid()
      reads this, target, guess
    {
      guess[..currentIndex]
    }

    /** The guess as a string: what has been appended, up to the first NUL. */
    ghost function Guess(): string
      requires Valid()
      reads this, target, guess
    {
      Text(Typed())
    }

    constructor (pass: string)
      requires |pass| < MAX_PASSWORD_LENGTH && NUL !in pass
      ensures Valid() && Target() == pass && Typed() == [] && fresh(target) && fresh(guess)
    {
      target := new char[MAX_PASSWORD_LENGTH];
      guess := new char[MAX_PASSWORD_LENGTH];
      currentIndex := 0;
      new;
      Copy(pass);
      guess[0] := NUL;
    }

    /** `strcpy` to the target, which must have room for the string and its NUL. */
    method Copy(pass: string)
      requires target.Length == MAX_PASSWORD_LENGTH && |pass| < MAX_PASSWORD_LENGTH && NUL !in pass
      modifies target
      ensures Text(target[..]) == pass
    {
      var i := 0;
      while i < |pass|
        invariant 0 <= i <= |pass|
        invariant forall k :: 0 <= k < i ==> target[k] == pass[k]
      {
        target[i] := pass[i];
        i := i + 1;
      }
      target[i] := NUL;
      TextIs(target[..], pass);
    }

    method Set(pass: string)
      requires Valid() && |pass| < MAX_PASSWORD_LENGTH && NUL !in pass
      modifies target
      ensures Valid() && Target() == pass && Typed() == old(Typed())
    {
      Copy(pass);
    }

    /** The guess stays terminated, with at most 19 characters appended. */
    method Append(character: char) returns (ok: bool)
      requires Valid()
      modifies guess, this`currentIndex
      ensures Valid() && Target() == old(Target())
      ensures ok == (|old(Typed())| < 19)
      ensures Typed() == old(Typed()) + (if ok then [character] else [])
    {
      if currentIndex + 1 == MAX_PASSWORD_LENGTH {
        return false;
      }
      guess[currentIndex] := character;
      currentIndex := currentIndex + 1;
      guess[currentIndex] := NUL;
      return true;
    }

    method Reset()
      requires Valid()
      modifies guess, this`currentIndex
      ensures Valid() && Target() == old(Target()) && Typed() == []
    {
      currentIndex := 0;
      guess[currentIndex] := NUL;
    }

    /** The string that the pointer returned by `getGuess` points to. */
    method GetGuess() returns (s: string)
      requires Valid()
      ensures s == Guess()
    {
      ghost var g := Guess();
      TextOfPrefix(guess[..], currentIndex);
      s := ReadGuess(g);
    }

    /** Reads the guess up to its NUL. */
    method ReadGuess(ghost g: string) returns (s: string)
      requires |g| < guess.Length && guess[|g|] == NUL
      requires forall i :: 0 <= i < |g| ==> guess[i] == g[i] && guess[i] != NUL
      ensures s == g
    {
      var i := 0;
      s := "";
      while guess[i] != NUL
        invariant i <= |g| && s == g[..i]
        decreases |g| - i
      {
        s := s + [guess[i]];
        i := i + 1;
      }
    }

    /** True exactly when guess and target are the same string, of at most 18 characters. */
    method Evaluate() returns (same: bool)
      requires Valid()
      ensures same == (Guess() == Target() && |Target()| <= 18)
    {
      TextOfPrefix(guess[..], currentIndex);
      var pass, guessed := target[0], guess[0];
      var i := 1;
      while i < MAX_PASSWORD_LENGTH
        invariant 1 <= i <= MAX_PASSWORD_LENGTH && pass == target[i - 1] && guessed == guess[i - 1]
        invariant SameSoFar(target[..], guess[..], i - 1)
      {
        Verdict(target[..], guess[..], i - 1);
        if pass == NUL && guessed == NUL {
          return true;
        } else if pass != guessed || pass == NUL || guessed == NUL {
          return false;
        }
        pass := target[i];
        guessed := guess[i];
        i := i + 1;
      }
      return false;
    }
  }

  /** A NUL ends the string wherever the array goes on. */
  lemma TextOfPrefix(a: seq<char>, n: nat)
    requires n < |a| && a[n] == NUL
    ensures Text(a) == Text(a[..n]) && |Text(a)| <= n
  {
    var t := Text(a[..n]);
    assert forall i :: 0 <= i < |t| ==> t[i] == a[..n][i] == a[i];
    TextIs(a, t);
  }

  /** A string without NUL is its own text. */
  lemma {:induction false} TextOfString(s: string)
    requires NUL !in s
    ensures Text(s) == s
    decreases |s|
  {
    if s != "" {
      assert s[0] in s;
      TextOfString(s[1..]);
    }
  }

  /** The first `i` characters of both arrays are equal, and neither string has ended. */
  predicate SameSoFar(t: seq<char>, g: seq<char>, i: nat) {
    |Text(t)| >= i && |Text(g)| >= i && forall k :: 0 <= k < i ==> Text(t)[k] == Text(g)[k]
  }

  /** What the next pair of characters says about the two strings. */
  lemma Verdict(t: seq<char>, g: seq<char>, i: nat)
    requires i < |t| && i < |g| && SameSoFar(t, g, i)
    ensures t[i] == NUL && g[i] == NUL ==> Text(t) == Text(g) && |Text(t)| == i
    ensures (t[i] == NUL) != (g[i] == NUL) ==> Text(t) != Text(g)
    ensures t[i] != g[i] ==> Text(t) != Text(g)
    ensures t[i] == g[i] != NUL ==> SameSoFar(t, g, i + 1)
  {
    EndsHere(t, i);
    EndsHere(g, i);
  }

  lemma EndsHere(a: seq<char>, i: nat)
    requires i < |a| && |Text(a)| >= i
    ensures a[i] == NUL <==> |Text(a)| == i
    ensures a[i] != NUL ==> |Text(a)| > i && Text(a)[i] == a[i]
  {
    assert |Text(a)| > i ==> Text(a)[i] == a[i];
  }
}
