/** Runs of the decryptor, clock by clock: without the start button, with it, and after a reset. */
module Clocks {
  import opened Rc4
  import opened DecryptorMachines

  // `n` clocks without the start button.
  function Steps(x: System, n: nat): (r: System)
    requires x.Valid()
    ensures r.Valid() && r.cipher == x.cipher
  {
    if n == 0 then x else Steps(x, n - 1).Next(false)
  }

  lemma {:induction false} StepsAdd(x: System, a: nat, b: nat)
    requires x.Valid()
    ensures Steps(x, a + b) == Steps(Steps(x, a), b)
  {
    hide System.Next;
    if b == 0 {
    } else {
      StepsAdd(x, a, b - 1);
    }
  }

  // The first clocks, one by one.
  lemma Unrolled(x: System)
    requires x.Valid()
    ensures Steps(x, 1) == x.Next(false)
    ensures Steps(x, 2) == x.Next(false).Next(false)
    ensures Steps(x, 3) == x.Next(false).Next(false).Next(false)
    ensures Steps(x, 4) == Steps(x, 3).Next(false)
  {
  }

  lemma StepAfter(x: System, a: nat)
    requires x.Valid()
    ensures Steps(x, a + 1) == Steps(x, a).Next(false)
    ensures Steps(x, 1) == x.Next(false)
  {
  }

  /** `n` clocks during which the start button is held as `button` says. */
  function Runs(x: System, button: nat -> bool, n: nat): (r: System)
    requires x.Valid()
    ensures r.Valid() && r.cipher == x.cipher
  {
    if n == 0 then x else Runs(x, button, n - 1).Next(button(n - 1))
  }

  // Without the button the controller never leaves its first state.
  lemma {:induction false} NotYetThere(x: System, n: nat, m: nat)
    requires x.Valid() && n <= m && Steps(x, n).top == CheckStart
    ensures Steps(x, m).top == CheckStart
    decreases m
  {
    hide System.Next;
    if n == m {
    } else {
      NotYetThere(x, n, m - 1);
      RestStep(Steps(x, m - 1));
    }
  }

  lemma RestStep(x: System)
    requires x.Valid()
    ensures x.top == CheckStart || x.top == TopFinish ==> x.Next(false).top == CheckStart
  {
  }

  // Before it is finished the controller is neither finished nor back at the start.
  lemma BusyBefore(x: System, n: nat, m: nat)
    requires x.Valid() && n < m && Steps(x, m).top == TopFinish
    ensures Steps(x, n).top != CheckStart && Steps(x, n).top != TopFinish
  {
    hide System.Next;
    RestStep(Steps(x, n));
    StepAfter(x, n);
    if Steps(x, n + 1).top == CheckStart {
      NotYetThere(x, n + 1, m);
    }
  }

  /** While the search runs the button has no effect. */
  lemma ButtonIgnoredWhileBusy(x: System, pressed: bool)
    requires x.Valid() && x.top != CheckStart
    ensures x.Next(pressed) == x.Next(false)
  {
  }

  // Until the first press the button is up.
  ghost predicate FirstPress(button: nat -> bool, t: nat) {
    button(t) && forall i: nat | i < t :: !button(i)
  }

  lemma {:induction false} UntilPressed(x: System, button: nat -> bool, t: nat)
    requires x.Valid() && forall i: nat | i < t :: !button(i)
    ensures Runs(x, button, t) == Steps(x, t)
  {
    hide System.Next;
    if t == 0 {
    } else {
      UntilPressed(x, button, t - 1);
    }
  }

  // What the button does after the first press does not matter until the controller is back in its first state.
  lemma {:induction false} OncePressed(x: System, button: nat -> bool, t: nat, n: nat)
    requires x.Valid() && FirstPress(button, t) && Steps(Steps(x, t).Next(true), n).top != CheckStart
    ensures Runs(x, button, t + 1 + n) == Steps(Steps(x, t).Next(true), n)
  {
    hide System.Next;
    if n == 0 {
      UntilPressed(x, button, t);
    } else {
      var y := Steps(x, t).Next(true);
      if Steps(y, n - 1).top == CheckStart {
        NotYetThere(y, n - 1, n);
      }
      OncePressed(x, button, t, n - 1);
      ButtonIgnoredWhileBusy(Steps(y, n - 1), button(t + n));
      StepAfter(y, n - 1);
    }
  }
}
