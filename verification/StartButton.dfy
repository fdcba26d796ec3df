/** What pressing start leads to, from any state the buttons can have brought about: exactly when the decryptor
    stops, and exactly when it has then found the smallest key. */
module StartButton {
  import opened Rc4
  import opened DecryptorMachines
  import opened Clocks
  import opened Handshakes
  import opened KeySearch

  // The search as it ends: with the smallest key that solves the message, or with none.
  ghost predicate Answers(r: System) {
    && r.Valid() && r.top == TopFinish && r.AllIdle()
    && r.ledr == (if exists k: Key :: k < 0x40_0000 && Solves(k, r.cipher) then 1 else 2)
    && (r.ledr == 1 ==>
          && r.key < 0x40_0000 && Solves(r.key, r.cipher) && r.d.cells == Crypt(r.key, r.cipher)
          && forall k: Key :: Solves(k, r.cipher) ==> r.key <= k)
  }

  /** If start is pressed the decryptor will stop with the right answer. */
  ghost predicate Answered(x: System)
    requires x.Valid()
  {
    exists n: nat :: Answers(Steps(x.Next(true), n))
  }

  // ----- the box for key 0

  /** The box the first attempt, with key 0, generates its key stream from. */
  ghost function FirstBox(x: System): Box
    requires x.Valid()
  {
    Steps(x.Next(true), DecryptAt(x)).s.cells
  }

  // The working memory when the key schedule begins: a machine that is still filling it starts where it is.
  function FilledBox(x: System): Box
    requires x.Valid()
  {
    if x.init.state == Increment then FilledFrom(x.s.cells, x.init.count + 1) else Identity()
  }

  // The first two clocks of the first machine.
  lemma FillsOn(x: System)
    requires x.Valid() && x.top == CheckStart && InitLeft(x.init) != 2
    ensures var z := Steps(x.Next(true), 1);
            if x.init.state == Increment
            then z.s.cells == x.s.cells[x.init.count + 1 := x.init.count + 1]
                 && z.init == if x.init.count == 254 then Init(InitFinish, 255) else Init(Increment, x.init.count + 2)
            else z.init == Init(Increment, 0)
  {
    StepAfter(x.Next(true), 0);
  }

  lemma PressFills(x: System)
    requires x.Valid() && x.top == CheckStart && InitLeft(x.init) != 2
    ensures Steps(x.Next(true), ScheduleAt(x)).s.cells == FilledBox(x)
  {
    hide System.Next, Steps;
    var y := x.Next(true);
    var z := Steps(y, 1);
    Pressed(x);
    FillsOn(x);
    InitPhase(z);
    StepsAdd(y, 1, ScheduleAt(x) - 1);
  }

  /** With the second machine idle when it is started, the first box is the key schedule of key 0 on whatever the
      first machine has left. */
  lemma FirstBoxIs(x: System)
    requires x.Valid() && x.top == CheckStart && !Missed(x) && SchedulerThen(x) == 0
    ensures FirstBox(x) == ScheduleFrom(FilledBox(x), 0, 256).0
  {
    hide System.Next, Steps, InitLeft, SchedulerLeft, ScheduleFrom, FilledBox;
    ReachesSchedule(x);
    PressFills(x);
    var z := Steps(x.Next(true), ScheduleAt(x));
    NothingLeft(z);
    SchedulePhase(z);
    StepsAdd(x.Next(true), ScheduleAt(x), SCHEDULE_CLOCKS + 1);
  }

  // ----- the whole search

  ghost function FirstText(x: System): (text: seq<Byte>)
    requires x.Valid()
  {
    XorAll(Generate(FirstBox(x), MESSAGE_LENGTH).stream, x.cipher)
  }

  /** From any state there can be, unless a machine is missed, the search tries the keys in order, and only the
      attempt with key 0 depends on the state in which start was pressed. */
  lemma EveryPress(x: System) returns (n: nat)
    requires x.Valid() && Orderly(x) && x.top == CheckStart && !Missed(x)
    ensures var r := Steps(x.Next(true), n);
            && r.top == TopFinish && r.AllIdle() && r.key <= LAST_KEY
            && if AllReadable(FirstText(x)) then r.key == 0 && r.ledr == 1 && r.d.cells == FirstText(x)
               else
                 && 1 <= r.key && r.d.cells == Crypt(r.key, x.cipher)
                 && (forall k: Key | 1 <= k < r.key :: !Solves(k, x.cipher))
                 && (r.ledr == 1 <==> Solves(r.key, x.cipher)) && (r.ledr != 1 ==> r.ledr == 2 && r.key == LAST_KEY)
  {
    hide System.Next, Steps, Generate, XorAll, Crypt, AllReadable, Solves, System.AllIdle, Missed, DecryptAt, Orderly;
    var y := x.Next(true);
    ReachesDecrypt(x);
    n := DecryptAt(x);
    var m := AttemptWith(Steps(y, n));
    StepsAdd(y, n, m);
    n := n + m;
    if !AllReadable(FirstText(x)) {
      KeyStep(Steps(y, n));
      StepAfter(y, n);
      m := Search(Steps(y, n + 1));
      StepsAdd(y, n + 1, m);
      n := n + 1 + m;
    }
  }

  // The attempt with key 0 gives what it should.
  ghost predicate FirstRight(x: System)
    requires x.Valid()
  {
    if AllReadable(FirstText(x)) then FirstText(x) == Crypt(0, x.cipher) else !Solves(0, x.cipher)
  }

  lemma OnlyStop(x: System, n: nat, m: nat)
    requires x.Valid() && Steps(x, n).top == TopFinish && Steps(x, m).top == TopFinish
    ensures n == m
  {
    if n < m {
      BusyBefore(x, n, m);
    } else if m < n {
      BusyBefore(x, m, n);
    }
  }

  // What a search that stops has to do with the right answer.
  lemma AnswerIs(x: System, r: System)
    requires x.Valid() && r.Valid() && r.cipher == x.cipher && r.top == TopFinish && r.AllIdle() && r.key <= LAST_KEY
    requires if AllReadable(FirstText(x)) then r.key == 0 && r.ledr == 1 && r.d.cells == FirstText(x)
             else
               && 1 <= r.key && r.d.cells == Crypt(r.key, x.cipher)
               && (forall k: Key | 1 <= k < r.key :: !Solves(k, x.cipher))
               && (r.ledr == 1 <==> Solves(r.key, x.cipher)) && (r.ledr != 1 ==> r.ledr == 2 && r.key == LAST_KEY)
    ensures Answers(r) <==> FirstRight(x)
  {
    hide Crypt, AllReadable, FirstText, System.AllIdle;
    if FirstRight(x) {
      if r.ledr == 1 {
        assert Solves(r.key, r.cipher);
      } else {
        forall k: Key | k <= LAST_KEY
          ensures !Solves(k, x.cipher)
        {
          if k == 0 || k == r.key {
          } else {
            assert 1 <= k < r.key;
          }
        }
      }
    }
  }

  /** The exact condition, for one message: the decryptor answers if and only if no machine is missed and the
      attempt with key 0 gives what it should. */
  lemma AnswersIff(x: System)
    requires x.Valid() && Orderly(x) && x.top == CheckStart
    ensures (exists n: nat :: Steps(x.Next(true), n).top == TopFinish) <==> !Missed(x)
    ensures Answered(x) <==> !Missed(x) && FirstRight(x)
  {
    hide System.Next, Steps, FirstRight, FirstText, Missed, Orderly, Solves, Crypt, AllReadable, System.AllIdle;
    var y := x.Next(true);
    if Missed(x) {
      forall n: nat
        ensures Steps(y, n).top != TopFinish
      {
        MissedHangs(x, n);
      }
    } else {
      var n := EveryPress(x);
      AnswerIs(x, Steps(y, n));
      forall m: nat | Steps(y, m).top == TopFinish
        ensures m == n
      {
        OnlyStop(y, n, m);
      }
    }
  }

  // ----- all messages

  // Two decryptors that agree on everything the working memory depends on before the decryption.
  ghost predicate SameFront(x: System, y: System) {
    && x.Valid() && y.Valid()
    && x.top == y.top && x.key == y.key && x.s == y.s && x.init == y.init && x.scheduler == y.scheduler
  }

  lemma FrontStep(x: System, y: System, start: bool)
    requires SameFront(x, y) && Stage(x.top) < 5
    ensures SameFront(x.Next(start), y.Next(start))
  {
    hide Init.Next, Scheduler.Next, Decrypter.Next, Checker.Next, Ram.Clock;
  }

  lemma {:induction false} FrontSteps(x: System, y: System, n: nat)
    requires SameFront(x, y) && forall i | 0 <= i < n :: Stage(Steps(x, i).top) < 5
    ensures SameFront(Steps(x, n), Steps(y, n))
  {
    hide System.Next, SameFront;
    assert x.Valid() && y.Valid() by { FrontValid(x, y); }
    if n == 0 {
    } else {
      FrontSteps(x, y, n - 1);
      FrontStep(Steps(x, n - 1), Steps(y, n - 1), false);
    }
  }

  lemma FrontValid(x: System, y: System)
    requires SameFront(x, y)
    ensures x.Valid() && y.Valid()
  {
  }

  // The first box does not depend on the message.
  lemma BlindToMessage(x: System, cipher: seq<Byte>)
    requires x.Valid() && Orderly(x) && x.top == CheckStart && !Missed(x) && |cipher| == MESSAGE_LENGTH
    ensures FirstBox(x.(cipher := cipher)) == FirstBox(x)
  {
    hide System.Next, Steps, Orderly;
    var y := x.(cipher := cipher);
    FrontStep(x, y, true);
    ReachesDecrypt(x);
    FrontSteps(x.Next(true), y.Next(true), DecryptAt(x));
  }

  lemma OrderlyWhateverTheMessage(x: System, cipher: seq<Byte>)
    requires Orderly(x) && |cipher| == MESSAGE_LENGTH
    ensures Orderly(x.(cipher := cipher)) && Missed(x.(cipher := cipher)) == Missed(x)
  {
  }

  lemma AnsweredIff(x: System, cipher: seq<Byte>)
    requires x.Valid() && Orderly(x) && x.top == CheckStart && |cipher| == MESSAGE_LENGTH
    ensures Answered(x.(cipher := cipher)) <==> !Missed(x) && FirstRight(x.(cipher := cipher))
    ensures !Missed(x) ==>
              FirstText(x.(cipher := cipher)) == XorAll(Generate(FirstBox(x), MESSAGE_LENGTH).stream, cipher)
  {
    hide System.Next, Steps, Missed, Orderly, Generate, XorAll, Answered, FirstBox, FirstRight;
    OrderlyWhateverTheMessage(x, cipher);
    AnswersIff(x.(cipher := cipher));
    if !Missed(x) {
      BlindToMessage(x, cipher);
    }
  }

  // With the key stream of key 0 the first attempt is right; with another one some message spoils it.
  lemma RightStream(x: System, stream: seq<Byte>)
    requires x.Valid() && |stream| == MESSAGE_LENGTH && FirstText(x) == XorAll(stream, x.cipher)
    ensures stream == KeyStream(0, MESSAGE_LENGTH) ==> FirstRight(x)
    ensures AllReadable(XorAll(KeyStream(0, MESSAGE_LENGTH), x.cipher)) && !AllReadable(XorAll(stream, x.cipher)) ==>
              !FirstRight(x)
  {
    hide FirstText, XorAll, KeyStream, AllReadable;
  }

  /** The exact condition, for all messages: the decryptor answers every message if and only if no machine is missed
      and the first box generates the key stream of key 0. */
  lemma EveryMessage(x: System)
    requires x.Valid() && Orderly(x) && x.top == CheckStart
    ensures (forall cipher: seq<Byte> | |cipher| == MESSAGE_LENGTH :: Answered(x.(cipher := cipher)))
       <==> !Missed(x) && Generate(FirstBox(x), MESSAGE_LENGTH).stream == KeyStream(0, MESSAGE_LENGTH)
  {
    hide System.Next, Steps, Missed, Orderly, Generate, KeyStream, FirstBox, FirstRight, AllReadable, XorAll, Answered;
    var u, v := Generate(FirstBox(x), MESSAGE_LENGTH).stream, KeyStream(0, MESSAGE_LENGTH);
    if Missed(x) {
      AnsweredIff(x, v);
    } else if u != v {
      var cipher := StreamsDiffer(u, v);
      AnsweredIff(x, cipher);
      RightStream(x.(cipher := cipher), u);
    } else {
      forall cipher: seq<Byte> | |cipher| == MESSAGE_LENGTH
        ensures Answered(x.(cipher := cipher))
      {
        AnsweredIff(x, cipher);
        RightStream(x.(cipher := cipher), u);
      }
    }
  }

  // ----- presses that are safe

  /** The first machine is at rest, or has filled the memory correctly so far, and the second one will be at rest
      when it is started. */
  predicate Ready(x: System) {
    x.Valid() && !Missed(x) && SchedulerThen(x) == 0 && FilledBox(x) == Identity()
  }

  lemma ReadyIsRight(x: System)
    requires Ready(x) && x.top == CheckStart
    ensures FirstBox(x) == KeySchedule(0) && FirstText(x) == Crypt(0, x.cipher) && FirstRight(x)
  {
    hide Steps, System.Next, ScheduleFrom, Generate, XorAll, Missed;
    FirstBoxIs(x);
  }

  /** An idle decryptor stays ready. */
  lemma IdleIsReady(x: System, t: nat)
    requires x.Valid() && x.top == CheckStart && x.AllIdle()
    ensures Orderly(Steps(x, t)) && Ready(Steps(x, t))
  {
    hide Steps, System.Next, Orderly;
    NothingLeft(x);
    Resting(x, t);
    NothingLeft(Steps(x, t));
    IdleIsOrderly(x);
    OrderlySteps(x, t);
  }

  // Clocks after which no machine is in the way of a press.
  const SAFE: nat := SCHEDULE_CLOCKS - INIT_CLOCKS - 2

  /** A press 3326 clocks after the controller was put into its first state is safe. */
  lemma SafeLater(x: System, t: nat)
    requires x.Valid() && Orderly(x) && x.top == CheckStart && t >= SAFE
    ensures Orderly(Steps(x, t)) && Ready(Steps(x, t))
  {
    hide System.Next, Steps, SchedulerLeft, Orderly;
    OrderlySteps(x, t);
    MostLeft(x);
    Resting(x, t);
    NothingLeft(Steps(x, t));
  }

  /** If start is pressed when the decryptor is ready for it, then however long and however often the button is held
      down from then on, the decryptor next stops when it has found the smallest key whose decryption of the message
      is readable, with that text in the result memory and the first light on; or, when none of the keys up to
      3FFFFF gives readable text, the second light is on. */
  lemma FindsSmallestKey(x: System, button: nat -> bool, t: nat) returns (n: nat)
    requires x.Valid() && x.top == CheckStart && FirstPress(button, t)
    requires Orderly(Steps(x, t)) && Ready(Steps(x, t))
    ensures n > t && Answers(Runs(x, button, n))
    ensures forall i | t < i < n :: Runs(x, button, i).top != CheckStart && Runs(x, button, i).top != TopFinish
  {
    hide System.Next, Steps, Orderly, Ready, Answers, FirstPress;
    var p := Steps(x, t);
    NoSteps(x);
    NotYetThere(x, 0, t);
    var m := PressWhenReady(p);
    OncePressed(x, button, t, m);
    n := t + 1 + m;
    forall i | t < i < n
      ensures Runs(x, button, i).top != CheckStart && Runs(x, button, i).top != TopFinish
    {
      BusyBefore(p.Next(true), i - t - 1, m);
      OncePressed(x, button, t, i - t - 1);
    }
  }

  lemma PressWhenReady(x: System) returns (n: nat)
    requires x.Valid() && Orderly(x) && Ready(x) && x.top == CheckStart
    ensures var r := Steps(x.Next(true), n); Answers(r) && r.top == TopFinish
  {
    hide System.Next, Steps, Orderly, Ready, Missed, FirstText, FirstRight, System.AllIdle, Solves, Crypt, AllReadable;
    ReadyIsRight(x);
    NotMissedWhenReady(x);
    n := EveryPress(x);
    AnswerIs(x, Steps(x.Next(true), n));
  }

  lemma NotMissedWhenReady(x: System)
    requires Ready(x)
    ensures !Missed(x)
  {
  }

  /** A machine that is missed hangs the decryptor for good, whatever the button does later. */
  lemma HangsWhenMissed(x: System, button: nat -> bool, t: nat, n: nat)
    requires x.Valid() && x.top == CheckStart && FirstPress(button, t) && Missed(Steps(x, t)) && n > t
    ensures 1 <= Stage(Runs(x, button, n).top) < 5
  {
    hide System.Next, Steps, Missed, FirstPress;
    NoSteps(x);
    NotYetThere(x, 0, t);
    MissedHangs(Steps(x, t), n - t - 1);
    OncePressed(x, button, t, n - t - 1);
  }

  /** A readable message encrypted with a key the search covers is always deciphered to readable text, with
      a key no larger than the one it was encrypted with. */
  lemma EncryptedMessagesAreFound(x: System, button: nat -> bool, t: nat, key: Key, message: seq<Byte>) returns (n: nat)
    requires x.Valid() && x.top == CheckStart && FirstPress(button, t)
    requires Orderly(Steps(x, t)) && Ready(Steps(x, t))
    requires key < 0x40_0000 && |message| == 32 && AllReadable(message) && x.cipher == Crypt(key, message)
    ensures var r := Runs(x, button, n);
            && r.top == TopFinish && r.ledr == 1 && r.key <= key && AllReadable(r.d.cells)
            && (r.key == key ==> r.d.cells == message)
  {
    hide System.Next, Runs, Crypt, AllReadable, System.AllIdle, FirstPress, Orderly, Ready;
    CryptTwice(key, message);
    assert Solves(key, x.cipher);
    n := FindsSmallestKey(x, button, t);
  }

  // ----- a press that spoils the search

  lemma {:induction false} RestKeepsMemory(x: System, n: nat)
    requires x.Valid() && x.top == CheckStart
    ensures Steps(x, n).top == CheckStart && Steps(x, n).s.cells == x.s.cells
  {
    hide System.Next;
    if n == 0 {
    } else {
      RestKeepsMemory(x, n - 1);
      RestWritesNothing(Steps(x, n - 1));
    }
  }

  lemma RestWritesNothing(x: System)
    requires x.Valid() && x.top == CheckStart
    ensures x.Next(false).top == CheckStart && x.Next(false).s.cells == x.s.cells
  {
  }

  // Start and reset on two clocks in a row.
  lemma StartAndReset(x: System, pressed: bool)
    requires x.Valid() && x.top == CheckStart && x.AllIdle()
    ensures var y := x.Next(true).Reset(pressed);
            y.top == CheckStart && y.init == Init(Increment, 0) && y.scheduler.state == Idle && y.s.cells == x.s.cells
  {
  }

  // A press before the first machine writes its last cell, with the others never written.
  lemma WornSpoils(x: System, v: Byte) returns (cipher: seq<Byte>)
    requires x.Valid() && Orderly(x) && x.top == CheckStart && x.init == Init(Increment, 254)
    requires x.scheduler.state == Idle && x.s.cells == seq(256, _ => v)
    requires v == if KeyStream(0, MESSAGE_LENGTH)[0] == 0 then 1 else 0
    ensures |cipher| == MESSAGE_LENGTH && !Missed(x) && !Answered(x.(cipher := cipher))
  {
    hide System.Next, Steps, Orderly, Generate, KeyStream, ScheduleFrom, Answered, FirstBox;
    NothingLeft(x);
    assert FilledBox(x) == Worn(v);
    FirstBoxIs(x);
    WornStream(v, MESSAGE_LENGTH);
    EveryMessage(x);
    cipher :| |cipher| == MESSAGE_LENGTH && !Answered(x.(cipher := cipher));
  }

  /** A run without a hang that spoils the search: start, reset on the next clock, start again 254 clocks later. The
      first machine counts on, but what it should write is lost. If the working memory held the same value everywhere
      (which one depends on the first byte of the key stream of key 0) there is a message that is not answered. */
  lemma RunThatSpoils(x: System, pressed: bool) returns (cipher: seq<Byte>)
    requires x.Valid() && x.top == CheckStart && x.AllIdle()
    requires x.s.cells == seq(256, _ => if KeyStream(0, MESSAGE_LENGTH)[0] == 0 then 1 else 0)
    ensures |cipher| == MESSAGE_LENGTH
    ensures var y := Steps(x.Next(true).Reset(pressed), 254);
            y.top == CheckStart && !Missed(y) && !Answered(y.(cipher := cipher))
  {
    hide System.Next, System.Reset, Steps, Orderly, KeyStream, Answered, Missed, InitLeft, SchedulerLeft, DecrypterLeft;
    var z := x.Next(true).Reset(pressed);
    IdleIsOrderly(x);
    OrderlyStep(x, true);
    OrderlyStep(x.Next(true), pressed);
    StartAndReset(x, pressed);
    OrderlySteps(z, 254);
    RestKeepsMemory(z, 254);
    CountsOn(z);
    cipher := WornSpoils(Steps(z, 254), if KeyStream(0, MESSAGE_LENGTH)[0] == 0 then 1 else 0);
  }

  lemma CountsOn(x: System)
    requires x.Valid() && x.top == CheckStart && x.init == Init(Increment, 0) && x.scheduler.state == Idle
    ensures Steps(x, 254).init == Init(Increment, 254) && Steps(x, 254).scheduler.state == Idle
  {
    hide Steps, System.Next;
    NothingLeft(x);
    Resting(x, 254);
    NothingLeft(Steps(x, 254));
    Counted254(Steps(x, 254).init);
  }

  lemma Counted254(m: Init)
    ensures InitLeft(m) == 3 <==> m == Init(Increment, 254)
  {
  }
}
