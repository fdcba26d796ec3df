/** The decryptor finds the smallest key that decrypts its message to readable text. */
module KeySearch {
  import opened Rc4
  import opened DecryptorMachines
  import opened Clocks
  import opened Handshakes

  // What every phase leaves alone.
  ghost predicate Kept(x: System, r: System) {
    r.Valid() && r.key == x.key && r.ledr == x.ledr && r.cipher == x.cipher
  }

  // ----- filling the working memory

  // The memory with every cell from `c` on holding its own index.
  function FilledFrom(s: seq<Byte>, c: nat): (b: Box)
    requires |s| == 256
  {
    seq(256, i requires 0 <= i < 256 => if i < c then s[i] else i)
  }

  lemma InitStep(x: System)
    requires x.Valid() && x.top == WaitInit && x.init.state == Increment
    ensures var r := x.Next(false);
            && r.top == WaitInit && r.init == x.init.Next(false)
            && r.s.cells == x.s.cells[x.init.count := x.init.count]
  {
  }

  lemma {:induction false} InitLoop(x: System, c: Byte)
    requires x.Valid() && x.top == WaitInit && x.init == Init(Increment, c)
    ensures var r := Steps(x, 256 - c);
            r.top == WaitInit && r.init.state == InitFinish && r.s.cells == FilledFrom(x.s.cells, c)
    decreases 256 - c
  {
    hide System.Next;
    InitStep(x);
    Unrolled(x);
    if c == 255 {
    } else {
      InitLoop(x.Next(false), c + 1);
      StepsAdd(x, 1, 255 - c);
    }
  }

  lemma InitEnds(x: System)
    requires x.Valid() && x.top == WaitInit && x.init.state == InitFinish
    ensures x.Next(false).s.cells == x.s.cells
  {
  }

  /** The first machine fills the working memory from the cell it has reached up to the last one. */
  lemma InitPhase(x: System)
    requires x.Valid() && x.top == WaitInit && x.init.state != InitIdle
    ensures Steps(x, InitLeft(x.init)).s.cells
         == if x.init.state == Increment then FilledFrom(x.s.cells, x.init.count) else x.s.cells
  {
    hide System.Next, Steps;
    if x.init.state == Increment {
      InitLoop(x, x.init.count);
      InitEnds(Steps(x, 256 - x.init.count));
      StepAfter(x, 256 - x.init.count);
    } else {
      InitEnds(x);
      StepAfter(x, 0);
    }
  }

  // ----- the key schedule

  ghost predicate Scheduling(x: System) {
    x.Valid() && x.top == WaitSchedule
  }

  // Nothing that concerns the second machine has changed but the machine and the working memory.
  ghost predicate OnlyScheduler(x: System, r: System) {
    r.Valid() && r.top == x.top && r.key == x.key
  }

  lemma ScheduleStep(x: System)
    requires Scheduling(x) && x.scheduler.state != Finish
    ensures var r, f := x.Next(false), x.scheduler;
            && OnlyScheduler(x, r) && r.scheduler == f.Next(false, x.key, x.s.q)
            && r.s.cells == (if f.Wen() then x.s.cells[f.address := f.data] else x.s.cells)
            && r.s.q == r.s.cells[f.address]
  {
  }

  // Reading cell i.
  lemma ScheduleReadsI(x: System)
    requires Scheduling(x) && x.scheduler.state == UpdateAddress1
    ensures var r, f := Steps(x, 3), x.scheduler;
            && OnlyScheduler(x, r) && r.s.cells == x.s.cells
            && r.scheduler.state == UpdateJ && r.scheduler.i == f.i && r.scheduler.j == f.j
            && r.scheduler.si == x.s.cells[f.i]
  {
    hide KeyByte, KeySlice, Plus, System.Next, Steps;
    Unrolled(x);
    ScheduleStep(x);
    var x1 := x.Next(false);
    assert x1.scheduler.state == FetchMem1;
    ScheduleStep(x1);
    var x2 := x1.Next(false);
    assert x2.scheduler.state == FetchMem1Wait;
    ScheduleStep(x2);
  }

  // Updating j and reading cell j.
  lemma ScheduleReadsJ(x: System)
    requires Scheduling(x) && x.scheduler.state == UpdateJ
    ensures var r, f := Steps(x, 4), x.scheduler;
            var j := Plus(Plus(f.j, f.si), KeyByte(x.key, f.i));
            && OnlyScheduler(x, r) && r.s.cells == x.s.cells
            && r.scheduler.state == UpdateData1 && r.scheduler.i == f.i && r.scheduler.j == j && r.scheduler.si == f.si
            && r.scheduler.sj == x.s.cells[j]
  {
    hide KeyByte, KeySlice, Plus, System.Next, Steps;
    Unrolled(x);
    ScheduleStep(x);
    SliceIsKeyByte(x.key, x.scheduler.i);
    var x1 := x.Next(false);
    assert x1.scheduler.state == UpdateAddress2;
    ScheduleStep(x1);
    var x2 := x1.Next(false);
    assert x2.scheduler.state == FetchMem2;
    ScheduleStep(x2);
    var x3 := x2.Next(false);
    assert x3.scheduler.state == FetchMem2Wait;
    ScheduleStep(x3);
  }

  // Writing cell j, then cell i.
  lemma ScheduleWritesJ(x: System)
    requires Scheduling(x) && x.scheduler.state == UpdateData1
    ensures var r, f := Steps(x, 3), x.scheduler;
            && OnlyScheduler(x, r) && r.s.cells == x.s.cells[f.j := f.si]
            && r.scheduler.state == UpdateData2 && r.scheduler.i == f.i && r.scheduler.j == f.j
            && r.scheduler.sj == f.sj
  {
    hide KeyByte, KeySlice, Plus, System.Next, Steps;
    Unrolled(x);
    ScheduleStep(x);
    var x1 := x.Next(false);
    assert x1.scheduler.state == WriteMem1;
    ScheduleStep(x1);
    var x2 := x1.Next(false);
    assert x2.scheduler.state == WriteMem1Wait;
    ScheduleStep(x2);
  }

  lemma ScheduleWritesI(x: System)
    requires Scheduling(x) && x.scheduler.state == UpdateData2
    ensures var r, f := Steps(x, 3), x.scheduler;
            && OnlyScheduler(x, r) && r.s.cells == x.s.cells[f.i := f.sj]
            && r.scheduler.state == IncrementI && r.scheduler.i == f.i && r.scheduler.j == f.j
  {
    hide KeyByte, KeySlice, Plus, System.Next, Steps;
    Unrolled(x);
    ScheduleStep(x);
    var x1 := x.Next(false);
    assert x1.scheduler.state == WriteMem2;
    ScheduleStep(x1);
    var x2 := x1.Next(false);
    assert x2.scheduler.state == WriteMem2Wait;
    ScheduleStep(x2);
  }

  /** Thirteen clocks do one round of the key schedule. */
  lemma ScheduleRound(x: System)
    requires Scheduling(x) && x.scheduler.state == UpdateAddress1
    ensures var r, f := Steps(x, 13), x.scheduler;
            var j := Plus(Plus(f.j, x.s.cells[f.i]), KeyByte(x.key, f.i));
            && OnlyScheduler(x, r) && r.s.cells == Swapped(x.s.cells, f.i, j)
            && r.scheduler.state == IncrementI && r.scheduler.i == f.i && r.scheduler.j == j
  {
    hide KeyByte, Plus, Steps;
    ScheduleReadsI(x);
    ScheduleReadsJ(Steps(x, 3));
    StepsAdd(x, 3, 4);
    ScheduleWritesJ(Steps(x, 7));
    StepsAdd(x, 7, 3);
    ScheduleWritesI(Steps(x, 10));
    StepsAdd(x, 10, 3);
  }

  // One round and moving on to the next one.
  lemma ScheduleAdvances(x: System, s0: Box)
    requires Scheduling(x) && x.scheduler.state == UpdateAddress1
    requires ScheduleFrom(s0, x.key, x.scheduler.i) == (x.s.cells, x.scheduler.j)
    ensures var r, i := Steps(x, 14), x.scheduler.i;
            && OnlyScheduler(x, r) && ScheduleFrom(s0, x.key, i + 1) == (r.s.cells, r.scheduler.j)
            && if i == 255 then r.scheduler.state == Finish
               else r.scheduler.state == UpdateAddress1 && r.scheduler.i == i + 1
  {
    hide KeyByte, System.Next, Steps, Swapped;
    ScheduleRound(x);
    ScheduleStep(Steps(x, 13));
    StepAfter(x, 13);
  }

  // The rounds from `i` on.
  lemma {:induction false} ScheduleLoop(x: System, s0: Box, i: Byte)
    requires Scheduling(x) && x.scheduler.state == UpdateAddress1 && x.scheduler.i == i
    requires ScheduleFrom(s0, x.key, i) == (x.s.cells, x.scheduler.j)
    ensures var r := Steps(x, 14 * (256 - i));
            OnlyScheduler(x, r) && r.scheduler.state == Finish && r.s.cells == ScheduleFrom(s0, x.key, 256).0
    decreases 256 - i
  {
    hide System.Next, Steps, ScheduleFrom;
    ScheduleAdvances(x, s0);
    if i == 255 {
    } else {
      ScheduleLoop(Steps(x, 14), s0, i + 1);
      StepsAdd(x, 14, 14 * (255 - i));
    }
  }

  // The first clock of the phase and the last one.
  lemma ScheduleEnds(x: System)
    requires x.Valid()
    ensures x.top == RunSchedule && x.scheduler.state == Idle ==>
              var r := x.Next(false);
              && Scheduling(r) && r.key == x.key && r.s.cells == x.s.cells
              && r.scheduler.state == UpdateAddress1 && r.scheduler.i == 0 && r.scheduler.j == 0
    ensures Scheduling(x) && x.scheduler.state == Finish ==> x.Next(false).s.cells == x.s.cells
  {
  }

  /** The second machine leaves the working memory as the key schedule does. */
  lemma SchedulePhase(x: System)
    requires x.Valid() && x.top == RunSchedule && x.scheduler.state == Idle
    ensures Steps(x, SCHEDULE_CLOCKS + 1).s.cells == ScheduleFrom(x.s.cells, x.key, 256).0
  {
    hide System.Next, Steps;
    ScheduleEnds(x);
    StepAfter(x, 0);
    assert ScheduleFrom(x.s.cells, x.key, 0) == (x.s.cells, 0);
    ScheduleLoop(x.Next(false), x.s.cells, 0);
    StepsAdd(x, 1, 14 * 256);
    ScheduleEnds(Steps(x, SCHEDULE_CLOCKS));
    StepAfter(x, SCHEDULE_CLOCKS);
  }

  // ----- generating the key stream and decrypting

  ghost predicate Decrypting(x: System) {
    && x.Valid() && x.top == WaitDecrypt
    && x.init.state == InitIdle && x.scheduler.state == Idle && x.checker.state == CIdle
  }

  // Only the third machine and what it drives has changed.
  ghost predicate OnlyDecrypter(x: System, r: System) {
    r == x.(decrypter := r.decrypter, s := r.s, d := r.d, qm := r.qm) && r.Valid()
  }

  lemma DecryptStep(x: System)
    requires Decrypting(x) && x.decrypter.state != DFinish
    ensures var r, f := x.Next(false), x.decrypter;
            && OnlyDecrypter(x, r) && r.decrypter == f.Next(false, x.s.q, x.qm)
            && r.s.cells == (if f.Wen() then x.s.cells[f.address := f.data] else x.s.cells)
            && r.s.q == r.s.cells[f.address]
            && r.d.cells == (if f.WrenD() then x.d.cells[f.addressD := f.dataD] else x.d.cells)
            && r.qm == x.cipher[f.addressM]
  {
  }

  // Advancing i and reading cell i.
  lemma DecryptReadsI(x: System)
    requires Decrypting(x) && x.decrypter.state == DIncrementI
    ensures var r, f := Steps(x, 4), x.decrypter;
            && OnlyDecrypter(x, r) && r.s.cells == x.s.cells && r.d.cells == x.d.cells
            && r.decrypter.state == DUpdateJ && r.decrypter.i == Plus(f.i, 1) && r.decrypter.j == f.j
            && r.decrypter.k == f.k
            && r.decrypter.si == x.s.cells[r.decrypter.i] && r.decrypter.addressD == r.decrypter.addressM == f.k % 32
  {
    hide Plus, Xor, System.Next, Steps;
    Unrolled(x);
    DecryptStep(x);
    var x1 := x.Next(false);
    assert x1.decrypter.state == UpdateAddressI;
    DecryptStep(x1);
    var x2 := x1.Next(false);
    assert x2.decrypter.state == FetchMemI;
    DecryptStep(x2);
    var x3 := x2.Next(false);
    assert x3.decrypter.state == FetchMemIWait;
    DecryptStep(x3);
  }

  // What the later parts of a round do not touch.
  ghost predicate SameRound(f: Decrypter, g: Decrypter) {
    f.i == g.i && f.k == g.k && f.addressD == g.addressD && f.addressM == g.addressM
  }

  // Updating j and reading cell j.
  lemma DecryptReadsJ(x: System)
    requires Decrypting(x) && x.decrypter.state == DUpdateJ
    ensures var r, f := Steps(x, 4), x.decrypter;
            && OnlyDecrypter(x, r) && r.s.cells == x.s.cells && r.d.cells == x.d.cells && SameRound(r.decrypter, f)
            && r.decrypter.state == UpdateDataJ && r.decrypter.j == Plus(f.j, f.si)
            && r.decrypter.si == f.si && r.decrypter.sj == x.s.cells[r.decrypter.j]
  {
    hide Plus, Xor, System.Next, Steps;
    Unrolled(x);
    DecryptStep(x);
    var x1 := x.Next(false);
    assert x1.decrypter.state == UpdateAddressJ;
    DecryptStep(x1);
    var x2 := x1.Next(false);
    assert x2.decrypter.state == FetchMemJ;
    DecryptStep(x2);
    var x3 := x2.Next(false);
    assert x3.decrypter.state == FetchMemJWait;
    DecryptStep(x3);
  }

  // Writing cell j, then cell i.
  lemma DecryptWritesJ(x: System)
    requires Decrypting(x) && x.decrypter.state == UpdateDataJ
    ensures var r, f := Steps(x, 3), x.decrypter;
            && OnlyDecrypter(x, r) && r.s.cells == x.s.cells[f.j := f.si] && r.d.cells == x.d.cells
            && SameRound(r.decrypter, f) && r.decrypter.state == UpdateDataI && r.decrypter.j == f.j
            && r.decrypter.si == f.si && r.decrypter.sj == f.sj
  {
    hide Plus, Xor, System.Next, Steps;
    Unrolled(x);
    DecryptStep(x);
    var x1 := x.Next(false);
    assert x1.decrypter.state == WriteMemJ;
    DecryptStep(x1);
    var x2 := x1.Next(false);
    assert x2.decrypter.state == WriteMemJWait;
    DecryptStep(x2);
  }

  lemma DecryptWritesI(x: System)
    requires Decrypting(x) && x.decrypter.state == UpdateDataI
    ensures var r, f := Steps(x, 3), x.decrypter;
            && OnlyDecrypter(x, r) && r.s.cells == x.s.cells[f.i := f.sj] && r.d.cells == x.d.cells
            && SameRound(r.decrypter, f) && r.decrypter.state == UpdateAddressF && r.decrypter.j == f.j
            && r.decrypter.si == f.si && r.decrypter.sj == f.sj
  {
    hide Plus, Xor, System.Next, Steps;
    Unrolled(x);
    DecryptStep(x);
    var x1 := x.Next(false);
    assert x1.decrypter.state == WriteMemI;
    DecryptStep(x1);
    var x2 := x1.Next(false);
    assert x2.decrypter.state == WriteMemIWait;
    DecryptStep(x2);
  }

  // Reading the key byte.
  lemma DecryptReadsF(x: System)
    requires Decrypting(x) && x.decrypter.state == UpdateAddressF
    ensures var r, f := Steps(x, 3), x.decrypter;
            && OnlyDecrypter(x, r) && r.s.cells == x.s.cells && r.d.cells == x.d.cells && SameRound(r.decrypter, f)
            && r.decrypter.state == FetchDataEncrypt && r.decrypter.j == f.j
            && r.decrypter.f == x.s.cells[Plus(f.si, f.sj)]
  {
    hide Plus, Xor, System.Next, Steps;
    Unrolled(x);
    DecryptStep(x);
    var x1 := x.Next(false);
    assert x1.decrypter.state == FetchMemF;
    DecryptStep(x1);
    var x2 := x1.Next(false);
    assert x2.decrypter.state == FetchMemFWait;
    DecryptStep(x2);
  }

  // Combining it with the byte of the message and storing the result.
  lemma DecryptStores(x: System)
    requires Decrypting(x) && x.decrypter.state == FetchDataEncrypt
    ensures var r, f := Steps(x, 4), x.decrypter;
            && OnlyDecrypter(x, r) && r.s.cells == x.s.cells && SameRound(r.decrypter, f)
            && r.d.cells == x.d.cells[f.addressD := Xor(f.f, x.cipher[f.addressM])]
            && r.decrypter.state == IncrementK && r.decrypter.j == f.j
  {
    hide Plus, Xor, System.Next, Steps;
    Unrolled(x);
    DecryptStep(x);
    var x1 := x.Next(false);
    assert x1.decrypter.state == FetchDataEncryptWait;
    DecryptStep(x1);
    var x2 := x1.Next(false);
    assert x2.decrypter.state == UpdateDataDecrypt;
    DecryptStep(x2);
    var x3 := x2.Next(false);
    assert x3.decrypter.state == WriteMemDecrypt;
    DecryptStep(x3);
  }

  // The first half of a round: advancing i and j and swapping their cells.
  lemma DecryptSwaps(x: System)
    requires Decrypting(x) && x.decrypter.state == DIncrementI
    ensures var r, f := Steps(x, 14), x.decrypter;
            var i := Plus(f.i, 1);
            var j := Plus(f.j, x.s.cells[i]);
            && OnlyDecrypter(x, r) && r.s.cells == Swapped(x.s.cells, i, j) && r.d.cells == x.d.cells
            && r.decrypter.state == UpdateAddressF && r.decrypter.i == i && r.decrypter.j == j && r.decrypter.k == f.k
            && r.decrypter.si == x.s.cells[i] && r.decrypter.sj == x.s.cells[j]
            && r.decrypter.addressD == r.decrypter.addressM == f.k % 32
  {
    hide Plus, Steps;
    DecryptReadsI(x);
    DecryptReadsJ(Steps(x, 4));
    StepsAdd(x, 4, 4);
    DecryptWritesJ(Steps(x, 8));
    StepsAdd(x, 8, 3);
    DecryptWritesI(Steps(x, 11));
    StepsAdd(x, 11, 3);
  }

  // After a swap the two cells have the same sum.
  lemma SwappedSum(s: Box, i: Byte, j: Byte)
    ensures Plus(Swapped(s, i, j)[i], Swapped(s, i, j)[j]) == Plus(s[i], s[j])
  {
  }

  /** Twenty-one clocks generate one byte of the key stream and decrypt one byte of the message. */
  lemma DecryptRound(x: System)
    requires Decrypting(x) && x.decrypter.state == DIncrementI
    ensures var r, f := Steps(x, 21), x.decrypter;
            var i := Plus(f.i, 1);
            var j := Plus(f.j, x.s.cells[i]);
            var s' := Swapped(x.s.cells, i, j);
            && OnlyDecrypter(x, r) && r.s.cells == s'
            && r.d.cells == x.d.cells[f.k % 32 := Xor(s'[Plus(s'[i], s'[j])], x.cipher[f.k % 32])]
            && r.decrypter.state == IncrementK && r.decrypter.i == i && r.decrypter.j == j && r.decrypter.k == f.k
  {
    hide Xor, Steps, Plus, Swapped;
    var i := Plus(x.decrypter.i, 1);
    SwappedSum(x.s.cells, i, Plus(x.decrypter.j, x.s.cells[i]));
    DecryptSwaps(x);
    DecryptReadsF(Steps(x, 14));
    StepsAdd(x, 14, 3);
    DecryptStores(Steps(x, 17));
    StepsAdd(x, 17, 4);
  }

  // The first `k` bytes of the message are decrypted.
  ghost predicate DecryptedTo(x: System, s0: Box, k: nat)
    requires x.Valid() && k <= MESSAGE_LENGTH
  {
    var g := Generate(s0, k);
    && g.s == x.s.cells && g.i == x.decrypter.i && g.j == x.decrypter.j
    && forall m | 0 <= m < k :: x.d.cells[m] == Xor(g.stream[m], x.cipher[m])
  }

  lemma DecryptsOne(x: System, s0: Box, k: nat)
    requires Decrypting(x) && k < MESSAGE_LENGTH && x.decrypter.state == DIncrementI && x.decrypter.k == k
    requires DecryptedTo(x, s0, k)
    ensures var r := Steps(x, 21);
            && OnlyDecrypter(x, r) && r.decrypter.state == IncrementK && r.decrypter.k == k && DecryptedTo(r, s0, k + 1)
  {
    hide Xor, Steps, Plus, Swapped;
    DecryptRound(x);
  }

  // Moving on to the next byte.
  lemma DecryptAdvances(x: System, s0: Box, k: nat)
    requires Decrypting(x) && k < MESSAGE_LENGTH && x.decrypter.state == IncrementK && x.decrypter.k == k
    requires DecryptedTo(x, s0, k + 1)
    ensures var r := x.Next(false);
            && OnlyDecrypter(x, r) && DecryptedTo(r, s0, k + 1)
            && if k == MESSAGE_LENGTH - 1 then r.decrypter.state == DFinish
               else r.decrypter.state == DIncrementI && r.decrypter.k == k + 1
  {
    hide System.Next, Generate, Xor;
    DecryptStep(x);
  }

  // The rounds from byte `k` on.
  lemma {:induction false} DecryptLoop(x: System, s0: Box, k: nat) returns (n: nat)
    requires Decrypting(x) && k < MESSAGE_LENGTH && x.decrypter.state == DIncrementI && x.decrypter.k == k
    requires DecryptedTo(x, s0, k)
    ensures var r := Steps(x, n);
            OnlyDecrypter(x, r) && r.decrypter.state == DFinish && DecryptedTo(r, s0, MESSAGE_LENGTH)
    decreases MESSAGE_LENGTH - k
  {
    hide System.Next, Steps, DecryptedTo;
    DecryptsOne(x, s0, k);
    DecryptAdvances(Steps(x, 21), s0, k);
    StepAfter(x, 21);
    n := 22;
    if k < MESSAGE_LENGTH - 1 {
      var m := DecryptLoop(Steps(x, 22), s0, k + 1);
      StepsAdd(x, 22, m);
      n := 22 + m;
    }
  }

  // The first clock of the phase and the last one.
  lemma DecryptStarts(x: System)
    requires x.Valid() && x.top == RunDecrypt && x.AllIdle()
    ensures var r := x.Next(false);
            && Kept(x, r) && Decrypting(r) && r.s.cells == x.s.cells
            && r.decrypter.state == DIncrementI && r.decrypter.i == 0 && r.decrypter.j == 0 && r.decrypter.k == 0
  {
  }

  lemma DecryptEnds(x: System)
    requires Decrypting(x) && x.decrypter.state == DFinish
    ensures var r := x.Next(false); Kept(x, r) && r.top == RunCheck && r.AllIdle() && r.d.cells == x.d.cells
  {
  }

  lemma NoneDecrypted(x: System, s0: Box)
    requires x.Valid() && x.s.cells == s0 && x.decrypter.i == 0 && x.decrypter.j == 0
    ensures DecryptedTo(x, s0, 0)
  {
  }

  lemma AllDecrypted(x: System, s0: Box)
    requires x.Valid() && DecryptedTo(x, s0, MESSAGE_LENGTH)
    ensures x.d.cells == XorAll(Generate(s0, MESSAGE_LENGTH).stream, x.cipher)
  {
  }

  /** The third machine leaves the message in the result memory, decrypted with what the box generates. */
  lemma DecryptPhase(x: System) returns (n: nat)
    requires x.Valid() && x.top == RunDecrypt && x.AllIdle()
    ensures var r := Steps(x, n);
            && Kept(x, r) && r.top == RunCheck && r.AllIdle()
            && r.d.cells == XorAll(Generate(x.s.cells, MESSAGE_LENGTH).stream, x.cipher)
  {
    hide System.Next, Steps, Generate, XorAll, Xor, DecryptedTo;
    var s0 := x.s.cells;
    DecryptStarts(x);
    StepAfter(x, 0);
    NoneDecrypted(x.Next(false), s0);
    var m := DecryptLoop(x.Next(false), s0, 0);
    StepsAdd(x, 1, m);
    DecryptEnds(Steps(x, 1 + m));
    StepAfter(x, 1 + m);
    AllDecrypted(Steps(x, 1 + m), s0);
    n := m + 2;
  }

  // ----- checking the result

  ghost predicate Checking(x: System) {
    && x.Valid() && x.top == WaitCheck
    && x.init.state == InitIdle && x.scheduler.state == Idle && x.decrypter.state == DIdle
  }

  // Only the fourth machine and what it drives has changed.
  ghost predicate OnlyChecker(x: System, r: System) {
    r == x.(checker := r.checker, s := r.s, d := r.d, qm := r.qm) && r.Valid() && r.d.cells == x.d.cells
  }

  lemma CheckStep(x: System)
    requires Checking(x) && x.checker.state != ErrorState && x.checker.state != SuccessState
    ensures var r := x.Next(false);
            OnlyChecker(x, r) && r.checker == x.checker.Next(false, x.d.q) && r.d.q == x.d.cells[x.checker.count]
  {
  }

  // Three clocks look at one byte.
  lemma CheckOne(x: System)
    requires Checking(x) && x.checker.state == FetchDataD
    ensures var r := Steps(x, 3);
            && OnlyChecker(x, r) && r.checker.count == x.checker.count
            && r.checker.state == if Readable(x.d.cells[x.checker.count]) then IncrementCount else ErrorState
  {
    hide System.Next, Steps;
    Unrolled(x);
    CheckStep(x);
    CheckStep(x.Next(false));
    CheckStep(x.Next(false).Next(false));
  }

  // The bytes from `c` on.
  lemma {:induction false} CheckLoop(x: System, c: nat) returns (n: nat)
    requires Checking(x) && x.checker.state == FetchDataD && x.checker.count == c
    requires forall i | 0 <= i < c :: Readable(x.d.cells[i])
    ensures var r := Steps(x, n);
            && OnlyChecker(x, r)
            && r.checker.state == if AllReadable(x.d.cells) then SuccessState else ErrorState
    decreases MESSAGE_LENGTH - c
  {
    hide System.Next, Steps, Readable;
    CheckOne(x);
    n := 3;
    if Readable(x.d.cells[c]) {
      CheckStep(Steps(x, 3));
      StepAfter(x, 3);
      n := 4;
      if c < 31 {
        var m := CheckLoop(Steps(x, 4), c + 1);
        StepsAdd(x, 4, m);
        n := 4 + m;
      }
    } else {
      assert x.d.cells[c] in x.d.cells;
    }
  }

  // The first clock of the phase and the last one.
  lemma CheckEnds(x: System)
    requires x.Valid()
    ensures x.top == RunCheck && x.AllIdle() ==>
              var r := x.Next(false);
              Kept(x, r) && Checking(r) && r.d.cells == x.d.cells && r.checker == Checker(FetchDataD, 0)
    ensures Checking(x) && (x.checker.state == ErrorState || x.checker.state == SuccessState) ==>
              var r := x.Next(false);
              && r.AllIdle() && r.d.cells == x.d.cells && r.key == x.key
              && if x.checker.state == SuccessState then r.top == TopFinish && r.ledr == 1
                 else r.top == IncrementKey && r.ledr == 2
  {
  }

  /** The message is decrypted with the box as it is: the lights and the next state say whether the text that is
      then in the result memory is readable. */
  lemma AttemptWith(x: System) returns (n: nat)
    requires x.Valid() && x.top == RunDecrypt && x.AllIdle()
    ensures var r, text := Steps(x, n), XorAll(Generate(x.s.cells, MESSAGE_LENGTH).stream, x.cipher);
            && r.AllIdle() && r.key == x.key && r.d.cells == text
            && if AllReadable(text) then r.top == TopFinish && r.ledr == 1 else r.top == IncrementKey && r.ledr == 2
  {
    hide System.Next, Steps, Generate, XorAll, AllReadable;
    var c := DecryptPhase(x);
    var y := Steps(x, c);
    CheckEnds(y);
    StepAfter(y, 0);
    var m := CheckLoop(y.Next(false), 0);
    StepsAdd(y, 1, m);
    CheckEnds(Steps(y, 1 + m));
    StepAfter(y, 1 + m);
    StepsAdd(x, c, m + 2);
    n := c + m + 2;
  }

  // With all machines idle the box is set up for the current key.
  lemma SetsUpKey(x: System)
    requires x.Valid() && x.top == RunInit && x.AllIdle()
    ensures var r := Steps(x, INIT_CLOCKS + 1 + SCHEDULE_CLOCKS + 1);
            r.top == RunDecrypt && r.AllIdle() && r.key == x.key && r.s.cells == KeySchedule(x.key)
  {
    hide System.Next, Steps, ScheduleFrom, Init.Next;
    NothingLeft(x);
    Clocked(x, false);
    NothingDecided(x, false);
    StepAfter(x, 0);
    var y := x.Next(false);
    InitStarted(x);
    NothingLeft(y);
    InitTimeline(y, INIT_CLOCKS);
    InitPhase(y);
    StepsAdd(x, 1, INIT_CLOCKS);
    var z := Steps(x, INIT_CLOCKS + 1);
    assert z.s.cells == Identity();
    NothingLeft(z);
    ScheduleStarts(z);
    ScheduleTimeline(Steps(z, 1), SCHEDULE_CLOCKS);
    StepsAdd(z, 1, SCHEDULE_CLOCKS);
    SchedulePhase(z);
    StepsAdd(x, INIT_CLOCKS + 1, SCHEDULE_CLOCKS + 1);
    IdleIsOrderly(x);
    OrderlySteps(x, INIT_CLOCKS + 1 + SCHEDULE_CLOCKS + 1);
    NothingLeft(Steps(x, INIT_CLOCKS + 1 + SCHEDULE_CLOCKS + 1));
  }

  lemma InitStarted(x: System)
    requires x.Valid() && x.top == RunInit && x.init.state == InitIdle
    ensures x.Next(false).init == Init(Increment, 0)
  {
  }

  /** One key is tried: the result memory holds the message decrypted with it, and the lights and the next
      state say whether the text is readable. */
  lemma Attempt(x: System) returns (n: nat)
    requires x.Valid() && x.top == RunInit && x.AllIdle()
    ensures var r := Steps(x, n);
            && r.AllIdle() && r.key == x.key && r.d.cells == Crypt(x.key, x.cipher)
            && if AllReadable(Crypt(x.key, x.cipher)) then r.top == TopFinish && r.ledr == 1
               else r.top == IncrementKey && r.ledr == 2
  {
    hide System.Next, Steps, KeySchedule, Generate, XorAll, AllReadable, System.AllIdle;
    SetsUpKey(x);
    n := INIT_CLOCKS + 1 + SCHEDULE_CLOCKS + 1;
    var m := AttemptWith(Steps(x, n));
    StepsAdd(x, n, m);
    n := n + m;
  }

  // ----- the search

  ghost predicate Solves(key: Key, cipher: seq<Byte>) {
    AllReadable(Crypt(key, cipher))
  }

  lemma KeyStep(x: System)
    requires x.Valid() && x.top == IncrementKey && x.AllIdle()
    ensures var r := x.Next(false);
            && r.AllIdle() && r.ledr == x.ledr && r.d.cells == x.d.cells
            && if x.key == LAST_KEY then r.top == TopFinish && r.key == x.key
               else r.top == RunInit && r.key == (x.key + 1) % 0x100_0000
  {
  }

  // The search from a key on.
  lemma {:induction false} Search(x: System) returns (n: nat)
    requires x.Valid() && x.top == RunInit && x.AllIdle() && x.key <= LAST_KEY
    ensures var r := Steps(x, n);
            && r.top == TopFinish && r.AllIdle() && x.key <= r.key <= LAST_KEY && r.d.cells == Crypt(r.key, x.cipher)
            && (forall k: Key | x.key <= k < r.key :: !Solves(k, x.cipher))
            && (r.ledr == 1 <==> Solves(r.key, x.cipher))
            && (r.ledr != 1 ==> r.ledr == 2 && r.key == LAST_KEY)
    decreases LAST_KEY - x.key
  {
    hide System.Next, Steps, Crypt, AllReadable, System.AllIdle;
    n := Attempt(x);
    var y := Steps(x, n);
    if y.top == IncrementKey {
      KeyStep(y);
      StepAfter(x, n);
      n := n + 1;
      if x.key < LAST_KEY {
        var m := Search(Steps(x, n));
        StepsAdd(x, n, m);
        n := n + m;
      }
    }
  }
}
