/** The four state machines of the RC4 decryptor and its memories, as register transfers: what every register
    holds after a clock edge (RC4-Decryptor/rtl: init_mem.sv, task2a.sv, task2b.sv, task3.sv, s_memory.vhd). */
module DecryptorMachines {
  import opened Rc4

  /** A synchronous memory: `q` is the cell addressed at the last clock edge, new data included. */
  datatype Ram = Ram(cells: seq<Byte>, q: Byte) {
    function Clock(address: nat, data: Byte, wren: bool): (r: Ram)
      requires address < |cells|
      ensures |r.cells| == |cells|
    {
      var cells' := if wren then cells[address := data] else cells;
      Ram(cells', cells'[address])
    }
  }

  // ----- init_mem.sv: writes 0 to 255 into the working memory

  datatype InitState = InitIdle | Increment | InitFinish

  datatype Init = Init(state: InitState, count: Byte) {
    function Next(start: bool): Init {
      match state
      case InitIdle => if start then Init(Increment, 0) else this
      case Increment => if count == 255 then this.(state := InitFinish) else this.(count := Plus(count, 1))
      case InitFinish => this.(state := InitIdle)
    }
  }

  // ----- task2a.sv: the key schedule

  datatype SchedulerState =
    | Idle | UpdateAddress1 | FetchMem1 | FetchMem1Wait | UpdateJ | UpdateAddress2 | FetchMem2 | FetchMem2Wait
    | UpdateData1 | WriteMem1 | WriteMem1Wait | UpdateData2 | WriteMem2 | WriteMem2Wait | IncrementI | Finish

  // The slice of the key register added in round `i`: bits 23 to 16, 15 to 8, or 7 to 0.
  function KeySlice(key: Key, i: Byte): Byte {
    if i % 3 == 0 then key / 0x1_0000 % 0x100
    else if i % 3 == 1 then key / 0x100 % 0x100
    else key % 0x100
  }

  /** The machine takes the bytes of the key in the order RC4 does. */
  lemma SliceIsKeyByte(key: Key, i: Byte)
    ensures KeySlice(key, i) == KeyByte(key, i)
  {
  }

  datatype Scheduler = Scheduler(state: SchedulerState, i: Byte, j: Byte, si: Byte, sj: Byte, address: Byte,
                                 data: Byte) {
    predicate Wen() {
      state == WriteMem1 || state == WriteMem1Wait || state == WriteMem2 || state == WriteMem2Wait
    }

    function Next(start: bool, key: Key, q: Byte): Scheduler {
      match state
      case Idle => if start then this.(state := UpdateAddress1, i := 0, j := 0) else this
      case UpdateAddress1 => this.(address := i, state := FetchMem1)
      case FetchMem1 => this.(si := q, state := FetchMem1Wait)
      case FetchMem1Wait => this.(si := q, state := UpdateJ)
      case UpdateJ => this.(j := Plus(Plus(j, si), KeySlice(key, i)), state := UpdateAddress2)
      case UpdateAddress2 => this.(address := j, state := FetchMem2)
      case FetchMem2 => this.(sj := q, state := FetchMem2Wait)
      case FetchMem2Wait => this.(sj := q, state := UpdateData1)
      case UpdateData1 => this.(address := j, data := si, state := WriteMem1)
      case WriteMem1 => this.(state := WriteMem1Wait)
      case WriteMem1Wait => this.(state := UpdateData2)
      case UpdateData2 => this.(address := i, data := sj, state := WriteMem2)
      case WriteMem2 => this.(state := WriteMem2Wait)
      case WriteMem2Wait => this.(state := IncrementI)
      case IncrementI => if i == 255 then this.(state := Finish) else this.(i := Plus(i, 1), state := UpdateAddress1)
      case Finish => this.(state := Idle)
    }
  }

  // ----- task2b.sv: the generator, which also decrypts

  const MESSAGE_LENGTH: nat := 32

  datatype DecrypterState =
    | DIdle | DIncrementI | UpdateAddressI | FetchMemI | FetchMemIWait | DUpdateJ | UpdateAddressJ | FetchMemJ
    | FetchMemJWait
    | UpdateDataJ | WriteMemJ | WriteMemJWait | UpdateDataI | WriteMemI | WriteMemIWait | UpdateAddressF | FetchMemF
    | FetchMemFWait | FetchDataEncrypt | FetchDataEncryptWait | UpdateDataDecrypt | WriteMemDecrypt | IncrementK
    | DFinish

  type Address32 = x: int | 0 <= x < 32

  datatype Decrypter = Decrypter(state: DecrypterState, i: Byte, j: Byte, k: Byte, si: Byte, sj: Byte, f: Byte,
                                 address: Byte, data: Byte, addressD: Address32, addressM: Address32, dataD: Byte) {
    predicate Wen() {
      state == WriteMemJ || state == WriteMemJWait || state == WriteMemI || state == WriteMemIWait
    }

    predicate WrenD() {
      state == WriteMemDecrypt
    }

    function Next(start: bool, q: Byte, qm: Byte): Decrypter {
      match state
      case DIdle => if start then this.(state := DIncrementI, i := 0, j := 0, k := 0) else this
      case DIncrementI => this.(i := Plus(i, 1), addressD := k % 32, addressM := k % 32, state := UpdateAddressI)
      case UpdateAddressI => this.(address := i, state := FetchMemI)
      case FetchMemI => this.(si := q, state := FetchMemIWait)
      case FetchMemIWait => this.(si := q, state := DUpdateJ)
      case DUpdateJ => this.(j := Plus(j, si), state := UpdateAddressJ)
      case UpdateAddressJ => this.(address := j, state := FetchMemJ)
      case FetchMemJ => this.(sj := q, state := FetchMemJWait)
      case FetchMemJWait => this.(sj := q, state := UpdateDataJ)
      case UpdateDataJ => this.(address := j, data := si, state := WriteMemJ)
      case WriteMemJ => this.(state := WriteMemJWait)
      case WriteMemJWait => this.(state := UpdateDataI)
      case UpdateDataI => this.(address := i, data := sj, state := WriteMemI)
      case WriteMemI => this.(state := WriteMemIWait)
      case WriteMemIWait => this.(state := UpdateAddressF)
      case UpdateAddressF => this.(address := Plus(si, sj), state := FetchMemF)
      case FetchMemF => this.(f := q, state := FetchMemFWait)
      case FetchMemFWait => this.(f := q, state := FetchDataEncrypt)
      case FetchDataEncrypt => this.(state := FetchDataEncryptWait)
      case FetchDataEncryptWait => this.(state := UpdateDataDecrypt)
      case UpdateDataDecrypt => this.(dataD := Xor(f, qm), state := WriteMemDecrypt)
      case WriteMemDecrypt => this.(state := IncrementK)
      case IncrementK =>
        if k == MESSAGE_LENGTH - 1 then this.(state := DFinish)
        else this.(k := Plus(k, 1), state := DIncrementI)
      case DFinish => this.(state := DIdle)
    }
  }

  // ----- task3.sv: checks that the decrypted text is readable

  datatype CheckerState =
    | CIdle | FetchDataD | FetchDataDWait | CheckDataVal | IncrementCount | ErrorState | SuccessState

  datatype Checker = Checker(state: CheckerState, count: Address32) {
    function Next(start: bool, qd: Byte): Checker {
      match state
      case CIdle => if start then Checker(FetchDataD, 0) else this
      case FetchDataD => this.(state := FetchDataDWait)
      case FetchDataDWait => this.(state := CheckDataVal)
      case CheckDataVal =>
        if (qd >= 97 && qd <= 122) || qd == 32 then this.(state := IncrementCount) else this.(state := ErrorState)
      case IncrementCount =>
        if count == 31 then this.(state := SuccessState)
        else this.(count := (count + 1) % 32, state := FetchDataD)
      case ErrorState => this.(state := CIdle)
      case SuccessState => this.(state := CIdle)
    }
  }

  // ----- ksa.sv: runs the four machines in turn and searches the keys

  datatype Top =
    | CheckStart | RunInit | WaitInit | RunSchedule | WaitSchedule | RunDecrypt | WaitDecrypt | RunCheck | WaitCheck
    | IncrementKey | TopFinish

  const LAST_KEY: Key := 0x3f_ffff

  /** Every register and memory of the decryptor. */
  datatype System = System(top: Top, key: Key, ledr: int, cipher: seq<Byte>, qm: Byte, s: Ram, d: Ram,
                           init: Init, scheduler: Scheduler, decrypter: Decrypter, checker: Checker) {
    predicate Valid() {
      |s.cells| == 256 && |d.cells| == 32 && |cipher| == 32
    }

    // The working memory's inputs, as the controller selects them.
    function ClockS(): Ram
      requires Valid()
    {
      match top
      case RunInit => s.Clock(init.count, init.count, init.state == Increment)
      case WaitInit => s.Clock(init.count, init.count, init.state == Increment)
      case RunSchedule => s.Clock(scheduler.address, scheduler.data, scheduler.Wen())
      case WaitSchedule => s.Clock(scheduler.address, scheduler.data, scheduler.Wen())
      case RunDecrypt => s.Clock(decrypter.address, decrypter.data, decrypter.Wen())
      case WaitDecrypt => s.Clock(decrypter.address, decrypter.data, decrypter.Wen())
      case _ => s.Clock(0, 0, false)
    }

    function ClockD(): Ram
      requires Valid()
    {
      match top
      case RunDecrypt => d.Clock(decrypter.addressD, decrypter.dataD, decrypter.WrenD())
      case WaitDecrypt => d.Clock(decrypter.addressD, decrypter.dataD, decrypter.WrenD())
      case RunCheck => d.Clock(checker.count, 0, false)
      case WaitCheck => d.Clock(checker.count, 0, false)
      case _ => d.Clock(0, 0, false)
    }

    function NextTop(start: bool): Top {
      match top
      case CheckStart => if start then RunInit else CheckStart
      case RunInit => WaitInit
      case WaitInit => if init.state == InitFinish then RunSchedule else WaitInit
      case RunSchedule => WaitSchedule
      case WaitSchedule => if scheduler.state == Finish then RunDecrypt else WaitSchedule
      case RunDecrypt => WaitDecrypt
      case WaitDecrypt => if decrypter.state == DFinish then RunCheck else WaitDecrypt
      case RunCheck => WaitCheck
      case WaitCheck =>
        if checker.state == ErrorState then IncrementKey
        else if checker.state == SuccessState then TopFinish
        else WaitCheck
      case IncrementKey => if key == LAST_KEY then TopFinish else RunInit
      case TopFinish => CheckStart
    }

    /** The whole system after a clock edge. */
    function Next(start: bool): (r: System)
      requires Valid()
      ensures r.Valid() && r.cipher == cipher
    {
      System(
        NextTop(start),
        if top == CheckStart && start then 0
        else if top == IncrementKey && key != LAST_KEY then (key + 1) % 0x100_0000 else key,
        if top == WaitCheck && checker.state == ErrorState then 2
        else if top == WaitCheck && checker.state == SuccessState then 1 else ledr,
        cipher,
        cipher[if top == RunDecrypt || top == WaitDecrypt then decrypter.addressM else 0],
        ClockS(), ClockD(),
        init.Next(top == RunInit),
        scheduler.Next(top == RunSchedule, key, s.q),
        decrypter.Next(top == RunDecrypt, s.q, qm),
        checker.Next(top == RunCheck, d.q))
    }

    /** The reset button restarts the controller and the key, but none of the four machines and not the lights. */
    function Reset(start: bool): (r: System)
      requires Valid()
      ensures r.Valid() && r.cipher == cipher
    {
      Next(start).(top := CheckStart, key := 0, ledr := ledr)
    }

    predicate AllIdle() {
      init.state == InitIdle && scheduler.state == Idle && decrypter.state == DIdle && checker.state == CIdle
    }
  }
}
