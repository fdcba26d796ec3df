/** Song playback: `task2` writes three flags without locking, `task1`, of higher priority, reads them every
    ten milliseconds (hello_ucosii.c). A run is any interleaving of single flag writes and whole passes. */
module Playback {
  import opened Raster

  const BLOCK: nat := 1000              // samples sent per pass
  const FREQ_INCREMENT: int := 100
  const FREQ_NOMINAL: int := 44000
  const FREQ_MAX: int := 2 * 44000

  datatype Command = Play | Pause | Stop

  datatype Flags = Flags(play: int, pause: int, stop: int) {
    predicate AtMostOne() {
      && 0 <= play <= 1 && 0 <= pause <= 1 && 0 <= stop <= 1
      && play + pause + stop <= 1
    }
  }

  const NOTHING: Flags := Flags(0, 0, 0)

  // The flags a button's command sets.
  function Target(c: Command): Flags {
    match c
    case Play => Flags(1, 0, 0)
    case Pause => Flags(0, 1, 0)
    case Stop => Flags(0, 0, 1)
  }

  datatype Branch = Playing | Pausing | Stopping | Idle

  // The branch a pass of `task1` takes.
  function BranchOf(f: Flags): Branch {
    if f.play == 1 then Playing else if f.pause == 1 then Pausing else if f.stop == 1 then Stopping else Idle
  }

  /** `before` are the flags when the command now being written was given, `written` how many of its three
      flags have been written, `sent` the song offsets sent so far. */
  datatype State = State(flags: Flags, before: Flags, command: Option<Command>, written: nat,
                         address: nat, freq: int, sent: seq<nat>)

  const START: State := State(NOTHING, NOTHING, None, 3, 0, FREQ_NOMINAL, [])

  datatype Event =
    | Press(c: Command)   // `task2` starts on a command, when it is done with the last one
    | Write               // it writes the next flag
    | Slower | Faster     // or it changes the sampling rate
    | Pass                // `task1` runs once

  function WithNext(f: Flags, t: Flags, written: nat): Flags {
    if written == 0 then f.(play := t.play) else if written == 1 then f.(pause := t.pause) else f.(stop := t.stop)
  }

  // The address after a pass.
  function NextAddress(size: nat, branch: Branch, address: nat): nat {
    match branch
    case Playing => if address < size then address + BLOCK else 0
    case Pausing => address
    case Stopping => 0
    case Idle => address
  }

  function Step(size: nat, s: State, e: Event): State
    requires size > 0
  {
    match e
    case Press(c) => if s.written == 3 then s.(before := s.flags, command := Some(c), written := 0) else s
    case Write =>
      if s.written < 3 && s.command.Some?
      then s.(flags := WithNext(s.flags, Target(s.command.value), s.written), written := s.written + 1) else s
    case Slower =>
      if s.written == 3
      then s.(freq := if s.freq - FREQ_INCREMENT < FREQ_INCREMENT then FREQ_INCREMENT else s.freq - FREQ_INCREMENT)
      else s
    case Faster =>
      if s.written == 3
      then s.(freq := if s.freq + FREQ_INCREMENT > FREQ_MAX then FREQ_MAX else s.freq + FREQ_INCREMENT) else s
    case Pass =>
      s.(address := NextAddress(size, BranchOf(s.flags), s.address),
         sent := if BranchOf(s.flags) == Playing then s.sent + [s.address % size] else s.sent)
  }

  function RunFrom(size: nat, s: State, events: seq<Event>): State
    requires size > 0
  {
    if events == [] then s else Step(size, RunFrom(size, s, events[..|events| - 1]), events[|events| - 1])
  }

  function Run(size: nat, events: seq<Event>): State
    requires size > 0
  {
    RunFrom(size, START, events)
  }

  // What the flags are being changed to.
  function Goal(s: State): Flags {
    if s.command.Some? then Target(s.command.value) else NOTHING
  }

  ghost predicate Consistent(size: nat, s: State) {
    // the first flags are the new ones, the others still the old ones
    && s.written <= 3 && s.before.AtMostOne()
    && s.flags == Flags(if s.written >= 1 then Goal(s).play else s.before.play,
                        if s.written >= 2 then Goal(s).pause else s.before.pause,
                        if s.written >= 3 then Goal(s).stop else s.before.stop)
    // the playing position and the sampling rate
    && s.address % BLOCK == 0 && s.address < size + BLOCK
    && FREQ_INCREMENT <= s.freq <= FREQ_MAX && s.freq % FREQ_INCREMENT == 0
    && forall k | 0 <= k < |s.sent| :: s.sent[k] < size
  }

  /** Every interleaving keeps the state consistent. */
  lemma {:induction false} RunsAreConsistent(size: nat, events: seq<Event>)
    requires size > 0
    ensures Consistent(size, Run(size, events))
  {
    if events == [] {
    } else {
      RunsAreConsistent(size, events[..|events| - 1]);
    }
  }

  /** However the writes of a command interleave with the passes of `task1`, a pass takes the branch of the
      previous command, the branch of the new one, or none; and a complete update leaves at most one flag set. */
  lemma TornWritesAreHarmless(size: nat, events: seq<Event>)
    requires size > 0
    ensures var s := Run(size, events);
            && BranchOf(s.flags) in {BranchOf(s.before), BranchOf(Goal(s)), Idle}
            && (s.written == 3 ==> s.flags == Goal(s) && s.flags.AtMostOne())
  {
    RunsAreConsistent(size, events);
  }

  /** The player starts silent, at the start of the song and at 44000 samples a second. */
  lemma StartsSilent(size: nat)
    requires size > 0
    ensures Run(size, []) == State(Flags(0, 0, 0), Flags(0, 0, 0), None, 3, 0, 44000, [])
  {
  }

  // ----- commands and their flags

  /** One command, written flag by flag: play first, then pause, then stop. Only its own flag is set in the end. */
  lemma CommandIsWritten(size: nat, s: State, c: Command)
    requires size > 0 && s.written == 3
    ensures var s1, s2, s3 := RunFrom(size, s, [Press(c), Write]), RunFrom(size, s, [Press(c), Write, Write]),
                              RunFrom(size, s, [Press(c), Write, Write, Write]);
            var play, pause := if c == Play then 1 else 0, if c == Pause then 1 else 0;
            var stop := if c == Stop then 1 else 0;
            && s1.flags == Flags(play, s.flags.pause, s.flags.stop) && s2.flags == Flags(play, pause, s.flags.stop)
            && s3 == s.(flags := Flags(play, pause, stop), before := s.flags, command := Some(c))
  {
    FourEvents(size, s, Press(c), Write, Write, Write);
  }

  // The first events of a run, one by one.
  lemma FourEvents(size: nat, s: State, a: Event, b: Event, c: Event, d: Event)
    requires size > 0
    ensures RunFrom(size, s, [a, b]) == Step(size, Step(size, s, a), b)
    ensures RunFrom(size, s, [a, b, c]) == Step(size, RunFrom(size, s, [a, b]), c)
    ensures RunFrom(size, s, [a, b, c, d]) == Step(size, RunFrom(size, s, [a, b, c]), d)
  {
    hide Step;
    assert [a, b, c, d][..3] == [a, b, c] && [a, b, c][..2] == [a, b];
    assert [a, b][..1] == [a] && [a][..0] == [];
    assert RunFrom(size, s, []) == s;
    assert RunFrom(size, s, [a]) == Step(size, s, a);
  }

  /** Between two commands more than one flag can be set. Then play goes before pause, and pause before stop. */
  lemma FirstFlagCounts(size: nat, s: State)
    requires size > 0
    ensures var r := Step(size, s, Pass);
            if s.flags.play == 1
            then r == s.(sent := s.sent + [s.address % size],
                         address := if s.address < size then s.address + 1000 else 0)
            else if s.flags.pause == 1 then r == s
            else if s.flags.stop == 1 then r == s.(address := 0)
            else r == s
  {
  }

  /** While no new command is given: paused, or before the first command, the player holds its place and is silent;
      stopped, it is silent and the first pass takes it back to the start. */
  lemma {:induction false} WithoutPlaying(size: nat, s: State, events: seq<Event>)
    requires size > 0 && s.written == 3 && forall c :: Press(c) !in events
    requires s.flags in {Flags(0, 0, 0), Flags(0, 1, 0), Flags(0, 0, 1)}
    ensures var r := RunFrom(size, s, events);
            && r.flags == s.flags && r.written == 3 && r.sent == s.sent
            && r.address == if s.flags == Flags(0, 0, 1) && Pass in events then 0 else s.address
  {
    if events == [] {
    } else {
      var most, last := events[..|events| - 1], events[|events| - 1];
      forall c
        ensures Press(c) !in most
      {
        assert Press(c) !in events;
      }
      WithoutPlaying(size, s, most);
      assert last in events && events == most + [last];
    }
  }

  /** The rate buttons: slower and faster by 100, down to 100 and up to 88000. */
  lemma RateChanges(size: nat, s: State)
    requires size > 0 && s.written == 3
    ensures Step(size, s, Slower) == s.(freq := if s.freq < 200 then 100 else s.freq - 100)
    ensures Step(size, s, Faster) == s.(freq := if s.freq > 87900 then 88000 else s.freq + 100)
  {
  }

  // ----- continuous play

  // Blocks it takes to reach the end of the song.
  function Blocks(size: nat): nat {
    (size + 999) / 1000
  }

  // `n` passes in a row.
  function Passes(size: nat, s: State, n: nat): State
    requires size > 0
  {
    if n == 0 then s else Step(size, Passes(size, s, n - 1), Pass)
  }

  // The address before pass `n` of continuous play from 0.
  function CycleAddress(size: nat, n: nat): nat {
    1000 * (n % (Blocks(size) + 1))
  }

  /** Under continuous play the address goes up by 1000 to the first block at or after the end of the song, and
      starts again at 0; every pass sends the block at the address modulo the song's size. The address `1000 * a` it
      begins at can be any the player is ever at. */
  lemma {:induction false} PlayingCycles(size: nat, s: State, a: nat, n: nat)
    requires size > 0 && s.flags == Flags(1, 0, 0) && a <= Blocks(size) && s.address == 1000 * a
    ensures Passes(size, s, n)
              == s.(address := CycleAddress(size, a + n),
                    sent := s.sent + seq(n, k requires 0 <= k < n => CycleAddress(size, a + k) % size))
  {
    if n == 0 {
      Inside(a, Blocks(size) + 1);
    } else {
      PlayingCycles(size, s, a, n - 1);
      CycleStep(size, a + n - 1);
    }
  }

  lemma Inside(k: nat, period: nat)
    requires k < period
    ensures k % period == k
  {
    ModOf(0, k, period);
  }

  /** Over any run that pauses or stops, waits while anything but a command happens, and plays: after a pause the song
      goes on from where it was, after a stop (and at least one pass) from its start, and nothing was sent meanwhile. */
  lemma PlayAfterwards(size: nat, events: seq<Event>, c: Command, wait: seq<Event>)
    requires size > 0 && Run(size, events).written == 3 && c != Play && forall d :: Press(d) !in wait
    ensures var s := Run(size, events);
            var r := RunFrom(size, RunFrom(size, RunFrom(size, s, Given(c)), wait), Given(Play));
            && r.flags == Flags(1, 0, 0) && r.sent == s.sent
            && r.address == (if c == Stop && Pass in wait then 0 else s.address)
            && r.address % 1000 == 0 && r.address / 1000 <= Blocks(size)
  {
    var s := Run(size, events);
    RunsAreConsistent(size, events);
    hide Step;
    CommandIsWritten(size, s, c);
    var t := RunFrom(size, s, Given(c));
    WithoutPlaying(size, t, wait);
    CommandIsWritten(size, RunFrom(size, t, wait), Play);
  }

  function Given(c: Command): seq<Event> {
    [Press(c), Write, Write, Write]
  }

  lemma CycleStep(size: nat, n: nat)
    requires size > 0
    ensures NextAddress(size, Playing, CycleAddress(size, n)) == CycleAddress(size, n + 1)
  {
    var period := Blocks(size) + 1;
    ModStep(n, period);
    assert n % period < Blocks(size) <==> CycleAddress(size, n) < size;
  }

  lemma ModStep(n: nat, period: nat)
    requires period > 0
    ensures (n + 1) % period == if n % period == period - 1 then 0 else n % period + 1
  {
    var q, k := n / period, n % period;
    assert n == q * period + k;
    if k == period - 1 {
      assert n + 1 == (q + 1) * period + 0;
      ModOf(q + 1, 0, period);
    } else {
      ModOf(q, k + 1, period);
    }
  }

  lemma ModOf(q: nat, k: nat, period: nat)
    requires k < period
    ensures (q * period + k) % period == k
  {
    var x := q * period + k;
    var d := x / period - q;
    assert x == (x / period) * period + x % period;
    assert d * period == k - x % period;
    Multiples(d, period);
  }

  lemma Multiples(d: int, period: int)
    requires period >= 0
    ensures d >= 1 ==> d * period >= period
    ensures d <= -1 ==> d * period <= -period
  {
  }

  /** The last pass of every cycle is at or past the end of the song, so it sends one block more than the song
      has; that block starts at the start of the song again exactly when the song is a whole number of blocks
      or a block is a whole number of songs. */
  lemma ExtraBlock(size: nat)
    requires size > 0
    ensures size <= CycleAddress(size, Blocks(size)) < size + BLOCK
    ensures CycleAddress(size, Blocks(size)) % size == 0 <==> size % BLOCK == 0 || BLOCK % size == 0
  {
    var n := Blocks(size);
    ModOf(0, n, n + 1);
    assert n % (n + 1) == n;
    if size < BLOCK {
      assert n == 1;
    } else {
      var over := BLOCK * n - size;
      assert 0 <= over < BLOCK;
      ModOf(1, if over < size then over else 0, size);
    }
  }

  // ----- the program

  class Player {
    const size: nat
    var playSong: int
    var pauseSong: int
    var stopSong: int
    var freqReader: int
    var addressCounter: nat
    var sent: seq<nat>
    ghost var before: Flags
    var command: Option<Command>
    var written: nat

    ghost function Value(): State
      reads this
    {
      State(Flags(playSong, pauseSong, stopSong), before, command, written, addressCounter, freqReader, sent)
    }

    constructor (size: nat)
      ensures this.size == size && Value() == START
    {
      this.size := size;
      playSong, pauseSong, stopSong := 0, 0, 0;
      freqReader, addressCounter, sent := FREQ_NOMINAL, 0, [];
      before, command, written := NOTHING, None, 3;
    }

    /** One pass of `task1`. */
    method Task1Pass()
      requires size > 0
      modifies this
      ensures Value() == Step(size, old(Value()), Pass)
    {
      if playSong == 1 {
        sent := sent + [addressCounter % size];
        if addressCounter < size {
          addressCounter := addressCounter + BLOCK;
        } else {
          addressCounter := 0;
        }
      } else if pauseSong == 1 {
      } else if stopSong == 1 {
        addressCounter := 0;
      }
    }

    /** One statement of `task2`. */
    method Task2Step(e: Event)
      requires size > 0 && e != Pass
      modifies this
      ensures Value() == Step(size, old(Value()), e)
    {
      match e {
        case Press(c) =>
          if written == 3 {
            before, command, written := Flags(playSong, pauseSong, stopSong), Some(c), 0;
          }
        case Write =>
          if written < 3 && command.Some? {
            var c := command.value;
            if written == 0 {
              playSong := if c == Play then 1 else 0;
            } else if written == 1 {
              pauseSong := if c == Pause then 1 else 0;
            } else {
              stopSong := if c == Stop then 1 else 0;
            }
            written := written + 1;
          }
        case Slower =>
          if written == 3 {
            freqReader := freqReader - FREQ_INCREMENT;
            if freqReader < FREQ_INCREMENT {
              freqReader := FREQ_INCREMENT;
            }
          }
        case Faster =>
          if written == 3 {
            freqReader := freqReader + FREQ_INCREMENT;
            if freqReader > FREQ_MAX {
              freqReader := FREQ_MAX;
            }
          }
      }
    }
  }
}
