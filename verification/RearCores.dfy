/** CPU0 and CPU1 of REAR as one machine: the single stores and the flip of a publish, the index
    load and the single fetches of a read, and the tick of the control loop on what was read. */
module RearCores {
  import opened Words
  import opened Float32
  import opened RearBuffers
  import opened RearDrive
  import opened RearSafety
  import opened RearLink
  import DB = DoubleBuffer

  const FIELDS: nat := 5

  /** The command of five fields; other sequences do not occur. */
  function CmdOf(f: seq<int>): DriveCmd
  {
    if |f| == FIELDS && 0 <= f[0] < 0x100 && 0 <= f[1] < 0x100 && 0 <= f[2] < TWO32 && 0 <= f[3] < TWO32
       && 0 <= f[4] < 0x100 then
      DriveCmd(f[0], f[1], f[2], f[3], f[4])
    else DriveCmd(0, 0, 0, 0, 0)
  }

  lemma CmdOfFields(c: DriveCmd)
    ensures CmdOf(CmdFields(c)) == c
  {
  }

  datatype Cores = Cores(memory: DB.Memory<int>, loop: State)

  /** CPU0 begins a publish, stores a field, flips the index; CPU1 loads the index, fetches a
      field, and completes the read and runs its tick. */
  datatype CoreStep = BeginWrite(cmd: DriveCmd) | StoreField | FlipIndex | LoadIndex | FetchField
                    | RunTickOn(measured: Float)

  function Access(s: CoreStep): DB.Step<int>
  {
    match s
    case BeginWrite(cmd) => DB.Begin(CmdFields(cmd))
    case StoreField => DB.Store
    case FlipIndex => DB.Flip
    case LoadIndex => DB.Load
    case FetchField => DB.Fetch
    case RunTickOn(_) => DB.Finish
  }

  predicate Possible(c: Cores, s: CoreStep) { DB.Enabled(c.memory, Access(s), FIELDS) }

  function CoreDo(c: Cores, s: CoreStep): (c': Cores)
    requires DB.Shaped(c.memory, FIELDS) && Possible(c, s)
    ensures DB.Shaped(c'.memory, FIELDS)
  {
    Cores(DB.Do(c.memory, Access(s), FIELDS),
          if s.RunTickOn? then Tick(c.loop, s.measured, CmdOf(c.memory.reader.got)) else c.loop)
  }

  /** A run of single accesses in any interleaving. */
  ghost predicate CoreRuns(c: Cores, steps: seq<CoreStep>)
    requires DB.Shaped(c.memory, FIELDS)
    decreases |steps|
  {
    steps == [] || (Possible(c, steps[0]) && CoreRuns(CoreDo(c, steps[0]), steps[1..]))
  }

  ghost function CoreExec(c: Cores, steps: seq<CoreStep>): (c': Cores)
    requires DB.Shaped(c.memory, FIELDS) && CoreRuns(c, steps)
    ensures DB.Shaped(c'.memory, FIELDS)
    decreases |steps|
  {
    if steps == [] then c else CoreExec(CoreDo(c, steps[0]), steps[1..])
  }

  /** No store into a field that a read in progress has yet to fetch. */
  ghost predicate NoOvertaking(c: Cores, steps: seq<CoreStep>)
    requires DB.Shaped(c.memory, FIELDS) && CoreRuns(c, steps)
    decreases |steps|
  {
    steps == [] || (!DB.Overtakes(c.memory, Access(steps[0])) && NoOvertaking(CoreDo(c, steps[0]), steps[1..]))
  }

  lemma {:induction false} CoreKeepsInv(c: Cores, steps: seq<CoreStep>)
    requires DB.Inv(c.memory, FIELDS) && CoreRuns(c, steps) && NoOvertaking(c, steps)
    ensures DB.Inv(CoreExec(c, steps).memory, FIELDS)
    decreases |steps|
  {
    if steps == [] {
    } else {
      DB.StepKeepsInv(c.memory, Access(steps[0]), FIELDS);
      CoreKeepsInv(CoreDo(c, steps[0]), steps[1..]);
    }
  }

  /** A tick runs on the command most recently published when its read loaded the index. */
  lemma TickRunsOnPublished(c: Cores, measured: Float)
    requires DB.Inv(c.memory, FIELDS) && Possible(c, RunTickOn(measured))
    ensures 1 <= c.memory.loadedAt <= |c.memory.published|
    ensures CoreDo(c, RunTickOn(measured)).loop
         == Tick(c.loop, measured, CmdOf(c.memory.published[c.memory.loadedAt - 1]))
  {
    var f := c.memory.published[c.memory.loadedAt - 1];
    assert f[..FIELDS] == f;
  }

  lemma StopStops(l: State, measured: Float, cmd: DriveCmd)
    ensures Stops(cmd) ==> Stopped(Tick(l, measured, cmd))
  {
  }

  /** Boot, with the command slots zeroed. */
  function CoreBoot(zero: DriveCmd, loop: State): Cores
  {
    Cores(DB.Boot(CmdFields(zero), CmdFields(zero), 0), loop)
  }

  /** Brake dominance in every interleaving of the two cores: after any run from boot, a tick
      whose index load followed the flip of a stop command, and no later flip, leaves the car
      stopped, at whatever access of CPU0 the read was interrupted. */
  lemma StopTickBrakesInEveryInterleaving(zero: DriveCmd, loop: State, steps: seq<CoreStep>, measured: Float)
    requires CoreRuns(CoreBoot(zero, loop), steps) && NoOvertaking(CoreBoot(zero, loop), steps)
    requires Possible(CoreExec(CoreBoot(zero, loop), steps), RunTickOn(measured))
    ensures var c := CoreExec(CoreBoot(zero, loop), steps);
            && 1 <= c.memory.loadedAt <= |c.memory.published|
            && (Stops(CmdOf(c.memory.published[c.memory.loadedAt - 1])) ==>
                  Stopped(CoreDo(c, RunTickOn(measured)).loop))
  {
    hide CoreRuns, CoreExec, CoreDo, NoOvertaking, Possible, Stops, Stopped, Tick, CmdOf, DB.Overtakes;
    var c := CoreExec(CoreBoot(zero, loop), steps);
    CoreKeepsInv(CoreBoot(zero, loop), steps);
    TickRunsOnPublished(c, measured);
    StopStops(c.loop, measured, CmdOf(c.memory.published[c.memory.loadedAt - 1]));
  }

  // ---------------------------------------------------------------- without the side condition

  /** What holds in every interleaving whatsoever, overtaken reads included. */
  ghost predicate Sound(c: Cores)
  {
    && DB.Shaped(c.memory, FIELDS) && DB.WriterInv(c.memory, FIELDS)
    && (c.memory.reader.Reading? ==> c.memory.loadedAt <= |c.memory.published|)
  }

  lemma {:induction false} RunsKeepSound(c: Cores, steps: seq<CoreStep>)
    requires Sound(c) && CoreRuns(c, steps)
    ensures Sound(CoreExec(c, steps))
    decreases |steps|
  {
    if steps == [] {
    } else {
      DB.StepKeepsWriter(c.memory, Access(steps[0]), FIELDS);
      RunsKeepSound(CoreDo(c, steps[0]), steps[1..]);
    }
  }

  predicate Loads(steps: seq<CoreStep>) { exists s <- steps :: s.LoadIndex? }

  predicate NoFlip(steps: seq<CoreStep>) { forall s <- steps :: !s.FlipIndex? }

  /** The last index load came after the last flip. */
  predicate ReadSinceFlip(c: Cores) { c.memory.loadedAt == |c.memory.published| }

  /** The live command is a stop; a read in progress either began before it was made live, or
      has fetched its first fields. */
  ghost predicate StopIsLive(c: Cores)
  {
    && Sound(c) && Stops(CmdOf(c.memory.published[|c.memory.published| - 1]))
    && (c.memory.reader.Reading? && ReadSinceFlip(c) ==>
          && c.memory.reader.slot == DB.Live(c.memory)
          && c.memory.reader.got == c.memory.slots[DB.Live(c.memory)][..|c.memory.reader.got|])
  }

  /** Every flip that ends the publish of a stop command makes it live, in the middle of a read
      or not. */
  lemma FlipMakesStopLive(c: Cores, cmd: DriveCmd)
    requires Sound(c) && Possible(c, FlipIndex) && c.memory.writer.frame == CmdFields(cmd) && Stops(cmd)
    ensures StopIsLive(CoreDo(c, FlipIndex))
  {
    DB.StepKeepsWriter(c.memory, DB.Flip, FIELDS);
    CmdOfFields(cmd);
  }

  lemma StopStaysLive(c: Cores, s: CoreStep)
    requires StopIsLive(c) && Possible(c, s) && !s.FlipIndex?
    ensures StopIsLive(CoreDo(c, s))
    ensures ReadSinceFlip(c) || s.LoadIndex? ==> ReadSinceFlip(CoreDo(c, s))
    ensures s.RunTickOn? && ReadSinceFlip(c) ==> Stopped(CoreDo(c, s).loop)
  {
    hide Tick, Stops, Stopped;
    DB.StepKeepsWriter(c.memory, Access(s), FIELDS);
    var f, k := c.memory.slots[DB.Live(c.memory)], if c.memory.reader.Reading? then |c.memory.reader.got| else 0;
    match s {
      case FetchField =>
        assert f[..k + 1] == f[..k] + [f[k]];
      case RunTickOn(measured) =>
        assert f[..FIELDS] == f;
        StopStops(c.loop, measured, CmdOf(c.memory.reader.got));
      case _ =>
    }
  }

  lemma {:induction false} StopStaysLiveOverRun(c: Cores, steps: seq<CoreStep>)
    requires StopIsLive(c) && CoreRuns(c, steps) && NoFlip(steps)
    ensures StopIsLive(CoreExec(c, steps))
    ensures ReadSinceFlip(c) || Loads(steps) ==> ReadSinceFlip(CoreExec(c, steps))
    decreases |steps|
  {
    if steps == [] {
    } else {
      var s, rest := steps[0], steps[1..];
      assert steps == [s] + rest;
      StopStaysLive(c, s);
      StopStaysLiveOverRun(CoreDo(c, s), rest);
    }
  }

  /** From boot, in every interleaving of the two cores and with no assumption about overtaking:
      once a stop command has been made live, in the middle of a read or not, and until the next
      flip, an unfinished next publish included, every tick of a read begun since leaves the car
      stopped. */
  lemma StopHoldsUntilNextFlip(zero: DriveCmd, loop: State, before: seq<CoreStep>, cmd: DriveCmd, since: seq<CoreStep>,
                               measured: Float)
    requires CoreRuns(CoreBoot(zero, loop), before) && Possible(CoreExec(CoreBoot(zero, loop), before), FlipIndex)
    requires CoreExec(CoreBoot(zero, loop), before).memory.writer.frame == CmdFields(cmd) && Stops(cmd)
    requires CoreRuns(CoreDo(CoreExec(CoreBoot(zero, loop), before), FlipIndex), since) && NoFlip(since) && Loads(since)
    requires Possible(CoreExec(CoreDo(CoreExec(CoreBoot(zero, loop), before), FlipIndex), since), RunTickOn(measured))
    ensures var c := CoreExec(CoreDo(CoreExec(CoreBoot(zero, loop), before), FlipIndex), since);
            Stopped(CoreDo(c, RunTickOn(measured)).loop)
  {
    hide CoreRuns, CoreExec, CoreDo, Stops, Stopped;
    RunsKeepSound(CoreBoot(zero, loop), before);
    var c := CoreExec(CoreBoot(zero, loop), before);
    FlipMakesStopLive(c, cmd);
    StopStaysLiveOverRun(CoreDo(c, FlipIndex), since);
    StopStaysLive(CoreExec(CoreDo(c, FlipIndex), since), RunTickOn(measured));
  }
}
