/** The double buffers of the REAR cores as they are written: CPU0 publishes drive commands
    to CPU1, CPU2 publishes ultrasonic frames to CPU0. */
module RearBuffers {
  import opened Words
  import DB = DoubleBuffer

  /** Speed and acceleration are float32 patterns. */
  datatype DriveCmd = DriveCmd(controlMode: byte, driveDirection: byte, targetSpeed: u32, accelCmd: u32,
                               emergencyStop: byte)

  datatype UltraFrame = UltraFrame(left: u32, right: u32, validMask: byte)

  function CmdFields(c: DriveCmd): seq<int>
  {
    [c.controlMode, c.driveDirection, c.targetSpeed, c.accelCmd, c.emergencyStop]
  }

  function UltraFields(f: UltraFrame): seq<int> { [f.left, f.right, f.validMask] }

  /** The shared memory of the step machine holds these slots and this index. */
  ghost predicate Shows(m: DB.Memory<int>, slots: seq<seq<int>>, index: nat, n: nat)
  {
    DB.Shaped(m, n) && m.slots == slots && m.index == index
  }

  /** Publishing `fields` step by step from `m` leads to these slots and this index. */
  ghost predicate PublishLeadsTo(m: DB.Memory<int>, fields: seq<int>, n: nat, slots: seq<seq<int>>, index: nat)
  {
    && DB.Shaped(m, n) && DB.Runs(m, DB.Publish(fields), n)
    && DB.Exec(m, DB.Publish(fields), n).slots == slots && DB.Exec(m, DB.Publish(fields), n).index == index
  }

  /** Reading step by step from `m` completes with `fields` and changes no shared memory. */
  ghost predicate ReadGives(m: DB.Memory<int>, n: nat, fields: seq<int>)
  {
    && DB.Shaped(m, n) && DB.Runs(m, DB.ReadSteps(n), n)
    && DB.Exec(m, DB.ReadSteps(n), n).completed == m.completed + [DB.Read(|m.published|, fields)]
    && DB.Exec(m, DB.ReadSteps(n), n).slots == m.slots && DB.Exec(m, DB.ReadSteps(n), n).index == m.index
  }

  lemma PublishFromHere(m: DB.Memory<int>, fields: seq<int>, n: nat)
    requires DB.Shaped(m, n) && m.writer.WriterIdle? && |fields| == n
    ensures PublishLeadsTo(m, fields, n, m.slots[1 - DB.Live(m) := fields], 1 - DB.Live(m))
  {
    DB.PublishAlone(m, fields, n);
  }

  lemma ReadFromHere(m: DB.Memory<int>, n: nat)
    requires DB.Shaped(m, n) && m.reader.ReaderIdle?
    ensures ReadGives(m, n, m.slots[DB.Live(m)])
  {
    DB.ReadAlone(m, n);
  }

  class DriveCmdBuffer {
    const buf: array<DriveCmd>
    var idx: byte

    ghost predicate Valid()
      reads this
    {
      buf.Length == 2 && idx < 2
    }

    /** What a reader sees that is not interrupted. */
    ghost function Latest(): DriveCmd
      requires Valid()
      reads this, buf
    {
      buf[idx]
    }

    /** The slots as sequences of fields. */
    ghost function Slots(): seq<seq<int>>
      requires Valid()
      reads this, buf
    {
      [CmdFields(buf[0]), CmdFields(buf[1])]
    }

    constructor (zero: DriveCmd)
      ensures Valid() && fresh(buf) && Latest() == zero
    {
      buf := new DriveCmd[2](i => zero);
      idx := 0;
    }

    method WriteDriveCmd(c: DriveCmd)
      requires Valid()
      modifies this`idx, buf
      ensures Valid() && Latest() == c && idx == 1 - old(idx)
      ensures buf[old(idx)] == old(Latest())
      ensures forall m: DB.Memory<int> :: Shows(m, old(Slots()), old(idx), 5) && m.writer.WriterIdle? ==>
                PublishLeadsTo(m, CmdFields(c), 5, Slots(), idx)
    {
      hide PublishLeadsTo;
      var w := 1 - idx;
      buf[w] := buf[w].(controlMode := c.controlMode);
      buf[w] := buf[w].(driveDirection := c.driveDirection);
      buf[w] := buf[w].(targetSpeed := c.targetSpeed);
      buf[w] := buf[w].(accelCmd := c.accelCmd);
      buf[w] := buf[w].(emergencyStop := c.emergencyStop);
      idx := w;
      forall m: DB.Memory<int> | Shows(m, old(Slots()), old(idx), 5) && m.writer.WriterIdle?
        ensures PublishLeadsTo(m, CmdFields(c), 5, Slots(), idx)
      {
        PublishFromHere(m, CmdFields(c), 5);
        assert m.slots[1 - DB.Live(m) := CmdFields(c)] == Slots();
      }
    }

    method ReadDriveCmd() returns (out: DriveCmd)
      requires Valid()
      ensures out == Latest()
      ensures forall m: DB.Memory<int> :: Shows(m, Slots(), idx, 5) && m.reader.ReaderIdle? ==>
                ReadGives(m, 5, CmdFields(out))
    {
      hide ReadGives;
      var i := idx;
      out := DriveCmd(buf[i].controlMode, buf[i].driveDirection, buf[i].targetSpeed, buf[i].accelCmd,
                      buf[i].emergencyStop);
      forall m: DB.Memory<int> | Shows(m, Slots(), idx, 5) && m.reader.ReaderIdle?
        ensures ReadGives(m, 5, CmdFields(out))
      {
        ReadFromHere(m, 5);
      }
    }
  }

  class UltraBuffer {
    const buf: array<UltraFrame>
    var idx: byte

    ghost predicate Valid()
      reads this
    {
      buf.Length == 2
    }

    ghost function Latest(): UltraFrame
      requires Valid()
      reads this, buf
    {
      buf[idx % 2]
    }

    /** The slots as sequences of fields. */
    ghost function Slots(): seq<seq<int>>
      requires Valid()
      reads this, buf
    {
      [UltraFields(buf[0]), UltraFields(buf[1])]
    }

    /** The memory keeps what it held at power-up, index byte included. */
    constructor (slot0: UltraFrame, slot1: UltraFrame, garbage: byte)
      ensures Valid() && fresh(buf) && Latest() == if garbage % 2 == 0 then slot0 else slot1
    {
      buf := new UltraFrame[2](i => if i == 0 then slot0 else slot1);
      idx := garbage;
    }

    method WriteUltra(f: UltraFrame)
      requires Valid()
      modifies this`idx, buf
      ensures Valid() && Latest() == f && idx == 1 - old(idx) % 2
      ensures buf[old(idx) % 2] == old(Latest())
      ensures forall m: DB.Memory<int> :: Shows(m, old(Slots()), old(idx), 3) && m.writer.WriterIdle? ==>
                PublishLeadsTo(m, UltraFields(f), 3, Slots(), idx)
    {
      hide PublishLeadsTo;
      var w := 1 - idx % 2;
      buf[w] := buf[w].(left := f.left);
      buf[w] := buf[w].(right := f.right);
      buf[w] := buf[w].(validMask := f.validMask);
      idx := w;
      forall m: DB.Memory<int> | Shows(m, old(Slots()), old(idx), 3) && m.writer.WriterIdle?
        ensures PublishLeadsTo(m, UltraFields(f), 3, Slots(), idx)
      {
        PublishFromHere(m, UltraFields(f), 3);
        assert m.slots[1 - DB.Live(m) := UltraFields(f)] == Slots();
      }
    }

    method ReadUltra() returns (out: UltraFrame)
      requires Valid()
      ensures out == Latest()
      ensures forall m: DB.Memory<int> :: Shows(m, Slots(), idx, 3) && m.reader.ReaderIdle? ==>
                ReadGives(m, 3, UltraFields(out))
    {
      hide ReadGives;
      var i := idx % 2;
      out := UltraFrame(buf[i].left, buf[i].right, buf[i].validMask);
      forall m: DB.Memory<int> | Shows(m, Slots(), idx, 3) && m.reader.ReaderIdle?
        ensures ReadGives(m, 3, UltraFields(out))
      {
        ReadFromHere(m, 3);
      }
    }
  }
}
