/** The lock-free double buffers between the REAR cores: one writer that stores a frame field
    by field into the slot not in use and then flips the index, one reader that loads the index
    and then the fields. Every single memory access is a step of its own.

    The buffers differ only in their number of fields: 5 for drive commands and telemetry,
    3 for the ultrasonic frame, 1 for the speed. */
module DoubleBuffer {

  datatype Writer<V> = WriterIdle | Writing(slot: nat, frame: seq<V>, stored: nat)

  datatype Reader<V> = ReaderIdle | Reading(slot: nat, got: seq<V>)

  /** A completed read: how many frames had been published when it loaded the index. */
  datatype Read<V> = Read(at: nat, frame: seq<V>)

  /** `index` is the shared byte, of which only the low bit is used; `published` lists the
      frames in publishing order, starting with what the live slot held at boot. */
  datatype Memory<V> = Memory(
    slots: seq<seq<V>>, index: nat, writer: Writer<V>, reader: Reader<V>,
    published: seq<seq<V>>, loadedAt: nat, completed: seq<Read<V>>)

  datatype Step<V> = Begin(frame: seq<V>) | Store | Flip | Load | Fetch | Finish

  function Live<V>(m: Memory<V>): nat { m.index % 2 }

  predicate Shaped<V>(m: Memory<V>, n: nat)
  {
    && |m.slots| == 2 && |m.slots[0]| == |m.slots[1]| == n
    && (m.writer.Writing? ==> m.writer.slot < 2 && |m.writer.frame| == n && m.writer.stored <= n)
    && (m.reader.Reading? ==> m.reader.slot < 2 && |m.reader.got| <= n)
  }

  predicate Enabled<V>(m: Memory<V>, s: Step<V>, n: nat)
  {
    match s
    case Begin(frame) => m.writer.WriterIdle? && |frame| == n
    case Store => m.writer.Writing? && m.writer.stored < n
    case Flip => m.writer.Writing? && m.writer.stored == n
    case Load => m.reader.ReaderIdle?
    case Fetch => m.reader.Reading? && |m.reader.got| < n
    case Finish => m.reader.Reading? && |m.reader.got| == n
  }

  function Do<V>(m: Memory<V>, s: Step<V>, n: nat): (m': Memory<V>)
    requires Shaped(m, n) && Enabled(m, s, n)
    ensures Shaped(m', n)
  {
    match s
    case Begin(frame) => m.(writer := Writing(1 - Live(m), frame, 0))
    case Store =>
      var w := m.writer;
      m.(slots := m.slots[w.slot := m.slots[w.slot][w.stored := w.frame[w.stored]]],
         writer := w.(stored := w.stored + 1))
    case Flip =>
      m.(index := m.writer.slot, writer := WriterIdle, published := m.published + [m.writer.frame])
    case Load => m.(reader := Reading(Live(m), []), loadedAt := |m.published|)
    case Fetch => m.(reader := m.reader.(got := m.reader.got + [m.slots[m.reader.slot][|m.reader.got|]]))
    case Finish => m.(reader := ReaderIdle, completed := m.completed + [Read(m.loadedAt, m.reader.got)])
  }

  /** The one thing that must not happen: a store into a field that a read in progress has yet
      to fetch. A single publish during a read cannot do it, a second one can. */
  predicate Overtakes<V>(m: Memory<V>, s: Step<V>)
  {
    && s.Store? && m.writer.Writing? && m.reader.Reading?
    && m.writer.slot == m.reader.slot && |m.reader.got| <= m.writer.stored
  }

  /** A run of single steps in any interleaving. */
  ghost predicate Runs<V>(m: Memory<V>, steps: seq<Step<V>>, n: nat)
    requires Shaped(m, n)
    decreases |steps|
  {
    steps == [] || (Enabled(m, steps[0], n) && Runs(Do(m, steps[0], n), steps[1..], n))
  }

  ghost predicate NoOvertaking<V>(m: Memory<V>, steps: seq<Step<V>>, n: nat)
    requires Shaped(m, n) && Runs(m, steps, n)
    decreases |steps|
  {
    steps == [] || (!Overtakes(m, steps[0]) && NoOvertaking(Do(m, steps[0], n), steps[1..], n))
  }

  ghost function Exec<V>(m: Memory<V>, steps: seq<Step<V>>, n: nat): (m': Memory<V>)
    requires Shaped(m, n) && Runs(m, steps, n)
    ensures Shaped(m', n)
    decreases |steps|
  {
    if steps == [] then m else Exec(Do(m, steps[0], n), steps[1..], n)
  }

  /** Boot: arbitrary memory contents and an arbitrary index byte. */
  function Boot<V>(slot0: seq<V>, slot1: seq<V>, index: nat): Memory<V>
  {
    Memory([slot0, slot1], index, WriterIdle, ReaderIdle, [if index % 2 == 0 then slot0 else slot1], 0, [])
  }

  // ---------------------------------------------------------------- atomicity

  ghost predicate Atomic<V>(m: Memory<V>)
  {
    && (forall i :: 0 <= i < |m.completed| ==>
          1 <= m.completed[i].at <= |m.published| && m.completed[i].frame == m.published[m.completed[i].at - 1])
    && (forall i, j :: 0 <= i < j < |m.completed| ==> m.completed[i].at <= m.completed[j].at)
  }

  ghost predicate WriterInv<V>(m: Memory<V>, n: nat)
    requires Shaped(m, n)
  {
    && |m.published| >= 1 && m.slots[Live(m)] == m.published[|m.published| - 1]
    && (m.writer.Writing? ==>
          && m.writer.slot == 1 - Live(m)
          && m.slots[m.writer.slot][..m.writer.stored] == m.writer.frame[..m.writer.stored])
  }

  ghost predicate ReaderInv<V>(m: Memory<V>, n: nat)
    requires Shaped(m, n)
  {
    m.reader.Reading? ==>
      && 1 <= m.loadedAt <= |m.published|
      && |m.published[m.loadedAt - 1]| == n
      && m.reader.got == m.published[m.loadedAt - 1][..|m.reader.got|]
      && m.slots[m.reader.slot][|m.reader.got|..] == m.published[m.loadedAt - 1][|m.reader.got|..]
      && (m.completed != [] ==> m.completed[|m.completed| - 1].at <= m.loadedAt)
  }

  ghost predicate Inv<V>(m: Memory<V>, n: nat)
  {
    Shaped(m, n) && WriterInv(m, n) && ReaderInv(m, n) && Atomic(m)
  }

  lemma FinishKeepsAtomic<V>(m: Memory<V>, n: nat)
    requires Inv(m, n) && Enabled(m, Finish, n)
    ensures Atomic(Do(m, Finish, n))
  {
    var f := m.published[m.loadedAt - 1];
    assert f[..n] == f;
    assert |m.completed| > 1 ==> m.completed[0].at <= m.completed[|m.completed| - 1].at;
  }

  /** The writer never needs the side condition: it always works on the slot not in use. */
  lemma StepKeepsWriter<V>(m: Memory<V>, s: Step<V>, n: nat)
    requires Shaped(m, n) && WriterInv(m, n) && Enabled(m, s, n)
    ensures WriterInv(Do(m, s, n), n)
  {
    var m' := Do(m, s, n);
    match s {
      case Store =>
        var w := m.writer;
        assert m'.slots[w.slot][..w.stored + 1] == m.slots[w.slot][..w.stored] + [w.frame[w.stored]];
        assert w.frame[..w.stored + 1] == w.frame[..w.stored] + [w.frame[w.stored]];
      case Flip =>
        assert m.slots[m.writer.slot][..n] == m.slots[m.writer.slot];
        assert m.writer.frame[..n] == m.writer.frame;
      case _ =>
    }
  }

  /** A store elsewhere, or of a field already fetched, leaves what is yet to be fetched. */
  lemma StoreKeepsReader<V>(m: Memory<V>, n: nat)
    requires Inv(m, n) && Enabled(m, Store, n) && !Overtakes(m, Store)
    ensures ReaderInv(Do(m, Store, n), n)
  {
    if m.reader.Reading? {
      var s, s', k := m.slots[m.reader.slot], Do(m, Store, n).slots[m.reader.slot], |m.reader.got|;
      assert forall i :: k <= i < n ==> s'[i] == s[i];
      assert s'[k..] == s[k..];
    }
  }

  lemma FetchKeepsReader<V>(m: Memory<V>, n: nat)
    requires Inv(m, n) && Enabled(m, Fetch, n)
    ensures ReaderInv(Do(m, Fetch, n), n)
  {
    var f, s, k := m.published[m.loadedAt - 1], m.slots[m.reader.slot], |m.reader.got|;
    assert s[k..][0] == f[k..][0];
    assert f[..k + 1] == f[..k] + [f[k]];
    assert s[k + 1..] == s[k..][1..] && f[k + 1..] == f[k..][1..];
  }

  lemma StepKeepsInv<V>(m: Memory<V>, s: Step<V>, n: nat)
    requires Inv(m, n) && Enabled(m, s, n) && !Overtakes(m, s)
    ensures Inv(Do(m, s, n), n)
  {
    StepKeepsWriter(m, s, n);
    match s {
      case Store =>
        StoreKeepsReader(m, n);
      case Fetch =>
        FetchKeepsReader(m, n);
      case Finish =>
        FinishKeepsAtomic(m, n);
      case _ =>
    }
  }

  lemma {:induction false} ExecKeepsInv<V>(m: Memory<V>, steps: seq<Step<V>>, n: nat)
    requires Inv(m, n) && Runs(m, steps, n) && NoOvertaking(m, steps, n)
    ensures Inv(Exec(m, steps, n), n)
    decreases |steps|
  {
    if steps == [] {
    } else {
      StepKeepsInv(m, steps[0], n);
      ExecKeepsInv(Do(m, steps[0], n), steps[1..], n);
    }
  }

  /** In every interleaving without overtaking, every completed read is exactly the frame most
      recently published when it loaded the index, and reads never go back in publish order. */
  lemma ReadsAreAtomic<V>(slot0: seq<V>, slot1: seq<V>, index: nat, steps: seq<Step<V>>, n: nat)
    requires |slot0| == |slot1| == n
    requires Runs(Boot(slot0, slot1, index), steps, n) && NoOvertaking(Boot(slot0, slot1, index), steps, n)
    ensures Atomic(Exec(Boot(slot0, slot1, index), steps, n))
  {
    ExecKeepsInv(Boot(slot0, slot1, index), steps, n);
  }

  // ---------------------------------------------------------------- one publish, undisturbed

  function Stores<V>(count: nat): (s: seq<Step<V>>)
    ensures |s| == count
  {
    seq(count, i => Store)
  }

  function Fetches<V>(count: nat): (s: seq<Step<V>>)
    ensures |s| == count
  {
    seq(count, i => Fetch)
  }

  function Publish<V>(frame: seq<V>): seq<Step<V>> { [Begin(frame)] + Stores(|frame|) + [Flip] }

  lemma {:induction false} ExecConcat<V>(m: Memory<V>, a: seq<Step<V>>, b: seq<Step<V>>, n: nat)
    requires Shaped(m, n) && Runs(m, a, n) && Runs(Exec(m, a, n), b, n)
    ensures Runs(m, a + b, n) && Exec(m, a + b, n) == Exec(Exec(m, a, n), b, n)
    ensures NoOvertaking(m, a + b, n) <==> NoOvertaking(m, a, n) && NoOvertaking(Exec(m, a, n), b, n)
    decreases |a|
  {
    if a == [] {
      assert a + b == b;
    } else {
      assert (a + b)[1..] == a[1..] + b;
      ExecConcat(Do(m, a[0], n), a[1..], b, n);
    }
  }

  /** The remaining stores of a publish fill the slot and touch nothing else. */
  lemma {:induction false} StoresFillSlot<V>(m: Memory<V>, count: nat, n: nat)
    requires Shaped(m, n) && m.writer.Writing? && m.writer.stored + count == n
    requires m.slots[m.writer.slot][..m.writer.stored] == m.writer.frame[..m.writer.stored]
    ensures Runs(m, Stores(count), n)
    ensures Exec(m, Stores(count), n)
         == m.(slots := m.slots[m.writer.slot := m.writer.frame], writer := m.writer.(stored := n))
    decreases count
  {
    var w := m.writer;
    if count == 0 {
      assert m.slots[w.slot][..n] == m.slots[w.slot] && w.frame[..n] == w.frame;
    } else {
      var m1 := Do(m, Store, n);
      assert Stores<V>(count)[1..] == Stores<V>(count - 1);
      assert m1.slots[w.slot][..w.stored + 1] == m.slots[w.slot][..w.stored] + [w.frame[w.stored]];
      assert w.frame[..w.stored + 1] == w.frame[..w.stored] + [w.frame[w.stored]];
      StoresFillSlot(m1, count - 1, n);
      assert m1.slots[w.slot := w.frame] == m.slots[w.slot := w.frame];
    }
  }

  /** A publish that runs undisturbed replaces the spare slot by the frame and makes it live. */
  lemma PublishAlone<V>(m: Memory<V>, frame: seq<V>, n: nat)
    requires Shaped(m, n) && m.writer.WriterIdle? && |frame| == n
    ensures Runs(m, Publish(frame), n)
    ensures Exec(m, Publish(frame), n)
         == m.(slots := m.slots[1 - Live(m) := frame], index := 1 - Live(m), published := m.published + [frame])
  {
    var m1 := Do(m, Begin(frame), n);
    assert m1.slots[m1.writer.slot][..0] == frame[..0];
    StoresFillSlot(m1, n, n);
    var m2 := Exec(m1, Stores(n), n);

    var flip: seq<Step<V>> := [Flip];
    assert flip[1..] == [];
    assert Exec(m2, flip, n) == Do(m2, Flip, n);
    ExecConcat(m1, Stores(n), flip, n);
    assert Publish(frame)[1..] == Stores(n) + flip;
  }

  // ---------------------------------------------------------------- one read, undisturbed

  lemma {:induction false} FetchesReadSlot<V>(m: Memory<V>, count: nat, n: nat)
    requires Shaped(m, n) && m.reader.Reading? && |m.reader.got| + count <= n
    ensures Runs(m, Fetches(count), n)
    ensures Exec(m, Fetches(count), n)
         == m.(reader := m.reader.(got := m.reader.got
                                          + m.slots[m.reader.slot][|m.reader.got|..|m.reader.got| + count]))
    decreases count
  {
    var k := |m.reader.got|;
    var s := m.slots[m.reader.slot];
    if count == 0 {
      assert m.reader.got + s[k..k] == m.reader.got;
    } else {
      var m1 := Do(m, Fetch, n);
      assert Fetches<V>(count)[1..] == Fetches<V>(count - 1);
      FetchesReadSlot(m1, count - 1, n);
      assert s[k..k + count] == [s[k]] + s[k + 1..k + count];
      assert m1.reader.got + s[k + 1..k + count] == m.reader.got + s[k..k + count];
    }
  }

  /** The rest of a read in progress. */
  function Remaining<V>(count: nat): seq<Step<V>> { Fetches(count) + [Finish] }

  lemma RemainingReads<V>(m: Memory<V>, count: nat, n: nat)
    requires Shaped(m, n) && m.reader.Reading? && |m.reader.got| + count == n
    ensures Runs(m, Remaining(count), n)
    ensures Exec(m, Remaining(count), n)
         == m.(reader := ReaderIdle,
               completed := m.completed + [Read(m.loadedAt, m.reader.got + m.slots[m.reader.slot][|m.reader.got|..])])
  {
    FetchesReadSlot(m, count, n);
    var m1 := Exec(m, Fetches(count), n);
    var finish: seq<Step<V>> := [Finish];
    assert finish[1..] == [];
    assert Exec(m1, finish, n) == Do(m1, Finish, n);
    ExecConcat(m, Fetches(count), finish, n);
    assert m.slots[m.reader.slot][|m.reader.got|..n] == m.slots[m.reader.slot][|m.reader.got|..];
  }

  function ReadSteps<V>(n: nat): seq<Step<V>> { [Load] + Remaining(n) }

  /** A read that runs undisturbed completes with the live frame. */
  lemma ReadAlone<V>(m: Memory<V>, n: nat)
    requires Shaped(m, n) && m.reader.ReaderIdle?
    ensures Runs(m, ReadSteps(n), n)
    ensures Exec(m, ReadSteps(n), n)
         == m.(loadedAt := |m.published|, completed := m.completed + [Read(|m.published|, m.slots[Live(m)])])
  {
    var m1 := Do(m, Load, n);
    RemainingReads(m1, n, n);
    assert ReadSteps<V>(n)[1..] == Remaining(n);
    assert [] + m.slots[Live(m)][0..] == m.slots[Live(m)];
  }

  // ---------------------------------------------------------------- the side condition is needed

  /** Two publishes in the middle of a read. */
  function Overtaking<V>(a: seq<V>, b: seq<V>, count: nat): seq<Step<V>>
  {
    Publish(a) + Publish(b) + Remaining(count)
  }

  lemma OvertakenRead<V>(m: Memory<V>, a: seq<V>, b: seq<V>, n: nat)
    requires Shaped(m, n) && m.writer.WriterIdle? && |a| == |b| == n
    requires m.reader.Reading? && m.reader.slot == Live(m)
    ensures var k := |m.reader.got|;
            && Runs(m, Overtaking(a, b, n - k), n)
            && Exec(m, Overtaking(a, b, n - k), n).completed == m.completed + [Read(m.loadedAt, m.reader.got + b[k..])]
            && Exec(m, Overtaking(a, b, n - k), n).published == m.published + [a, b]
  {
    hide NoOvertaking, Remaining, Publish, Exec, Runs, Do;
    PublishAlone(m, a, n);
    var m1 := Exec(m, Publish(a), n);
    PublishAlone(m1, b, n);
    var m2 := Exec(m1, Publish(b), n);
    ExecConcat(m, Publish(a), Publish(b), n);
    RemainingReads(m2, n - |m.reader.got|, n);
    ExecConcat(m, Publish(a) + Publish(b), Remaining(n - |m.reader.got|), n);
    assert m.published + [a] + [b] == m.published + [a, b];
  }

  lemma {:induction false} StoresOvertake<V>(m: Memory<V>, count: nat, n: nat)
    requires Shaped(m, n) && m.writer.Writing? && m.writer.stored + count == n && Runs(m, Stores(count), n)
    ensures NoOvertaking(m, Stores(count), n)
       <==> count == 0 || m.reader.ReaderIdle? || m.reader.slot != m.writer.slot || |m.reader.got| == n
    decreases count
  {
    if count == 0 {
    } else {
      assert Stores<V>(count)[1..] == Stores<V>(count - 1);
      StoresOvertake(Do(m, Store, n), count - 1, n);
    }
  }

  /** An undisturbed publish overtakes exactly a read of the spare slot that is not all fetched. */
  lemma PublishOvertakes<V>(m: Memory<V>, frame: seq<V>, n: nat)
    requires Shaped(m, n) && m.writer.WriterIdle? && |frame| == n && Runs(m, Publish(frame), n)
    ensures NoOvertaking(m, Publish(frame), n)
       <==> m.reader.ReaderIdle? || m.reader.slot == Live(m) || |m.reader.got| == n
  {
    var m1 := Do(m, Begin(frame), n);
    assert m1.slots[m1.writer.slot][..0] == frame[..0];
    StoresFillSlot(m1, n, n);
    StoresOvertake(m1, n, n);
    var flip: seq<Step<V>> := [Flip];
    assert flip[1..] == [];
    ExecConcat(m1, Stores(n), flip, n);
    assert Publish(frame)[1..] == Stores(n) + flip;
  }

  lemma {:induction false} NoStoreNoOvertaking<V>(m: Memory<V>, steps: seq<Step<V>>, n: nat)
    requires Shaped(m, n) && Runs(m, steps, n) && forall s <- steps :: !s.Store?
    ensures NoOvertaking(m, steps, n)
    decreases |steps|
  {
    if steps == [] {
    } else {
      assert steps[0] in steps;
      NoStoreNoOvertaking(Do(m, steps[0], n), steps[1..], n);
    }
  }

  lemma RemainingOvertakesNothing<V>(m: Memory<V>, count: nat, n: nat)
    requires Shaped(m, n) && Runs(m, Remaining(count), n)
    ensures NoOvertaking(m, Remaining(count), n)
  {
    hide NoOvertaking, Runs;
    NoStoreNoOvertaking(m, Remaining(count), n);
  }

  /** The two publishes overtake exactly a read that still has a field to fetch. */
  lemma SecondPublishOvertakes<V>(m: Memory<V>, a: seq<V>, b: seq<V>, n: nat)
    requires Shaped(m, n) && m.writer.WriterIdle? && |a| == |b| == n
    requires m.reader.Reading? && m.reader.slot == Live(m)
    requires Runs(m, Overtaking(a, b, n - |m.reader.got|), n)
    ensures NoOvertaking(m, Overtaking(a, b, n - |m.reader.got|), n) <==> |m.reader.got| == n
  {
    hide NoOvertaking, Remaining, Publish, Exec, Runs, Do;
    var rest: seq<Step<V>> := Remaining(n - |m.reader.got|);
    PublishAlone(m, a, n);
    var m1 := Exec(m, Publish(a), n);
    PublishAlone(m1, b, n);
    var m2 := Exec(m1, Publish(b), n);
    PublishOvertakes(m, a, n);
    PublishOvertakes(m1, b, n);
    ExecConcat(m, Publish(a), Publish(b), n);
    RemainingReads(m2, n - |m.reader.got|, n);
    RemainingOvertakesNothing(m2, n - |m.reader.got|, n);
    ExecConcat(m, Publish(a) + Publish(b), rest, n);
  }

  /** Exactly when it tears: the first fields come from the frame that was live at the index
      load, the others from the second frame published since, so the completed read is the live
      frame if and only if the two agree on those others. */
  lemma DoubleOvertakeTears<V>(m: Memory<V>, a: seq<V>, b: seq<V>, n: nat)
    requires Inv(m, n) && m.writer.WriterIdle? && |a| == |b| == n
    requires m.reader.Reading? && m.reader.slot == Live(m)
    ensures var k, live := |m.reader.got|, m.published[m.loadedAt - 1];
            && Runs(m, Overtaking(a, b, n - k), n)
            && Exec(m, Overtaking(a, b, n - k), n).completed == m.completed + [Read(m.loadedAt, live[..k] + b[k..])]
            && (live[..k] + b[k..] == live <==> b[k..] == live[k..])
  {
    var k, live := |m.reader.got|, m.published[m.loadedAt - 1];
    OvertakenRead(m, a, b, n);
    assert live == live[..k] + live[k..];
    if live[..k] + b[k..] == live { assert (live[..k] + b[k..])[k..] == b[k..]; }
  }

  /** The steps of a run from boot in which the first read is overtaken after `k` fields. */
  function TearingRun<V>(a: seq<V>, b: seq<V>, k: nat, n: nat): seq<Step<V>>
    requires k <= n
  {
    [Load] + Fetches(k) + Overtaking(a, b, n - k)
  }

  /** From boot, for every position in the read: the run with two publishes after `k` fields
      breaks the side condition exactly while a field is left to fetch, and is atomic only if the
      last frame happens to agree with the live one from there on. */
  lemma BootRunTears<V>(slot0: seq<V>, slot1: seq<V>, index: nat, a: seq<V>, b: seq<V>, k: nat, n: nat)
    requires |slot0| == |slot1| == |a| == |b| == n && k <= n
    ensures var m, live := Boot(slot0, slot1, index), if index % 2 == 0 then slot0 else slot1;
            && Runs(m, TearingRun(a, b, k, n), n)
            && (NoOvertaking(m, TearingRun(a, b, k, n), n) <==> k == n)
            && (Atomic(Exec(m, TearingRun(a, b, k, n), n)) <==> b[k..] == live[k..])
  {
    hide Exec, Runs, Do, NoOvertaking, Overtaking, Atomic;
    var m, live := Boot(slot0, slot1, index), if index % 2 == 0 then slot0 else slot1;
    StartedRead(m, k, n);
    var m2 := Exec(m, [Load] + Fetches(k), n);
    OvertakenRead(m2, a, b, n);
    SecondPublishOvertakes(m2, a, b, n);
    NoStoreNoOvertaking(m, [Load] + Fetches(k), n);
    ExecConcat(m, [Load] + Fetches(k), Overtaking(a, b, n - k), n);
    OneReadAtomic(Exec(m, TearingRun(a, b, k, n), n), live, a, b, k);
  }

  /** A read in progress, `k` fields into the live frame. */
  lemma StartedRead<V>(m: Memory<V>, k: nat, n: nat)
    requires Shaped(m, n) && m.reader.ReaderIdle? && k <= n
    ensures Runs(m, [Load] + Fetches(k), n)
    ensures Exec(m, [Load] + Fetches(k), n)
         == m.(reader := Reading(Live(m), m.slots[Live(m)][..k]), loadedAt := |m.published|)
  {
    var m1 := Do(m, Load, n);
    FetchesReadSlot(m1, k, n);
    var steps: seq<Step<V>> := [Load] + Fetches(k);
    assert steps[1..] == Fetches(k);
    assert [] + m.slots[Live(m)][0..k] == m.slots[Live(m)][..k];
  }

  lemma OneReadAtomic<V>(t: Memory<V>, live: seq<V>, a: seq<V>, b: seq<V>, k: nat)
    requires |live| == |b| && k <= |b|
    requires t.completed == [Read(1, live[..k] + b[k..])] && t.published == [live, a, b]
    ensures Atomic(t) <==> b[k..] == live[k..]
  {
    assert live == live[..k] + live[k..];
    if live[..k] + b[k..] == live { assert (live[..k] + b[k..])[k..] == b[k..]; }
    assert Atomic(t) ==> t.completed[0].frame == live;
  }

  /** Whereas one publish in the middle of a read is harmless. */
  lemma SinglePublishIsHarmless<V>(m: Memory<V>, a: seq<V>, n: nat)
    requires Inv(m, n) && m.writer.WriterIdle? && |a| == n
    requires m.reader.Reading? && m.reader.slot == Live(m)
    ensures var steps := Publish(a) + Remaining(n - |m.reader.got|);
            && Runs(m, steps, n)
            && Exec(m, steps, n).completed == m.completed + [Read(m.loadedAt, m.published[m.loadedAt - 1])]
  {
    hide Exec, Runs, Do, Publish, Remaining;
    PublishAlone(m, a, n);
    var m1 := Exec(m, Publish(a), n);
    RemainingReads(m1, n - |m.reader.got|, n);
    ExecConcat(m, Publish(a), Remaining(n - |m.reader.got|), n);
    var live, k := m.published[m.loadedAt - 1], |m.reader.got|;
    assert live[..k] + live[k..] == live;
  }
}
