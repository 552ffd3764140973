/** The reader-writer lock as a transition system over any finite set of threads, each of which uses
    the blocking, trying or timed form of either side.  One event is one atomic operation; a futex
    wait may return at any moment, which is all exclusion needs to know about it. */
module RwLock {
  import opened Common
  import opened Sets

  type Tid = nat

  const WRITER_BIT: nat := 0x8000_0000

  datatype Mode = Blocking | Try | TimedFirst | Timed

  datatype Pc =
    | Idle
    | ReadLoad(m: Mode)             // state.load
    | ReadPeek(m: Mode, s: nat)     // writer_waiting.load
    | ReadCas(m: Mode, s: nat)      // compare_exchange(s, s + 1)
    | ReadSleep(m: Mode)            // deadline and futex wait
    | ReadLastLoad                  // state.load after a timeout
    | ReadLastCas(s: nat)           // compare_exchange(s, s + 1) after a timeout
    | Reading                       // next is fetch_sub(1)
    | WriteFast(m: Mode)            // compare_exchange(0, WRITER_BIT)
    | WriteAnnounce(m: Mode)        // writer_waiting.fetch_add(1)
    | WriteCas(m: Mode)             // compare_exchange(0, WRITER_BIT) of the slow path
    | WriteLoad(m: Mode)            // state.load
    | WriteSleep(m: Mode)           // deadline and futex wait
    | WriteLast                     // compare_exchange(0, WRITER_BIT) after a timeout
    | WriteWithdraw(got: bool)      // writer_waiting.fetch_sub(1)
    | Writing                       // next is fetch_and(!WRITER_BIT)

  datatype State = State(word: nat, waiting: nat, pc: map<Tid, Pc>)

  datatype Call = Read(m: Mode) | Write(m: Mode)

  /** How the world answers: a weak CAS that may fail spuriously, a deadline that has passed before the
      wait, a wait that is cut short. */
  datatype Luck = Good | Bad | Late

  datatype Event = Begin(t: Tid, call: Call) | Step(t: Tid, luck: Luck)

  ghost predicate Enabled(s: State, e: Event) {
    && e.t in s.pc
    && match e
       case Begin(t, call) => s.pc[t] == Idle && call.m != Timed
       case Step(t, _) => s.pc[t] != Idle
  }

  function EntryPc(call: Call): Pc { if call.Read? then ReadLoad(call.m) else WriteFast(call.m) }

  /** Where a reader goes when it cannot take the lock now. */
  function ReadRetry(m: Mode): Pc { if m == TimedFirst then ReadLoad(Timed) else ReadLoad(m) }

  function ReadBlocked(m: Mode): Pc {
    match m
    case Blocking => ReadSleep(m)
    case Try => Idle
    case TimedFirst => ReadLoad(Timed)
    case Timed => ReadSleep(m)
  }

  /** The effect of one atomic operation on the two words and on the thread that performs it. */
  function Exec(word: nat, waiting: nat, pc: Pc, luck: Luck): (nat, nat, Pc)
    requires pc != Idle
  {
    match pc
    case ReadLoad(m) =>
      (word, waiting, if word >= WRITER_BIT then ReadBlocked(m) else if m == Try then ReadCas(m, word) else ReadPeek(m, word))
    case ReadPeek(m, s) => (word, waiting, if waiting == 0 then ReadCas(m, s) else ReadBlocked(m))
    case ReadCas(m, s) => if word == s && luck != Bad then (s + 1, waiting, Reading) else (word, waiting, ReadRetry(m))
    case ReadSleep(m) =>
      (word, waiting, if m != Timed || luck == Good then ReadLoad(m) else if luck == Bad then Idle else ReadLastLoad)
    case ReadLastLoad => (word, waiting, if word >= WRITER_BIT then Idle else ReadLastCas(word))
    case ReadLastCas(s) => if word == s then (s + 1, waiting, Reading) else (word, waiting, Idle)
    case Reading => ((word + U32 - 1) % U32, waiting, Idle)
    case WriteFast(m) =>
      if word == 0 && (luck != Bad || m == Try) then (WRITER_BIT, waiting, Writing)
      else (word, waiting, if m == Try then Idle else WriteAnnounce(m))
    case WriteAnnounce(m) => (word, (waiting + 1) % U32, WriteCas(if m == TimedFirst then Timed else m))
    case WriteCas(m) => if word == 0 && luck != Bad then (WRITER_BIT, waiting, WriteWithdraw(true)) else (word, waiting, WriteLoad(m))
    case WriteLoad(m) => (word, waiting, if word == 0 then WriteCas(m) else WriteSleep(m))
    case WriteSleep(m) =>
      (word, waiting, if m != Timed || luck == Good then WriteCas(m) else if luck == Bad then WriteWithdraw(false) else WriteLast)
    case WriteLast => if word == 0 then (WRITER_BIT, waiting, WriteWithdraw(true)) else (word, waiting, WriteWithdraw(false))
    case WriteWithdraw(got) => (word, (waiting + U32 - 1) % U32, if got then Writing else Idle)
    case Writing => (word % WRITER_BIT, waiting, Idle)
  }

  ghost function Apply(s: State, e: Event): State
    requires Enabled(s, e)
  {
    match e
    case Begin(t, call) => s.(pc := s.pc[t := EntryPc(call)])
    case Step(t, luck) => var (w, n, p) := Exec(s.word, s.waiting, s.pc[t], luck); State(w, n, s.pc[t := p])
  }

  ghost predicate IsRun(s: State, es: seq<Event>)
    decreases |es|
  {
    es == [] || (Enabled(s, es[0]) && IsRun(Apply(s, es[0]), es[1..]))
  }

  ghost function Final(s: State, es: seq<Event>): State
    requires IsRun(s, es)
    decreases |es|
  {
    if es == [] then s else Final(Apply(s, es[0]), es[1..])
  }

  ghost predicate Init(s: State) {
    s.word == 0 && s.waiting == 0 && forall t :: t in s.pc ==> s.pc[t] == Idle
  }

  // ------------------------------------------------------------ the invariant

  predicate IsWriter(pc: Pc) { pc == Writing || pc == WriteWithdraw(true) }

  /** Between the announcement of a waiting writer and its withdrawal. */
  predicate IsSlow(pc: Pc) { pc.WriteCas? || pc.WriteLoad? || pc.WriteSleep? || pc.WriteLast? || pc.WriteWithdraw? }

  /** The thread is about to add itself to the reader count `s`. */
  predicate IsPending(pc: Pc) { pc.ReadPeek? || pc.ReadCas? || pc.ReadLastCas? }

  ghost function Readers(s: State): set<Tid> { set t | t in s.pc && s.pc[t] == Reading }
  ghost function Writers(s: State): set<Tid> { set t | t in s.pc && IsWriter(s.pc[t]) }
  ghost function SlowWriters(s: State): set<Tid> { set t | t in s.pc && IsSlow(s.pc[t]) }

  /** Readers and writers never overlap, there is at most one writer, and the word counts them. */
  predicate Encodes(word: nat, readers: nat, writers: nat) {
    && word == readers + WRITER_BIT * writers
    && readers <= WRITER_BIT && writers <= 1
    && (readers == 0 || writers == 0)
  }

  ghost predicate Exclusive(s: State) { Encodes(s.word, |Readers(s)|, |Writers(s)|) }

  predicate PendingOk(pc: Pc) { IsPending(pc) ==> pc.s < WRITER_BIT }

  ghost predicate Inv(s: State) {
    && Exclusive(s)
    && s.waiting == |SlowWriters(s)| % U32
    && (forall t :: t in s.pc ==> PendingOk(s.pc[t]))
  }

  /** One operation changes the word by what the thread that performs it becomes or stops being. */
  lemma ExecCounts(word: nat, waiting: nat, pc: Pc, luck: Luck, readers: nat, writers: nat)
    requires pc != Idle && Encodes(word, readers, writers) && PendingOk(pc)
    requires One(pc == Reading) <= readers && One(IsWriter(pc)) <= writers
    ensures var (word', _, pc') := Exec(word, waiting, pc, luck);
            && Encodes(word', readers - One(pc == Reading) + One(pc' == Reading), writers - One(IsWriter(pc)) + One(IsWriter(pc')))
            && PendingOk(pc')
  {}

  lemma ExecWaiting(word: nat, waiting: nat, pc: Pc, luck: Luck, slow: nat)
    requires pc != Idle && waiting == slow % U32 && One(IsSlow(pc)) <= slow
    ensures var (_, waiting', pc') := Exec(word, waiting, pc, luck);
            waiting' == (slow - One(IsSlow(pc)) + One(IsSlow(pc'))) % U32
  {}

  // The number of threads in a role changes by the one thread that moved.

  lemma ReadersMoved(s: State, t: Tid, pc: Pc)
    requires t in s.pc
    ensures |Readers(s.(pc := s.pc[t := pc]))| == |Readers(s)| - One(s.pc[t] == Reading) + One(pc == Reading)
    ensures One(s.pc[t] == Reading) <= |Readers(s)|
  {
    assert t in Readers(s) <==> s.pc[t] == Reading;
    Redecide(Readers(s), Readers(s.(pc := s.pc[t := pc])), t, pc == Reading);
  }

  lemma WritersMoved(s: State, t: Tid, pc: Pc)
    requires t in s.pc
    ensures |Writers(s.(pc := s.pc[t := pc]))| == |Writers(s)| - One(IsWriter(s.pc[t])) + One(IsWriter(pc))
    ensures One(IsWriter(s.pc[t])) <= |Writers(s)|
  {
    assert t in Writers(s) <==> IsWriter(s.pc[t]);
    Redecide(Writers(s), Writers(s.(pc := s.pc[t := pc])), t, IsWriter(pc));
  }

  lemma SlowMoved(s: State, t: Tid, pc: Pc)
    requires t in s.pc
    ensures |SlowWriters(s.(pc := s.pc[t := pc]))| == |SlowWriters(s)| - One(IsSlow(s.pc[t])) + One(IsSlow(pc))
    ensures One(IsSlow(s.pc[t])) <= |SlowWriters(s)|
  {
    assert t in SlowWriters(s) <==> IsSlow(s.pc[t]);
    Redecide(SlowWriters(s), SlowWriters(s.(pc := s.pc[t := pc])), t, IsSlow(pc));
  }

  lemma Recount(s: State, s': State, t: Tid)
    requires t in s.pc && t in s'.pc && s'.pc == s.pc[t := s'.pc[t]]
    ensures |Readers(s')| == |Readers(s)| - One(s.pc[t] == Reading) + One(s'.pc[t] == Reading)
    ensures |Writers(s')| == |Writers(s)| - One(IsWriter(s.pc[t])) + One(IsWriter(s'.pc[t]))
    ensures |SlowWriters(s')| == |SlowWriters(s)| - One(IsSlow(s.pc[t])) + One(IsSlow(s'.pc[t]))
    ensures One(s.pc[t] == Reading) <= |Readers(s)| && One(IsWriter(s.pc[t])) <= |Writers(s)|
    ensures One(IsSlow(s.pc[t])) <= |SlowWriters(s)|
  {
    ReadersMoved(s, t, s'.pc[t]);
    WritersMoved(s, t, s'.pc[t]);
    SlowMoved(s, t, s'.pc[t]);
    assert Readers(s') == Readers(s.(pc := s'.pc)) && Writers(s') == Writers(s.(pc := s'.pc));
    assert SlowWriters(s') == SlowWriters(s.(pc := s'.pc));
  }

  lemma InvStep(s: State, e: Event)
    requires Inv(s) && Enabled(s, e)
    ensures Inv(Apply(s, e))
  {
    hide Exec, Encodes, Readers, Writers, SlowWriters;
    Recount(s, Apply(s, e), e.t);
    if e.Step? {
      ExecCounts(s.word, s.waiting, s.pc[e.t], e.luck, |Readers(s)|, |Writers(s)|);
      ExecWaiting(s.word, s.waiting, s.pc[e.t], e.luck, |SlowWriters(s)|);
    }
  }

  lemma {:induction false} InvRun(s: State, es: seq<Event>)
    requires Inv(s) && IsRun(s, es)
    ensures Inv(Final(s, es))
    decreases |es|
  {
    if es != [] {
      InvStep(s, es[0]);
      InvRun(Apply(s, es[0]), es[1..]);
    }
  }

  lemma InitInv(s: State)
    requires Init(s)
    ensures Inv(s)
  {
    assert Readers(s) == {} && Writers(s) == {} && SlowWriters(s) == {};
  }

  // ------------------------------------------------------------ what the lock promises

  /** After every run of any number of threads: a writer is alone, and the word is the number of
      readers plus the writer bit for a writer. */
  lemma Exclusion(s: State, es: seq<Event>)
    requires Init(s) && IsRun(s, es)
    ensures var f := Final(s, es);
            && f.word == |Readers(f)| + WRITER_BIT * |Writers(f)|
            && |Writers(f)| <= 1
            && (Readers(f) == {} || Writers(f) == {})
  {
    InitInv(s);
    InvRun(s, es);
  }

  /** The waiting-writer word counts the threads inside a write slow path, timeouts included, as long
      as there are fewer than 2^32 threads. */
  lemma WaitingWriters(s: State, es: seq<Event>)
    requires Init(s) && IsRun(s, es) && |Final(s, es).pc.Keys| < U32
    ensures Final(s, es).waiting == |SlowWriters(Final(s, es))|
  {
    InitInv(s);
    InvRun(s, es);
    var f := Final(s, es);
    SubsetSize(SlowWriters(f), f.pc.Keys);
  }

  /** Bit 31 says that a writer has the lock exactly as long as fewer than 2^31 threads read. */
  lemma WriterBitIff(s: State, es: seq<Event>)
    requires Init(s) && IsRun(s, es)
    ensures var f := Final(s, es);
            (f.word >= WRITER_BIT <==> Writers(f) != {}) <==> |Readers(f)| < WRITER_BIT
  {
    InitInv(s);
    InvRun(s, es);
  }

  /** Of the threads `all`, those in `reading` read and the others have not come yet. */
  function Crowd(all: set<Tid>, reading: set<Tid>): State {
    State(|reading|, 0, map t | t in all :: if t in reading then Reading else Idle)
  }

  lemma {:induction false} RunSnoc(s: State, es: seq<Event>, e: Event)
    requires IsRun(s, es) && Enabled(Final(s, es), e)
    ensures IsRun(s, es + [e]) && Final(s, es + [e]) == Apply(Final(s, es), e)
    decreases |es|
  {
    hide Apply, Enabled;
    if es == [] {
      assert [e][1..] == [];
    } else {
      RunSnoc(Apply(s, es[0]), es[1..], e);
      assert (es + [e])[1..] == es[1..] + [e];
    }
  }

  /** Below 2^31 readers, one more thread comes in with the blocking form. */
  lemma JoinCrowd(all: set<Tid>, reading: set<Tid>, t: Tid)
    requires t in all && t !in reading && |reading| < WRITER_BIT
    ensures var s0 := Crowd(all, reading);
            var s1 := s0.(pc := s0.pc[t := ReadLoad(Blocking)]);
            var s2 := s0.(pc := s0.pc[t := ReadPeek(Blocking, |reading|)]);
            var s3 := s0.(pc := s0.pc[t := ReadCas(Blocking, |reading|)]);
            && Enabled(s0, Begin(t, Read(Blocking))) && Apply(s0, Begin(t, Read(Blocking))) == s1
            && Enabled(s1, Step(t, Good)) && Apply(s1, Step(t, Good)) == s2
            && Enabled(s2, Step(t, Good)) && Apply(s2, Step(t, Good)) == s3
            && Enabled(s3, Step(t, Good)) && Apply(s3, Step(t, Good)) == Crowd(all, reading + {t})
  {
    var s0, k := Crowd(all, reading), |reading|;
    assert s0.pc[t := ReadLoad(Blocking)][t := ReadPeek(Blocking, k)] == s0.pc[t := ReadPeek(Blocking, k)];
    assert s0.pc[t := ReadPeek(Blocking, k)][t := ReadCas(Blocking, k)] == s0.pc[t := ReadCas(Blocking, k)];
    assert s0.pc[t := ReadCas(Blocking, k)][t := Reading] == Crowd(all, reading + {t}).pc;
  }

  /** Every set of at most 2^31 readers is reached from the fresh lock. */
  lemma {:induction false} CrowdReachable(all: set<Tid>, reading: set<Tid>) returns (es: seq<Event>)
    requires reading <= all && |reading| <= WRITER_BIT
    ensures Init(Crowd(all, {})) && IsRun(Crowd(all, {}), es) && Final(Crowd(all, {}), es) == Crowd(all, reading)
    decreases |reading|
  {
    if reading == {} {
      es := [];
    } else {
      var s := Crowd(all, {});
      var t :| t in reading;
      es := CrowdReachable(all, reading - {t});
      JoinCrowd(all, reading - {t}, t);
      assert reading - {t} + {t} == reading;
      hide *;
      RunSnoc(s, es, Begin(t, Read(Blocking)));
      es := es + [Begin(t, Read(Blocking))];
      RunSnoc(s, es, Step(t, Good));
      es := es + [Step(t, Good)];
      RunSnoc(s, es, Step(t, Good));
      es := es + [Step(t, Good)];
      RunSnoc(s, es, Step(t, Good));
      es := es + [Step(t, Good)];
    }
  }

  /** So 2^31 threads reach the failing state: the bit is set and nobody writes. */
  lemma BitWithoutWriter(all: set<Tid>, reading: set<Tid>) returns (es: seq<Event>)
    requires reading <= all && |reading| == WRITER_BIT
    ensures Init(Crowd(all, {})) && IsRun(Crowd(all, {}), es)
    ensures var f := Final(Crowd(all, {}), es); f.word >= WRITER_BIT && Writers(f) == {} && Readers(f) == reading
  {
    es := CrowdReachable(all, reading);
  }

  // ------------------------------------------------------------ writers go first

  /** Outside the lock, or trying to read it without having seen a moment without waiting writers. */
  predicate Yielding(pc: Pc) {
    pc == Idle || pc == ReadLoad(Blocking) || (pc.ReadPeek? && pc.m == Blocking) || pc == ReadSleep(Blocking)
  }

  /** A writer waits in every state before the end of the run. */
  ghost predicate WriterAlwaysWaits(s: State, es: seq<Event>)
    requires IsRun(s, es)
    decreases |es|
  {
    es == [] || (s.waiting != 0 && WriterAlwaysWaits(Apply(s, es[0]), es[1..]))
  }

  /** As long as writers wait, a thread that comes to read with the blocking form does not get the lock. */
  lemma {:induction false} WritersGoFirst(s: State, es: seq<Event>, t: Tid)
    requires IsRun(s, es) && WriterAlwaysWaits(s, es) && t in s.pc && Yielding(s.pc[t])
    requires forall i :: 0 <= i < |es| && es[i].Begin? && es[i].t == t ==> es[i].call == Read(Blocking)
    ensures t in Final(s, es).pc && Yielding(Final(s, es).pc[t])
    decreases |es|
  {
    if es != [] {
      var s' := Apply(s, es[0]);
      assert t in s'.pc && Yielding(s'.pc[t]);
      WritersGoFirst(s', es[1..], t);
    }
  }

  /** The trying form does not yield: it enters beside a waiting writer if the word is below bit 31. */
  lemma TryDoesNotYield(readers: nat, waiting: nat)
    requires readers < WRITER_BIT - 1 && 0 < waiting < U32
    ensures var (w1, n1, p1) := Exec(readers, waiting, EntryPc(Read(Try)), Good);
            var (w2, n2, p2) := Exec(w1, n1, p1, Good);
            p2 == Reading && w2 == readers + 1 && n2 == waiting
  {}

  // ------------------------------------------------------------ the answers of the calls

  /** What a thread in the middle of a call is about to be told when nobody interferes: that it has the lock, if the
      world is kind or if it is free when a timed wait ends at its deadline, or that it has not, if its deadline has
      passed: before the wait, and then there is no further attempt, or during it. */
  datatype Aim = GetWrite | GetRead | NoWrite | NoRead

  predicate Suits(aim: Aim, luck: Luck) { if aim == GetWrite || aim == GetRead then luck != Bad else luck != Good }

  /** The thread is on its way there. */
  predicate Toward(aim: Aim, luck: Luck, word: nat, waiting: nat, pc: Pc) {
    match aim
    case GetWrite =>
      if pc == WriteWithdraw(true) then word == WRITER_BIT
      else word == 0 && (pc.WriteFast? || pc.WriteAnnounce? || pc.WriteCas? || pc.WriteLoad? || pc.WriteSleep? || pc.WriteLast?)
    case GetRead =>
      && word < WRITER_BIT
      && (|| ((pc.ReadLoad? || pc.ReadCas? || pc.ReadSleep?) && (pc.m == Try || waiting == 0))
          || (pc.ReadPeek? && waiting == 0) || (luck == Late && pc == ReadSleep(Timed))
          || pc.ReadLastLoad? || (pc.ReadLastCas? && pc.s == word))
    case NoWrite =>
      pc == WriteWithdraw(false) || (luck == Bad && pc == WriteSleep(Timed)) ||
      (word != 0 &&
         (pc == WriteFast(Try) || pc == WriteFast(TimedFirst) || pc == WriteAnnounce(TimedFirst) || pc == WriteCas(Timed)
          || pc == WriteLoad(Timed) || pc == WriteSleep(Timed) || pc == WriteLast))
    case NoRead =>
      (luck == Bad && pc == ReadSleep(Timed)) ||
      (word >= WRITER_BIT &&
         (((pc.ReadLoad? || pc.ReadPeek? || pc.ReadCas?) && pc.m != Blocking)
          || pc == ReadSleep(Timed) || pc.ReadLastLoad? || pc.ReadLastCas?))
  }

  /** How many of its operations are left, at most. */
  function Left(aim: Aim, word: nat, pc: Pc): nat {
    match aim
    case GetWrite => if pc.WriteFast? || pc.WriteWithdraw? then 1 else if pc.WriteCas? || pc.WriteLast? then 2 else 3
    case GetRead =>
      match pc {
        case ReadLoad(m) => 3
        case ReadPeek(m, s) => if s == word then 2 else 5
        case ReadCas(m, s) => if s == word then 1 else 4
        case ReadLastLoad => 2
        case ReadLastCas(_) => 1
        case _ => 4
      }
    case NoWrite =>
      match pc {
        case WriteFast(m) => if m == Try then 1 else 7
        case WriteAnnounce(m) => 6
        case WriteCas(_) => 5
        case WriteLoad(_) => 4
        case WriteSleep(_) => 3
        case WriteLast => 2
        case _ => 1
      }
    case NoRead =>
      match pc {
        case ReadLoad(m) => if m == Try then 1 else if m == Timed then 3 else 4
        case ReadPeek(m, s) => 6
        case ReadCas(m, s) => 5
        case ReadSleep(_) => 2
        case _ => 1
      }
  }

  predicate Told(aim: Aim, before: nat, word: nat, pc: Pc) {
    match aim
    case GetWrite => word == WRITER_BIT && pc == Writing
    case GetRead => word == before + 1 && pc == Reading
    case NoWrite => word == before && pc == Idle
    case NoRead => word == before && pc == Idle
  }

  predicate Closer(aim: Aim, luck: Luck, word: nat, waiting: nat, pc: Pc)
    requires pc != Idle
  {
    var (word', waiting', pc') := Exec(word, waiting, pc, luck);
    || Told(aim, word, word', pc')
    || (&& Toward(aim, luck, word', waiting', pc') && PendingOk(pc') && Left(aim, word', pc') < Left(aim, word, pc)
        && (aim == GetWrite || word' == word))
  }

  lemma WriteCloser(aim: Aim, luck: Luck, word: nat, waiting: nat, pc: Pc)
    requires Suits(aim, luck) && Toward(aim, luck, word, waiting, pc) && PendingOk(pc) && (aim == GetWrite || aim == NoWrite)
    ensures pc != Idle && Closer(aim, luck, word, waiting, pc)
  {}

  lemma ReadCloser(aim: Aim, luck: Luck, word: nat, waiting: nat, pc: Pc)
    requires Suits(aim, luck) && Toward(aim, luck, word, waiting, pc) && PendingOk(pc) && (aim == GetRead || aim == NoRead)
    ensures pc != Idle && Closer(aim, luck, word, waiting, pc)
  {}

  /** The operations of thread t, one after the other, with the given luck. */
  ghost predicate AllOwn(es: seq<Event>, t: Tid, luck: Luck) { forall k :: 0 <= k < |es| ==> es[k] == Step(t, luck) }

  /** Only thread t has moved. */
  predicate OthersStay(s: State, f: State, t: Tid) { t in s.pc && t in f.pc && f.pc == s.pc[t := f.pc[t]] }

  lemma {:induction false} Answered(s: State, t: Tid, aim: Aim, luck: Luck) returns (es: seq<Event>)
    requires t in s.pc && Suits(aim, luck) && Toward(aim, luck, s.word, s.waiting, s.pc[t]) && PendingOk(s.pc[t])
    ensures AllOwn(es, t, luck) && |es| <= Left(aim, s.word, s.pc[t]) && IsRun(s, es)
    ensures var f := Final(s, es); t in f.pc && OthersStay(s, f, t) && Told(aim, s.word, f.word, f.pc[t])
    decreases Left(aim, s.word, s.pc[t])
  {
    var e := Step(t, luck);
    if aim == GetWrite || aim == NoWrite { WriteCloser(aim, luck, s.word, s.waiting, s.pc[t]); }
    else { ReadCloser(aim, luck, s.word, s.waiting, s.pc[t]); }
    assert Closer(aim, luck, s.word, s.waiting, s.pc[t]);
    var s' := Apply(s, e);
    assert s'.pc == s.pc[t := s'.pc[t]];
    hide Exec, Toward, PendingOk, Left;
    if Told(aim, s.word, s'.word, s'.pc[t]) {
      es := [e];
      assert es[1..] == [];
    } else {
      var rest := Answered(s', t, aim, luck);
      es := [e] + rest;
      assert es[1..] == rest;
    }
  }

  /** Whatever has happened: a writing call made while nobody has the lock gets it, by at most four events of the
      caller; while somebody has it, the trying form, and the timed form whose deadline has passed, come back without
      it and leave the word as it was. */
  lemma WriteAnswers(s: State, es: seq<Event>, t: Tid, m: Mode, late: bool) returns (on: seq<Event>)
    requires Init(s) && IsRun(s, es) && t in Final(s, es).pc && Final(s, es).pc[t] == Idle && m != Timed
    requires m == Blocking ==> Readers(Final(s, es)) == {} == Writers(Final(s, es))
    ensures var f := Final(s, es); IsRun(f, [Begin(t, Write(m))] + on)
    ensures var f, g := Final(s, es), Final(Final(s, es), [Begin(t, Write(m))] + on);
            && t in g.pc && OthersStay(f, g, t)
            && g.pc[t] == (if Readers(f) == {} == Writers(f) then Writing else Idle)
            && (g.pc[t] == Idle ==> g.word == f.word)
  {
    InitInv(s);
    InvRun(s, es);
    var f := Final(s, es);
    var free := Readers(f) == {} == Writers(f);
    NobodyIff(f);
    on := CallAnswers(f, t, Write(m), if free then GetWrite else NoWrite, if free then Good else if late then Late else Bad);
  }

  /** The same for a reading call: it gets the lock unless a writer has it or, except for the trying form, waits for
      it; while a writer has it, the trying and the timed form come back without it. */
  lemma ReadAnswers(s: State, es: seq<Event>, t: Tid, m: Mode, late: bool) returns (on: seq<Event>)
    requires Init(s) && IsRun(s, es) && |s.pc| < WRITER_BIT && t in Final(s, es).pc && Final(s, es).pc[t] == Idle && m != Timed
    requires Writers(Final(s, es)) == {} ==> m == Try || SlowWriters(Final(s, es)) == {}
    requires m == Blocking ==> Writers(Final(s, es)) == {}
    ensures var f := Final(s, es); IsRun(f, [Begin(t, Read(m))] + on)
    ensures var f, g := Final(s, es), Final(Final(s, es), [Begin(t, Read(m))] + on);
            && t in g.pc && OthersStay(f, g, t)
            && g.pc[t] == (if Writers(f) == {} then Reading else Idle)
            && (g.pc[t] == Idle ==> g.word == f.word)
  {
    InitInv(s);
    InvRun(s, es);
    var f := Final(s, es);
    KeysStay(s, es);
    NoWriterIff(f);
    on := CallAnswers(f, t, Read(m), if Writers(f) == {} then GetRead else NoRead, if Writers(f) == {} then Good else if late then Late else Bad);
  }

  /** Whoever has the lock gives it up with its next operation: a reader takes itself off the count, a writer leaves
      the word free. */
  lemma UnlockAnswers(s: State, es: seq<Event>, t: Tid, luck: Luck)
    requires Init(s) && IsRun(s, es) && t in Final(s, es).pc && HasLock(Final(s, es).pc[t])
    ensures Enabled(Final(s, es), Step(t, luck))
    ensures var f := Final(s, es);
            var f' := Apply(f, Step(t, luck));
            f'.pc == f.pc[t := Idle] && f'.waiting == f.waiting && if f.pc[t] == Reading then f'.word + 1 == f.word else f'.word == 0
  {
    InitInv(s);
    InvRun(s, es);
    HolderCounts(Final(s, es), t);
  }

  lemma HolderCounts(f: State, t: Tid)
    requires Inv(f) && t in f.pc && HasLock(f.pc[t])
    ensures if f.pc[t] == Reading then 0 < f.word <= WRITER_BIT else f.word == WRITER_BIT
  {
    if f.pc[t] == Reading { assert t in Readers(f); } else { assert t in Writers(f); }
    hide Readers, Writers;
  }

  lemma NobodyIff(f: State)
    requires Inv(f)
    ensures f.word == 0 <==> Readers(f) == {} == Writers(f)
  {
    hide Readers, Writers;
  }

  lemma NoWriterIff(f: State)
    requires Inv(f) && |f.pc| < WRITER_BIT
    ensures f.word < WRITER_BIT <==> Writers(f) == {}
    ensures SlowWriters(f) == {} ==> f.waiting == 0
  {
    SubsetSize(Readers(f), f.pc.Keys);
    assert |f.pc.Keys| == |f.pc|;
    hide Readers, Writers, SlowWriters;
  }

  lemma {:induction false} KeysStay(s: State, es: seq<Event>)
    requires IsRun(s, es)
    ensures Final(s, es).pc.Keys == s.pc.Keys && |Final(s, es).pc| == |s.pc|
    decreases |es|
  {
    if es != [] {
      assert Apply(s, es[0]).pc.Keys == s.pc.Keys;
      KeysStay(Apply(s, es[0]), es[1..]);
    }
    assert |s.pc| == |s.pc.Keys| && |Final(s, es).pc| == |Final(s, es).pc.Keys|;
  }

  lemma CallAnswers(f: State, t: Tid, call: Call, aim: Aim, luck: Luck) returns (on: seq<Event>)
    requires t in f.pc && f.pc[t] == Idle && call.m != Timed
    requires Suits(aim, luck) && Toward(aim, luck, f.word, f.waiting, EntryPc(call))
    ensures IsRun(f, [Begin(t, call)] + on) && AllOwn(on, t, luck) && |on| <= 7
    ensures var g := Final(f, [Begin(t, call)] + on); t in g.pc && OthersStay(f, g, t) && Told(aim, f.word, g.word, g.pc[t])
  {
    var b := Begin(t, call);
    var m := Apply(f, b);
    on := Answered(m, t, aim, luck);
    assert ([b] + on)[1..] == on;
    assert m.pc[t := Final(m, on).pc[t]] == f.pc[t := Final(m, on).pc[t]];
  }

  predicate HasLock(pc: Pc) { pc == Reading || pc == Writing }

  /** The thread is inside a blocking call, or a timed one whose deadline it has not found passed. */
  predicate Patient(pc: Pc) {
    match pc
    case ReadLoad(m) => m != Try
    case ReadPeek(m, _) => m != Try
    case ReadCas(m, _) => m != Try
    case ReadSleep(m) => m != Try
    case WriteFast(m) => m != Try
    case WriteAnnounce(m) => m != Try
    case WriteCas(m) => m != Try
    case WriteLoad(m) => m != Try
    case WriteSleep(m) => m != Try
    case WriteWithdraw(got) => got
    case _ => false
  }

  /** The thread's deadline does not pass in the event: it is not the end of a timed wait, or a good one. */
  ghost predicate InTime(s: State, e: Event, t: Tid) {
    e.Step? && e.t == t && t in s.pc && (s.pc[t] == ReadSleep(Timed) || s.pc[t] == WriteSleep(Timed)) ==> e.luck == Good
  }

  ghost predicate AllInTime(s: State, es: seq<Event>, t: Tid)
    requires IsRun(s, es)
    decreases |es|
  {
    es == [] || (InTime(s, es[0], t) && AllInTime(Apply(s, es[0]), es[1..], t))
  }

  /** The thread has had the lock at some moment of the run. */
  ghost predicate Got(s: State, es: seq<Event>, t: Tid)
    requires IsRun(s, es)
    decreases |es|
  {
    (t in s.pc && HasLock(s.pc[t])) || (es != [] && Got(Apply(s, es[0]), es[1..], t))
  }

  /** A blocking call, and a timed one before its deadline, does not come back without the lock, whatever happens
      meanwhile. */
  lemma {:induction false} NeverGivesUp(s: State, es: seq<Event>, t: Tid)
    requires IsRun(s, es) && t in s.pc && Patient(s.pc[t]) && AllInTime(s, es, t)
    ensures Got(s, es, t) || (t in Final(s, es).pc && Patient(Final(s, es).pc[t]))
    decreases |es|
  {
    if es != [] {
      StaysPatient(s, es[0], t);
      hide Patient, Apply, InTime;
      var s' := Apply(s, es[0]);
      if HasLock(s'.pc[t]) {
        assert Got(s', es[1..], t);
      } else {
        NeverGivesUp(s', es[1..], t);
      }
    }
  }

  lemma StaysPatient(s: State, e: Event, t: Tid)
    requires Enabled(s, e) && t in s.pc && Patient(s.pc[t]) && InTime(s, e, t)
    ensures t in Apply(s, e).pc && (HasLock(Apply(s, e).pc[t]) || Patient(Apply(s, e).pc[t]))
  {}

  /** Every blocking or timed call starts like that, and a blocking one never comes to a deadline. */
  lemma CallIsPatient(call: Call)
    requires call.m != Try
    ensures Patient(EntryPc(call))
  {}

  predicate NoDeadline(pc: Pc) {
    match pc
    case ReadLoad(m) => m == Blocking
    case ReadPeek(m, _) => m == Blocking
    case ReadCas(m, _) => m == Blocking
    case ReadSleep(m) => m == Blocking
    case WriteFast(m) => m == Blocking
    case WriteAnnounce(m) => m == Blocking
    case WriteCas(m) => m == Blocking
    case WriteLoad(m) => m == Blocking
    case WriteSleep(m) => m == Blocking
    case _ => true
  }

  lemma BlockingHasNoDeadline(word: nat, waiting: nat, pc: Pc, luck: Luck)
    requires pc != Idle && Patient(pc) && NoDeadline(pc)
    ensures var pc' := Exec(word, waiting, pc, luck).2; NoDeadline(pc') && (HasLock(pc') || Patient(pc'))
  {}

  /** How far the fast path of a timed call has come. */
  function Pass(pc: Pc): nat {
    match pc
    case ReadLoad(_) => 1
    case ReadPeek(_, _) => 2
    case ReadCas(_, _) => 3
    case WriteFast(_) => 1
    case WriteAnnounce(_) => 2
    case _ => 0
  }

  predicate InFastPath(pc: Pc) {
    match pc
    case ReadLoad(m) => m == TimedFirst
    case ReadPeek(m, _) => m == TimedFirst
    case ReadCas(m, _) => m == TimedFirst
    case WriteFast(m) => m == TimedFirst
    case WriteAnnounce(m) => m == TimedFirst
    case _ => false
  }

  /** A timed call goes through its fast path once, before it takes the time. */
  lemma FastPathOnce(word: nat, waiting: nat, pc: Pc, luck: Luck)
    requires pc != Idle && NeverSleepsFirst(pc)
    ensures var pc' := Exec(word, waiting, pc, luck).2;
            NeverSleepsFirst(pc') && (InFastPath(pc') ==> InFastPath(pc) && Pass(pc) < Pass(pc'))
  {}

  /** No thread comes to sleep in the fast path. */
  predicate NeverSleepsFirst(pc: Pc) { pc != ReadSleep(TimedFirst) }
}
