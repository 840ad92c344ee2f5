/** The read-write lock as a transition system over finitely many tasks. A
    section that holds the condition has no suspension point but its wait, so
    each section up to a wait or to its end is one step. */
module RWLock {
  datatype Kind = Reader | Writer

  /** Idle: between two lock sections. Asleep: waiting on the condition. Woken:
      notified, and about to test its guard again. Inside: holding the lock. */
  datatype Status = Idle | Asleep | Woken | Inside

  /** `todo` lists the lock sections still to run, the current one first. */
  datatype Task = Task(todo: seq<Kind>, status: Status)

  datatype Lock = Lock(activeReaders: int, writerActive: bool, writersWaiting: int)

  datatype System = System(lock: Lock, tasks: seq<Task>)

  // ---------- The lock object ----------

  predicate Blocked(l: Lock, kind: Kind) {
    match kind
    case Reader => l.writerActive || l.writersWaiting > 0
    case Writer => l.writerActive || l.activeReaders > 0
  }

  function Arrive(l: Lock, kind: Kind): Lock {
    match kind
    case Reader => l
    case Writer => l.(writersWaiting := l.writersWaiting + 1)
  }

  function Enter(l: Lock, kind: Kind): Lock {
    match kind
    case Reader => l.(activeReaders := l.activeReaders + 1)
    case Writer => l.(writerActive := true, writersWaiting := l.writersWaiting - 1)
  }

  function Leave(l: Lock, kind: Kind): Lock {
    match kind
    case Reader => l.(activeReaders := l.activeReaders - 1)
    case Writer => l.(writerActive := false)
  }

  /** Leaving notifies all sleepers, unless other readers remain. */
  predicate Notifies(l: Lock, kind: Kind) {
    kind.Writer? || l.activeReaders == 1
  }

  class AsyncRWLock {
    var activeReaders: int
    var writerActive: bool
    var writersWaiting: int

    function State(): Lock
      reads this
    {
      Lock(activeReaders, writerActive, writersWaiting)
    }

    constructor ()
      ensures State() == Lock(0, false, 0)
    {
      activeReaders, writerActive, writersWaiting := 0, false, 0;
    }

    /** One test of the read guard: it enters, or must wait. */
    method TryRead() returns (entered: bool)
      modifies this
      ensures entered == !Blocked(old(State()), Reader)
      ensures State() == if entered then Enter(old(State()), Reader) else old(State())
    {
      if writerActive || writersWaiting > 0 {
        return false;
      }
      activeReaders := activeReaders + 1;
      return true;
    }

    method ReleaseRead() returns (notifyAll: bool)
      modifies this
      ensures State() == Leave(old(State()), Reader) && notifyAll == Notifies(old(State()), Reader)
    {
      activeReaders := activeReaders - 1;
      notifyAll := activeReaders == 0;
    }

    method ArriveToWrite()
      modifies this
      ensures State() == Arrive(old(State()), Writer)
    {
      writersWaiting := writersWaiting + 1;
    }

    /** One test of the write guard by a writer that has arrived. */
    method TryWrite() returns (entered: bool)
      modifies this
      ensures entered == !Blocked(old(State()), Writer)
      ensures State() == if entered then Enter(old(State()), Writer) else old(State())
    {
      if writerActive || activeReaders > 0 {
        return false;
      }
      writerActive := true;
      writersWaiting := writersWaiting - 1;
      return true;
    }

    method ReleaseWrite() returns (notifyAll: bool)
      modifies this
      ensures State() == Leave(old(State()), Writer) && notifyAll == Notifies(old(State()), Writer)
    {
      writerActive := false;
      notifyAll := true;
    }
  }

  // ---------- Steps ----------

  function Start(plans: seq<seq<Kind>>): System {
    System(Lock(0, false, 0), seq(|plans|, i requires 0 <= i < |plans| => Task(plans[i], Idle)))
  }

  predicate Enabled(s: System, i: nat) {
    && i < |s.tasks| && s.tasks[i].todo != []
    && s.tasks[i].status != Asleep
  }

  function WakeAll(tasks: seq<Task>): seq<Task> {
    seq(|tasks|, i requires 0 <= i < |tasks| =>
      if tasks[i].status == Asleep then tasks[i].(status := Woken) else tasks[i])
  }

  /** One test of a guard: enter, or fall asleep. */
  function Test(l: Lock, tasks: seq<Task>, i: nat): System
    requires i < |tasks| && tasks[i].todo != []
  {
    var t := tasks[i];
    if Blocked(l, t.todo[0]) then System(l, tasks[i := t.(status := Asleep)])
    else System(Enter(l, t.todo[0]), tasks[i := t.(status := Inside)])
  }

  /** The next step of task `i`. */
  function Step(s: System, i: nat): System
    requires Enabled(s, i)
  {
    var t := s.tasks[i];
    var kind := t.todo[0];
    match t.status
    case Idle => Test(Arrive(s.lock, kind), s.tasks, i)
    case Woken => Test(s.lock, s.tasks, i)
    case Inside =>
      var left := s.tasks[i := Task(t.todo[1..], Idle)];
      System(Leave(s.lock, kind), if Notifies(s.lock, kind) then WakeAll(left) else left)
    case Asleep => s
  }

  predicate AllDone(s: System) {
    forall i :: 0 <= i < |s.tasks| ==> s.tasks[i].todo == []
  }

  // ---------- Counting tasks ----------

  predicate Is(t: Task, kind: Kind, status: Status) {
    t.todo != [] && t.todo[0] == kind && t.status == status
  }

  function One(b: bool): nat {
    if b then 1 else 0
  }

  function Count(tasks: seq<Task>, kind: Kind, status: Status): nat {
    if tasks == [] then 0
    else Count(tasks[..|tasks| - 1], kind, status) + One(Is(tasks[|tasks| - 1], kind, status))
  }

  lemma {:induction false} CountUpdate(tasks: seq<Task>, i: nat, t: Task, kind: Kind, status: Status)
    requires i < |tasks|
    ensures Count(tasks[i := t], kind, status) ==
      Count(tasks, kind, status) - One(Is(tasks[i], kind, status)) + One(Is(t, kind, status))
  {
    var last := |tasks| - 1;
    if i == last {
      assert tasks[i := t][..last] == tasks[..last];
    } else {
      assert tasks[i := t][..last] == tasks[..last][i := t];
      CountUpdate(tasks[..last], i, t, kind, status);
    }
  }

  lemma {:induction false} CountWakeAll(tasks: seq<Task>, kind: Kind)
    ensures Count(WakeAll(tasks), kind, Asleep) == 0
    ensures Count(WakeAll(tasks), kind, Woken) == Count(tasks, kind, Asleep) + Count(tasks, kind, Woken)
    ensures Count(WakeAll(tasks), kind, Inside) == Count(tasks, kind, Inside)
  {
    if tasks != [] {
      CountWakeAll(tasks[..|tasks| - 1], kind);
      assert WakeAll(tasks)[..|tasks| - 1] == WakeAll(tasks[..|tasks| - 1]);
    }
  }

  lemma {:induction false} CountAtLeast(tasks: seq<Task>, i: nat, kind: Kind, status: Status)
    requires i < |tasks| && Is(tasks[i], kind, status)
    ensures Count(tasks, kind, status) >= 1
  {
    if i < |tasks| - 1 {
      CountAtLeast(tasks[..|tasks| - 1], i, kind, status);
    }
  }

  lemma {:induction false} CountAtLeastTwo(tasks: seq<Task>, i: nat, j: nat, kind: Kind, status: Status)
    requires i < j < |tasks| && Is(tasks[i], kind, status) && Is(tasks[j], kind, status)
    ensures Count(tasks, kind, status) >= 2
  {
    if j < |tasks| - 1 {
      CountAtLeastTwo(tasks[..|tasks| - 1], i, j, kind, status);
    } else {
      CountAtLeast(tasks[..|tasks| - 1], i, kind, status);
    }
  }

  lemma {:induction false} CountWitness(tasks: seq<Task>, kind: Kind, status: Status) returns (i: nat)
    requires Count(tasks, kind, status) > 0
    ensures i < |tasks| && Is(tasks[i], kind, status)
  {
    if Is(tasks[|tasks| - 1], kind, status) {
      i := |tasks| - 1;
    } else {
      i := CountWitness(tasks[..|tasks| - 1], kind, status);
    }
  }

  // ---------- Safety ----------

  /** The counters are the true task counts. */
  ghost predicate Counted(l: Lock, tasks: seq<Task>) {
    && l.activeReaders == Count(tasks, Reader, Inside)
    && One(l.writerActive) == Count(tasks, Writer, Inside)
    && l.writersWaiting == Count(tasks, Writer, Asleep) + Count(tasks, Writer, Woken)
  }

  /** No lost wakeup: a sleeping task still has a false guard. */
  ghost predicate SleepersBlocked(l: Lock, tasks: seq<Task>) {
    forall i :: 0 <= i < |tasks| && tasks[i].status == Asleep ==>
      tasks[i].todo != [] && Blocked(l, tasks[i].todo[0])
  }

  ghost predicate Inv(s: System) {
    && Counted(s.lock, s.tasks)
    && SleepersBlocked(s.lock, s.tasks)
    && !(s.lock.writerActive && s.lock.activeReaders > 0)
    && forall i :: 0 <= i < |s.tasks| && s.tasks[i].todo == [] ==> s.tasks[i].status == Idle
  }

  lemma CountsAfter(tasks: seq<Task>, i: nat, t: Task)
    requires i < |tasks|
    ensures forall kind, status ::
      (Count(tasks[i := t], kind, status) ==
       Count(tasks, kind, status) - One(Is(tasks[i], kind, status)) + One(Is(t, kind, status)))
  {
    forall kind, status
      ensures Count(tasks[i := t], kind, status) ==
        Count(tasks, kind, status) - One(Is(tasks[i], kind, status)) + One(Is(t, kind, status))
    {
      CountUpdate(tasks, i, t, kind, status);
    }
  }

  lemma {:induction false} StartKeeps(plans: seq<seq<Kind>>)
    ensures Inv(Start(plans))
  {
    NoneCounted(Start(plans).tasks);
  }

  lemma {:induction false} NoneCounted(tasks: seq<Task>)
    requires forall i :: 0 <= i < |tasks| ==> tasks[i].status == Idle
    ensures forall kind, status :: status != Idle ==> Count(tasks, kind, status) == 0
  {
    if tasks != [] {
      NoneCounted(tasks[..|tasks| - 1]);
    }
  }

  /** Every step keeps the counters exact, the exclusion, and no lost wakeup. */
  lemma StepKeeps(s: System, i: nat)
    requires Inv(s) && Enabled(s, i)
    ensures Inv(Step(s, i))
  {
    var t := s.tasks[i];
    var kind := t.todo[0];
    match t.status
    case Idle => TestKeeps(s, i);
    case Woken => TestKeeps(s, i);
    case Inside => LeaveKeeps(s, i);
  }

  lemma TestKeeps(s: System, i: nat)
    requires Inv(s) && Enabled(s, i) && s.tasks[i].status != Inside
    ensures Inv(Step(s, i))
  {
    var t := s.tasks[i];
    CountsAfter(s.tasks, i, t.(status := Asleep));
    CountsAfter(s.tasks, i, t.(status := Inside));
  }

  lemma LeaveKeeps(s: System, i: nat)
    requires Inv(s) && Enabled(s, i) && s.tasks[i].status == Inside
    ensures Inv(Step(s, i))
  {
    var t := s.tasks[i];
    var kind := t.todo[0];
    var left := s.tasks[i := Task(t.todo[1..], Idle)];
    CountAtLeast(s.tasks, i, kind, Inside);
    CountsAfter(s.tasks, i, Task(t.todo[1..], Idle));
    CountWakeAll(left, Reader);
    CountWakeAll(left, Writer);
  }

  // ---------- Runs ----------

  /** The tasks take their next steps in the order `schedule` gives. */
  ghost predicate Runs(s: System, schedule: seq<nat>)
    decreases |schedule|
  {
    schedule != [] ==> Enabled(s, schedule[0]) && Runs(Step(s, schedule[0]), schedule[1..])
  }

  ghost function After(s: System, schedule: seq<nat>): System
    requires Runs(s, schedule)
    decreases |schedule|
  {
    if schedule == [] then s else After(Step(s, schedule[0]), schedule[1..])
  }

  lemma {:induction false} RunKeeps(s: System, schedule: seq<nat>)
    requires Inv(s) && Runs(s, schedule)
    ensures Inv(After(s, schedule))
    decreases |schedule|
  {
    if schedule != [] {
      StepKeeps(s, schedule[0]);
      RunKeeps(Step(s, schedule[0]), schedule[1..]);
    }
  }

  /** In every reachable state a writer inside excludes every other task, and
      the counters equal the true task counts. */
  lemma Exclusion(plans: seq<seq<Kind>>, schedule: seq<nat>, i: nat, j: nat)
    requires Runs(Start(plans), schedule)
    ensures
      var s := After(Start(plans), schedule);
      && Counted(s.lock, s.tasks)
      && (i < |s.tasks| && j < |s.tasks| && i != j && Is(s.tasks[i], Writer, Inside) ==>
            s.tasks[j].status != Inside)
  {
    StartKeeps(plans);
    RunKeeps(Start(plans), schedule);
    var s := After(Start(plans), schedule);
    if i < |s.tasks| && j < |s.tasks| && i != j && Is(s.tasks[i], Writer, Inside) && s.tasks[j].status == Inside {
      CountAtLeast(s.tasks, i, Writer, Inside);
      CountAtLeast(s.tasks, j, s.tasks[j].todo[0], Inside);
      if s.tasks[j].todo[0] == Writer {
        CountAtLeastTwo(s.tasks, if i < j then i else j, if i < j then j else i, Writer, Inside);
      }
    }
  }

  /** In every reachable state a sleeping task still could not enter if it were
      woken: no notification it needed was missed. */
  lemma NoLostWakeup(plans: seq<seq<Kind>>, schedule: seq<nat>, i: nat)
    requires Runs(Start(plans), schedule)
    ensures
      var s := After(Start(plans), schedule);
      i < |s.tasks| && s.tasks[i].status == Asleep ==>
        s.tasks[i].todo != [] && Blocked(s.lock, s.tasks[i].todo[0])
  {
    StartKeeps(plans);
    RunKeeps(Start(plans), schedule);
  }

  // ---------- Who may enter, told from the tasks alone ----------

  predicate Waiting(t: Task) {
    Is(t, Writer, Asleep) || Is(t, Writer, Woken)
  }

  /** A reader may enter unless a writer is inside or waiting; a writer may enter
      if nobody is inside. */
  ghost predicate Admits(tasks: seq<Task>, kind: Kind) {
    match kind
    case Reader => forall j :: 0 <= j < |tasks| ==> !Is(tasks[j], Writer, Inside) && !Waiting(tasks[j])
    case Writer => forall j :: 0 <= j < |tasks| ==> tasks[j].status != Inside
  }

  /** Task `i`, which the step from `s` to `r` lets test its guard, gets in exactly
      if the tasks admit it, and falls asleep otherwise. */
  ghost predicate Judged(s: System, r: System, i: nat) {
    Enabled(s, i) && i < |r.tasks| && s.tasks[i].status != Inside ==>
      r.tasks[i] == s.tasks[i].(status := if Admits(s.tasks, s.tasks[i].todo[0]) then Inside else Asleep)
  }

  lemma AdmitsReaders(s: System)
    requires Inv(s)
    ensures Admits(s.tasks, Reader) <==> !Blocked(s.lock, Reader)
  {
    if s.lock.writerActive {
      var j := CountWitness(s.tasks, Writer, Inside);
    } else if Count(s.tasks, Writer, Asleep) > 0 {
      var j := CountWitness(s.tasks, Writer, Asleep);
    } else if Count(s.tasks, Writer, Woken) > 0 {
      var j := CountWitness(s.tasks, Writer, Woken);
    }
    if j :| 0 <= j < |s.tasks| && (Is(s.tasks[j], Writer, Inside) || Waiting(s.tasks[j])) {
      CountAtLeast(s.tasks, j, Writer, s.tasks[j].status);
    }
  }

  lemma AdmitsWriters(s: System)
    requires Inv(s)
    ensures Admits(s.tasks, Writer) <==> !Blocked(s.lock, Writer)
  {
    if s.lock.writerActive {
      var j := CountWitness(s.tasks, Writer, Inside);
    } else if s.lock.activeReaders > 0 {
      var j := CountWitness(s.tasks, Reader, Inside);
    }
    if j :| 0 <= j < |s.tasks| && s.tasks[j].status == Inside {
      CountAtLeast(s.tasks, j, s.tasks[j].todo[0], Inside);
      assert s.tasks[j].todo[0] == Writer ==> s.lock.writerActive;
    }
  }

  lemma StepJudges(s: System, i: nat)
    requires Inv(s) && Enabled(s, i)
    ensures Judged(s, Step(s, i), i)
  {
    if s.tasks[i].status != Inside {
      AdmitsReaders(s);
      AdmitsWriters(s);
    }
  }

  /** In every reachable state: a reader that tests its guard enters exactly if no
      writer is inside or waiting, and a writer exactly if nobody is inside. */
  lemma EntersExactly(plans: seq<seq<Kind>>, schedule: seq<nat>, i: nat)
    requires Runs(Start(plans), schedule) && Enabled(After(Start(plans), schedule), i)
    ensures
      var s := After(Start(plans), schedule);
      Judged(s, Step(s, i), i)
  {
    StartKeeps(plans);
    RunKeeps(Start(plans), schedule);
    StepJudges(After(Start(plans), schedule), i);
  }

  /** The last task to leave wakes every sleeper; before that nobody else stirs. */
  lemma LastOutWakes(s: System, i: nat)
    requires Inv(s) && Enabled(s, i) && s.tasks[i].status == Inside
    ensures
      var r := Step(s, i);
      && |r.tasks| == |s.tasks|
      && forall j :: 0 <= j < |s.tasks| && j != i ==>
        r.tasks[j] ==
          if Admits(r.tasks, Writer) && s.tasks[j].status == Asleep then s.tasks[j].(status := Woken) else s.tasks[j]
  {
    var r := Step(s, i);
    StepKeeps(s, i);
    CountAtLeast(s.tasks, i, s.tasks[i].todo[0], Inside);
    AdmitsWriters(r);
  }

  /** Distinct tasks, each a reader that is about to test its guard. */
  ghost predicate Arriving(s: System, readers: seq<nat>) {
    && (forall i :: 0 <= i < |readers| ==> Enabled(s, readers[i]) && s.tasks[readers[i]].status != Inside
                                           && s.tasks[readers[i]].todo[0] == Reader)
    && forall i, j :: 0 <= i < j < |readers| ==> readers[i] != readers[j]
  }

  lemma OneReaderEnters(s: System, readers: seq<nat>)
    requires Inv(s) && Admits(s.tasks, Reader) && readers != [] && Arriving(s, readers)
    ensures
      var r := Step(s, readers[0]);
      && Inv(r) && Admits(r.tasks, Reader) && Arriving(r, readers[1..])
      && r.tasks == s.tasks[readers[0] := s.tasks[readers[0]].(status := Inside)]
  {
    AdmitsReaders(s);
    StepKeeps(s, readers[0]);
  }

  /** Readers share: while no writer is inside or waiting, any number of readers
      that arrive in turn are all inside at once, with those who were before. */
  lemma {:induction false} ReadersShare(s: System, readers: seq<nat>)
    requires Inv(s) && Admits(s.tasks, Reader) && Arriving(s, readers)
    ensures Runs(s, readers)
    ensures
      var r := After(s, readers);
      && |r.tasks| == |s.tasks|
      && (forall i :: 0 <= i < |readers| ==> Is(r.tasks[readers[i]], Reader, Inside))
      && (forall j :: 0 <= j < |s.tasks| && s.tasks[j].status == Inside ==> r.tasks[j] == s.tasks[j])
    decreases |readers|
  {
    if readers != [] {
      var next := Step(s, readers[0]);
      OneReaderEnters(s, readers);
      ReadersShare(next, readers[1..]);
      var r := After(next, readers[1..]);
      assert Is(next.tasks[readers[0]], Reader, Inside);
      forall i | 0 < i < |readers| ensures Is(r.tasks[readers[i]], Reader, Inside) {
        assert readers[1..][i - 1] == readers[i];
      }
    }
  }

  /** Each of the first `n` tasks in turn. */
  function Turns(n: nat): (turns: seq<nat>)
    ensures |turns| == n && forall i :: 0 <= i < n ==> turns[i] == i
  {
    if n == 0 then [] else Turns(n - 1) + [n - 1]
  }

  /** So tasks that all begin with a read are all inside once each took a step. */
  lemma AllReadersInside(plans: seq<seq<Kind>>)
    requires forall i :: 0 <= i < |plans| ==> plans[i] != [] && plans[i][0] == Reader
    ensures Runs(Start(plans), Turns(|plans|))
    ensures
      var r := After(Start(plans), Turns(|plans|));
      |r.tasks| == |plans| && forall i :: 0 <= i < |plans| ==> Is(r.tasks[i], Reader, Inside)
  {
    var turns := Turns(|plans|);
    StartKeeps(plans);
    ReadersShare(Start(plans), turns);
    var r := After(Start(plans), turns);
    forall i | 0 <= i < |plans| ensures Is(r.tasks[i], Reader, Inside) {
      assert turns[i] == i;
    }
  }

  // ---------- Writers are not overtaken by new readers ----------

  /** `w` keeps waiting to write in every state of the run. */
  ghost predicate WaitsThroughout(s: System, schedule: seq<nat>, w: nat)
    requires Runs(s, schedule)
    decreases |schedule|
  {
    && w < |s.tasks| && Waiting(s.tasks[w])
    && (schedule != [] ==> WaitsThroughout(Step(s, schedule[0]), schedule[1..], w))
  }

  lemma NoReaderEnters(s: System, i: nat, w: nat, r: nat)
    requires Inv(s) && Enabled(s, i) && w < |s.tasks| && Waiting(s.tasks[w]) && r < |s.tasks|
    requires Is(Step(s, i).tasks[r], Reader, Inside)
    ensures Is(s.tasks[r], Reader, Inside) && s.tasks[r].todo == Step(s, i).tasks[r].todo
  {
    CountAtLeast(s.tasks, w, Writer, s.tasks[w].status);
  }

  /** From the moment a writer waits until it enters, every reader that is
      inside was inside all along, in the same section. */
  lemma {:induction false} NoNewReaders(s: System, schedule: seq<nat>, w: nat, r: nat)
    requires Inv(s) && Runs(s, schedule) && WaitsThroughout(s, schedule, w) && r < |s.tasks|
    requires r < |After(s, schedule).tasks| && Is(After(s, schedule).tasks[r], Reader, Inside)
    ensures Is(s.tasks[r], Reader, Inside) && s.tasks[r].todo == After(s, schedule).tasks[r].todo
    decreases |schedule|
  {
    if schedule != [] {
      StepKeeps(s, schedule[0]);
      NoNewReaders(Step(s, schedule[0]), schedule[1..], w, r);
      NoReaderEnters(s, schedule[0], w, r);
    }
  }

  // ---------- Liveness ----------

  /** While not all tasks are done, some task can take a step. */
  lemma Progress(s: System) returns (i: nat)
    requires Inv(s) && !AllDone(s)
    ensures Enabled(s, i)
  {
    i :| 0 <= i < |s.tasks| && s.tasks[i].todo != [];
    if s.tasks[i].status == Asleep {
      if s.lock.writerActive {
        i := CountWitness(s.tasks, Writer, Inside);
      } else if s.lock.activeReaders > 0 {
        i := CountWitness(s.tasks, Reader, Inside);
      } else if Count(s.tasks, Writer, Asleep) > 0 {
        i := CountWitness(s.tasks, Writer, Asleep);
      } else {
        i := CountWitness(s.tasks, Writer, Woken);
      }
    }
  }

  /** The phases a task has left: three for each section it has yet to start. */
  function Phases(t: Task): nat {
    if t.todo == [] then 0
    else
      match t.status
      case Idle => 3 * |t.todo|
      case Asleep => 3 * |t.todo| - 1
      case Woken => 3 * |t.todo| - 1
      case Inside => 3 * |t.todo| - 2
  }

  function AllPhases(tasks: seq<Task>): nat {
    if tasks == [] then 0 else AllPhases(tasks[..|tasks| - 1]) + Phases(tasks[|tasks| - 1])
  }

  function AllWoken(tasks: seq<Task>): (n: nat)
    ensures n <= |tasks|
  {
    if tasks == [] then 0
    else AllWoken(tasks[..|tasks| - 1]) + One(tasks[|tasks| - 1].status == Woken)
  }

  lemma {:induction false} SumsUpdate(tasks: seq<Task>, i: nat, t: Task)
    requires i < |tasks|
    ensures AllPhases(tasks[i := t]) == AllPhases(tasks) - Phases(tasks[i]) + Phases(t)
    ensures AllWoken(tasks[i := t]) == AllWoken(tasks) - One(tasks[i].status == Woken) + One(t.status == Woken)
  {
    var last := |tasks| - 1;
    if i == last {
      assert tasks[i := t][..last] == tasks[..last];
    } else {
      assert tasks[i := t][..last] == tasks[..last][i := t];
      SumsUpdate(tasks[..last], i, t);
    }
  }

  lemma {:induction false} PhasesWakeAll(tasks: seq<Task>)
    ensures AllPhases(WakeAll(tasks)) == AllPhases(tasks)
  {
    if tasks != [] {
      PhasesWakeAll(tasks[..|tasks| - 1]);
      assert WakeAll(tasks)[..|tasks| - 1] == WakeAll(tasks[..|tasks| - 1]);
    }
  }

  /** Every step lowers the phases left, or keeps them and puts a woken task
      back to sleep. */
  lemma StepDescends(s: System, i: nat)
    requires Enabled(s, i)
    ensures
      var r := Step(s, i);
      && |r.tasks| == |s.tasks|
      && (AllPhases(r.tasks) < AllPhases(s.tasks) ||
          (AllPhases(r.tasks) == AllPhases(s.tasks) && AllWoken(r.tasks) < AllWoken(s.tasks)))
  {
    var t := s.tasks[i];
    match t.status
    case Idle =>
      SumsUpdate(s.tasks, i, t.(status := Asleep));
      SumsUpdate(s.tasks, i, t.(status := Inside));
    case Woken =>
      SumsUpdate(s.tasks, i, t.(status := Asleep));
      SumsUpdate(s.tasks, i, t.(status := Inside));
    case Inside =>
      SumsUpdate(s.tasks, i, Task(t.todo[1..], Idle));
      PhasesWakeAll(s.tasks[i := Task(t.todo[1..], Idle)]);
  }

  /** The longest any run can last. */
  function Bound(s: System): nat {
    AllPhases(s.tasks) * (|s.tasks| + 1) + AllWoken(s.tasks)
  }

  lemma LexicographicBound(phases: nat, woken: nat, phases': nat, woken': nat, n: nat)
    requires woken <= n && woken' <= n
    requires phases' < phases || (phases' == phases && woken' < woken)
    ensures phases' * (n + 1) + woken' < phases * (n + 1) + woken
  {
    if phases' < phases {
      assert (phases - phases' - 1) * (n + 1) >= 0;
      assert phases * (n + 1) == phases' * (n + 1) + (n + 1) + (phases - phases' - 1) * (n + 1);
    }
  }

  lemma StepBound(s: System, i: nat)
    requires Enabled(s, i)
    ensures Bound(Step(s, i)) < Bound(s)
  {
    var r := Step(s, i);
    StepDescends(s, i);
    LexicographicBound(AllPhases(s.tasks), AllWoken(s.tasks), AllPhases(r.tasks), AllWoken(r.tasks), |s.tasks|);
  }

  lemma {:induction false} RunsAreBounded(s: System, schedule: seq<nat>)
    requires Runs(s, schedule)
    ensures |schedule| + Bound(After(s, schedule)) <= Bound(s)
    decreases |schedule|
  {
    if schedule != [] {
      StepBound(s, schedule[0]);
      RunsAreBounded(Step(s, schedule[0]), schedule[1..]);
    }
  }

  /** Without cancellation every run is finite, and a run that cannot be
      extended has finished every section of every task, with the lock free. */
  lemma MaximalRunsFinish(plans: seq<seq<Kind>>, schedule: seq<nat>)
    requires Runs(Start(plans), schedule)
    ensures |schedule| <= Bound(Start(plans))
    ensures
      var s := After(Start(plans), schedule);
      (forall i: nat :: !Enabled(s, i)) <==> AllDone(s)
    ensures
      var s := After(Start(plans), schedule);
      AllDone(s) ==> s.lock == Lock(0, false, 0)
  {
    RunsAreBounded(Start(plans), schedule);
    StartKeeps(plans);
    RunKeeps(Start(plans), schedule);
    var s := After(Start(plans), schedule);
    if !AllDone(s) {
      var i := Progress(s);
    } else {
      DoneIsFree(s);
    }
  }

  // ---------- Every section is run ----------

  predicate EntersNow(s: System, next: System, i: nat) {
    && i < |s.tasks| && i < |next.tasks| && s.tasks[i].todo != []
    && s.tasks[i].status != Inside && next.tasks[i].status == Inside
  }

  /** The sections that task `i` enters in the course of the run, in order. */
  ghost function Entered(s: System, schedule: seq<nat>, i: nat): seq<Kind>
    requires Runs(s, schedule)
    decreases |schedule|
  {
    if schedule == [] then []
    else
      var next := Step(s, schedule[0]);
      (if EntersNow(s, next, i) then [s.tasks[i].todo[0]] else []) + Entered(next, schedule[1..], i)
  }

  /** The sections a task has yet to enter. */
  function Ahead(t: Task): seq<Kind> {
    if t.status == Inside && t.todo != [] then t.todo[1..] else t.todo
  }

  lemma StepAhead(s: System, k: nat, i: nat)
    requires Inv(s) && Enabled(s, k) && i < |s.tasks|
    ensures
      var next := Step(s, k);
      && |next.tasks| == |s.tasks|
      && Ahead(s.tasks[i]) ==
           (if EntersNow(s, next, i) then [s.tasks[i].todo[0]] else []) + Ahead(next.tasks[i])
  {
    StepDescends(s, k);
    var t := s.tasks[i];
    if i == k && EntersNow(s, Step(s, k), i) {
      assert t.todo == [t.todo[0]] + t.todo[1..];
    }
  }

  lemma {:induction false} EnteredInOrder(s: System, schedule: seq<nat>, i: nat)
    requires Inv(s) && Runs(s, schedule) && i < |s.tasks|
    ensures |After(s, schedule).tasks| == |s.tasks|
    ensures Ahead(s.tasks[i]) == Entered(s, schedule, i) + Ahead(After(s, schedule).tasks[i])
    decreases |schedule|
  {
    if schedule != [] {
      var next := Step(s, schedule[0]);
      StepAhead(s, schedule[0], i);
      StepKeeps(s, schedule[0]);
      EnteredInOrder(next, schedule[1..], i);
      Regroup(if EntersNow(s, next, i) then [s.tasks[i].todo[0]] else [],
              Entered(next, schedule[1..], i), Ahead(After(next, schedule[1..]).tasks[i]));
    }
  }

  lemma Regroup(a: seq<Kind>, b: seq<Kind>, c: seq<Kind>)
    ensures a + (b + c) == a + b + c
  {
  }

  /** A run that cannot be extended has let every task enter all its sections, each
      once and in its order. */
  lemma EverySectionRuns(plans: seq<seq<Kind>>, schedule: seq<nat>, i: nat)
    requires Runs(Start(plans), schedule) && AllDone(After(Start(plans), schedule)) && i < |plans|
    ensures Entered(Start(plans), schedule, i) == plans[i]
  {
    StartKeeps(plans);
    EnteredInOrder(Start(plans), schedule, i);
  }

  lemma DoneIsFree(s: System)
    requires Inv(s) && AllDone(s)
    ensures s.lock == Lock(0, false, 0)
  {
    NoneCounted(s.tasks);
  }

  // ---------- The tasks, run on the lock object ----------

  class Scheduler {
    const lock: AsyncRWLock
    var tasks: seq<Task>

    function State(): System
      reads this, lock
    {
      System(lock.State(), tasks)
    }

    constructor (plans: seq<seq<Kind>>)
      ensures State() == Start(plans) && Inv(State()) && fresh(lock)
    {
      lock := new AsyncRWLock();
      tasks := seq(|plans|, i requires 0 <= i < |plans| => Task(plans[i], Idle));
      new;
      StartKeeps(plans);
    }

    /** Wakes every task that sleeps on the condition. */
    method NotifyAll()
      modifies this
      ensures tasks == WakeAll(old(tasks))
    {
      ghost var before := tasks;
      for i := 0 to |tasks|
        invariant |tasks| == |before|
        invariant forall j :: 0 <= j < |tasks| ==> tasks[j] == if j < i then WakeAll(before)[j] else before[j]
      {
        if tasks[i].status == Asleep {
          tasks := tasks[i := tasks[i].(status := Woken)];
        }
      }
      assert tasks == WakeAll(before);
    }

    /** The guard of a task that is about to enter, or to wait. */
    method TestGuard(i: nat)
      requires i < |tasks| && tasks[i].todo != []
      modifies this, lock
      ensures State() == Test(old(State()).lock, old(tasks), i)
    {
      var t := tasks[i];
      var entered;
      if t.todo[0] == Reader {
        entered := lock.TryRead();
      } else {
        entered := lock.TryWrite();
      }
      tasks := tasks[i := t.(status := if entered then Inside else Asleep)];
    }

    /** The end of a section. */
    method Release(i: nat)
      requires i < |tasks| && tasks[i].todo != [] && tasks[i].status == Inside
      modifies this, lock
      ensures State() == Step(old(State()), i)
    {
      var t := tasks[i];
      var notifyAll;
      if t.todo[0] == Reader {
        notifyAll := lock.ReleaseRead();
      } else {
        notifyAll := lock.ReleaseWrite();
      }
      tasks := tasks[i := Task(t.todo[1..], Idle)];
      if notifyAll {
        NotifyAll();
      }
    }

    /** One step of task `i`, from one suspension point to the next. It keeps the
        counters true and every sleeper blocked. */
    method TakeStep(i: nat)
      requires Inv(State()) && Enabled(State(), i)
      modifies this, lock
      ensures State() == Step(old(State()), i) && Inv(State())
      ensures Judged(old(State()), State(), i)
    {
      StepKeeps(State(), i);
      StepJudges(State(), i);
      var t := tasks[i];
      if t.status == Inside {
        Release(i);
      } else {
        if t.status == Idle && t.todo[0] == Writer {
          lock.ArriveToWrite();
        }
        TestGuard(i);
      }
    }

    /** Letting any enabled task go next, in whatever order, completes every
        section of every task and leaves the lock free. */
    method RunToCompletion() returns (steps: nat)
      requires Inv(State())
      modifies this, lock
      ensures AllDone(State()) && lock.State() == Lock(0, false, 0)
      ensures steps <= Bound(old(State()))
    {
      ghost var start := State();
      steps := 0;
      while !AllDone(State())
        invariant Inv(State()) && steps + Bound(State()) <= Bound(start)
        decreases Bound(State())
      {
        ghost var enabled := Progress(State());
        var i: nat :| i < |tasks| && Enabled(State(), i);
        StepBound(State(), i);
        TakeStep(i);
        steps := steps + 1;
      }
      DoneIsFree(State());
    }
  }
}
