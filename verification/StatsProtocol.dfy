/**
 The statistics file of a cache directory, updated by several processes under a lock that is a
 symbolic link. No process breaks the lock of another here, and symbolic links are supported.
 */
module StatsProtocol {
  import opened Bytes
  import opened StatsFile

  const STATS_END: nat := 32
  const NUMFILES: nat := 11
  const TOTALSIZE: nat := 12
  const OBSOLETE_MAXFILES: nat := 13
  const OBSOLETE_MAXSIZE: nat := 14
  const NUMCLEANUPS: nat := 29
  const ZEROTIMESTAMP: nat := 31

  // ---- the critical sections ----

  type Updates = u: seq<u32> | |u| == STATS_END witness Zeros(STATS_END)

  /** What a process wants done to the counters. */
  datatype Op =
    | Flush(updates: Updates)
    | Zero(timestamp: nat)
    | SetSizes(numFiles: nat, totalSize: nat)
    | AddCleanup(count: nat)

  /** Zeroing the statistics leaves these alone. */
  predicate KeptByZero(i: nat) {
    i == 0 || i == NUMFILES || i == TOTALSIZE || i == OBSOLETE_MAXFILES || i == OBSOLETE_MAXSIZE || i >= STATS_END
  }

  /** Unsigned addition. */
  function Plus(x: int, y: int): (r: u32) { (x + y) % TWO32 }

  /** One counter after an operation. */
  function ApplyAt(op: Op, i: nat, before: u32): u32 {
    match op
    case Flush(updates) => if i < STATS_END then Plus(before, updates[i]) else before
    case Zero(timestamp) => if i == ZEROTIMESTAMP then Wrap(timestamp) else if KeptByZero(i) then before else 0
    case SetSizes(numFiles, totalSize) =>
      if i == NUMFILES then Wrap(numFiles) else if i == TOTALSIZE then Wrap(totalSize / 1024) else before
    case AddCleanup(count) => if i == NUMCLEANUPS then Plus(before, count) else before
  }

  function Apply(op: Op, c: seq<u32>): (r: seq<u32>)
    ensures |r| == |c|
  {
    seq(|c|, i requires 0 <= i < |c| => ApplyAt(op, i, c[i]))
  }

  /** What an operation makes of the counters c, said of every counter by its number. */
  predicate ByNumber(op: Op, c: seq<u32>, d: seq<u32>)
    requires |c| == |d| >= 32
  {
    match op
    case Flush(updates) =>
      && (forall i :: 0 <= i < 32 ==> d[i] as int == (c[i] as int + updates[i] as int) % 0x1_0000_0000)
      && (forall i :: 32 <= i < |d| ==> d[i] == c[i])
    case Zero(timestamp) =>
      && d[31] as int == timestamp % 0x1_0000_0000
      && (forall i :: 1 <= i <= 30 && !(11 <= i <= 14) ==> d[i] == 0)
      && (forall i :: 0 <= i < |d| && (i == 0 || 11 <= i <= 14 || i >= 32) ==> d[i] == c[i])
    case SetSizes(numFiles, totalSize) =>
      && d[11] as int == numFiles % 0x1_0000_0000
      && d[12] as int == (totalSize / 1024) % 0x1_0000_0000
      && (forall i :: 0 <= i < |d| && i != 11 && i != 12 ==> d[i] == c[i])
    case AddCleanup(count) =>
      && d[29] as int == (c[29] as int + count) % 0x1_0000_0000
      && (forall i :: 0 <= i < |d| && i != 29 ==> d[i] == c[i])
  }

  lemma ApplyByNumber(op: Op, c: seq<u32>)
    requires |c| >= 32
    ensures ByNumber(op, c, Apply(op, c))
  {
  }

  /** The counters of a file: zeros where it says nothing. */
  function Read(file: Option<seq<char>>): (c: seq<u32>)
    ensures |c| >= STATS_END
  {
    Added(Zeros(STATS_END), if file == None then [] else Numbers(file.value))
  }

  /** A file that has been written is read back. */
  lemma ReadWritten(c: seq<u32>)
    requires |c| >= STATS_END
    ensures Read(Some(Text(c))) == c
  {
    NumbersOfText(c);
    AddToZeros(c);
  }

  lemma AddToZeros(c: seq<u32>)
    requires |c| >= STATS_END
    ensures Added(Zeros(STATS_END), c) == c
  {
  }

  /** stats_read into fresh counters. */
  method ReadFile(file: Option<seq<char>>) returns (c: seq<u32>)
    ensures c == Read(file)
  {
    c := Zeros(STATS_END);
    if file != None {
      c := ParseStats(c, file.value);
    } else {
      AddNothing(c);
    }
  }

  /** The loop of stats_flush_to_file. */
  method AddUpdates(counters: seq<u32>, updates: Updates) returns (c: seq<u32>)
    requires |counters| >= STATS_END
    ensures c == Apply(Flush(updates), counters)
    ensures forall i :: 0 <= i < |c| ==>
      c[i] as int == if i < 32 then (counters[i] as int + updates[i] as int) % 0x1_0000_0000 else counters[i] as int
  {
    c := counters;
    var i := 0;
    while i < STATS_END
      invariant i <= STATS_END && |c| == |counters|
      invariant forall j :: 0 <= j < |c| ==> c[j] == if j < i then Plus(counters[j], updates[j]) else counters[j]
    {
      c := c[i := Plus(c[i], updates[i])];
      i := i + 1;
    }
  }

  /** The loop of stats_zero over its table of statistics, here in the order of their numbers. */
  method ZeroCounters(counters: seq<u32>, timestamp: nat) returns (c: seq<u32>)
    requires |counters| >= STATS_END
    ensures c == Apply(Zero(timestamp), counters)
    ensures c[31] == timestamp % 0x1_0000_0000
    ensures forall i :: 1 <= i <= 30 && !(11 <= i <= 14) ==> c[i] == 0
    ensures forall i :: 0 <= i < |c| && (i == 0 || 11 <= i <= 14 || i >= 32) ==> c[i] == counters[i]
  {
    c := counters;
    var i := 1;
    while i < STATS_END
      invariant 1 <= i <= STATS_END && |c| == |counters|
      invariant forall j :: 0 <= j < |c| ==> c[j] == if j < i && !KeptByZero(j) then 0 else counters[j]
    {
      if !KeptByZero(i) {
        c := c[i := 0];
      }
      i := i + 1;
    }
    c := c[ZEROTIMESTAMP := Wrap(timestamp)];
  }

  /** A whole critical section: read, change, write. What becomes of each counter is said by its
      number. */
  method Section(file: Option<seq<char>>, op: Op) returns (file': seq<char>)
    ensures file' == Text(Apply(op, Read(file)))
    ensures Read(Some(file')) == Apply(op, Read(file))
    ensures |Read(Some(file'))| == |Read(file)| && ByNumber(op, Read(file), Read(Some(file')))
  {
    var c := ReadFile(file);
    match op {
      case Flush(updates) =>
        c := AddUpdates(c, updates);
      case Zero(timestamp) =>
        c := ZeroCounters(c, timestamp);
      case SetSizes(numFiles, totalSize) =>
        c := c[NUMFILES := Wrap(numFiles)][TOTALSIZE := Wrap(totalSize / 1024)];
      case AddCleanup(count) =>
        c := c[NUMCLEANUPS := Plus(c[NUMCLEANUPS], count)];
    }
    assert c == Apply(op, Read(file));
    ApplyByNumber(op, Read(file));
    file' := WriteText(c);
    ReadWritten(c);
  }

  // ---- the processes ----

  /** What a lock says: whose it is, and when it was made. No two processes make the same. */
  datatype Tag = Tag(owner: nat, time: int)

  /** Where a process is. */
  datatype Proc =
    | Idle
    | Linking(op: Op, tag: Tag)     // about to make the link
    | Looking(op: Op, tag: Tag)     // told that there is a link, about to read it
    | Holding(op: Op)               // has the lock
    | Loaded(op: Op, c: seq<u32>)   // has read the file
    | Stored(op: Op)                // has written it, or tried to
    | Dead

  /** The lock, the file, the processes, and the operations stored so far. */
  datatype State = State(lock: Option<Tag>, file: Option<seq<char>>, procs: seq<Proc>, log: seq<Op>)

  predicate InSection(p: Proc) {
    p.Holding? || p.Loaded? || p.Stored?
  }

  /** A state in which one process has moved. */
  function Moved(s: State, p: nat, to_: Proc): State
    requires p < |s.procs|
  {
    s.(procs := s.procs[p := to_])
  }

  /** One atomic step of one process. */
  ghost predicate Step(s: State, s': State, p: nat) {
    && p < |s.procs|
    && var proc := s.procs[p];
       match proc
       case Idle => exists op, time :: s' == Moved(s, p, Linking(op, Tag(p, time)))
       case Linking(op, tag) =>
         || (s.lock == None && s' == Moved(s, p, Holding(op)).(lock := Some(tag)))
         // the link is made but the answer that says so is lost, and the repeated request fails
         || (s.lock == None && s' == Moved(s, p, Looking(op, tag)).(lock := Some(tag)))
         || (s.lock != None && s' == Moved(s, p, Looking(op, tag)))
         || s' == Moved(s, p, Idle)
         || s' == Moved(s, p, Dead)
       case Looking(op, tag) =>
         // gone again, or another's: try anew, perhaps after a sleep
         || (s.lock != Some(tag) && exists time :: s' == Moved(s, p, Linking(op, Tag(p, time))))
         || (s.lock == Some(tag) && s' == Moved(s, p, Holding(op)))
         // slept too long, or the link could not be read
         || s' == Moved(s, p, Idle)
         || s' == Moved(s, p, Dead)
       case Holding(op) => s' == Moved(s, p, Loaded(op, Read(s.file))) || s' == Moved(s, p, Dead)
       case Loaded(op, c) =>
         || s' == Moved(s, p, Stored(op)).(file := Some(Text(Apply(op, c))), log := s.log + [op])
         // the new file could not be renamed over the old one, which is not noticed
         || s' == Moved(s, p, Stored(op))
         || s' == Moved(s, p, Dead)
       case Stored(op) => s' == Moved(s, p, Idle).(lock := None) || s' == Moved(s, p, Dead)
       case Dead => false
  }

  ghost predicate Next(s: State, s': State) {
    exists p :: Step(s, s', p)
  }

  ghost predicate Start(s: State) {
    s.lock == None && s.log == [] && forall p :: 0 <= p < |s.procs| ==> s.procs[p] == Idle
  }

  /** A run: any number of processes, taking steps in any order. */
  ghost predicate Run(run: seq<State>) {
    && run != [] && Start(run[0])
    && forall i :: 0 < i < |run| ==> Next(run[i - 1], run[i])
  }

  function ApplyAll(log: seq<Op>, c: seq<u32>): (r: seq<u32>)
    ensures |r| == |c|
  {
    if log == [] then c else Apply(log[|log| - 1], ApplyAll(log[..|log| - 1], c))
  }

  /** Whoever is in the section owns the lock, and the file is what the operations stored so far
      make of it, one after the other. */
  ghost predicate Inv(s: State, initial: seq<u32>) {
    && (forall p :: 0 <= p < |s.procs| ==> Right(s, p))
    && Read(s.file) == ApplyAll(s.log, initial)
  }

  ghost predicate Right(s: State, p: nat)
    requires p < |s.procs|
  {
    var proc := s.procs[p];
    && (InSection(proc) ==> s.lock.Some? && s.lock.value.owner == p)
    && ((proc.Linking? || proc.Looking?) ==> proc.tag.owner == p)
    && (proc.Loaded? ==> proc.c == Read(s.file))
  }

  lemma StepKeepsInv(s: State, s': State, p: nat, initial: seq<u32>)
    requires Inv(s, initial) && Step(s, s', p)
    ensures Inv(s', initial) && |s'.procs| == |s.procs|
  {
    assert Right(s, p);
    StepKeepsRead(s, s', p, initial);
    forall q | 0 <= q < |s'.procs| ensures Right(s', q) {
      assert Right(s, q);
      if q == p {
        StepKeepsSelf(s, s', p);
      } else {
        StepKeepsOther(s, s', p, q);
      }
    }
  }

  lemma StepKeepsSelf(s: State, s': State, p: nat)
    requires Step(s, s', p) && Right(s, p)
    ensures |s'.procs| == |s.procs| && Right(s', p)
  {
  }

  /** Only the owner of the lock writes the file or lets go of the lock. */
  lemma StepKeepsOther(s: State, s': State, p: nat, q: nat)
    requires Step(s, s', p) && Right(s, p) && q < |s.procs| && q != p && Right(s, q)
    ensures |s'.procs| == |s.procs| && Right(s', q)
  {
  }

  lemma StepKeepsRead(s: State, s': State, p: nat, initial: seq<u32>)
    requires Inv(s, initial) && Step(s, s', p)
    ensures |s'.procs| == |s.procs| && Read(s'.file) == ApplyAll(s'.log, initial)
  {
    if s'.log != s.log {
      StoreKeepsRead(s, s', p, initial);
    }
  }

  lemma StoreKeepsRead(s: State, s': State, p: nat, initial: seq<u32>)
    requires Inv(s, initial) && p < |s.procs| && s.procs[p].Loaded?
    requires var op, c := s.procs[p].op, s.procs[p].c;
             s' == Moved(s, p, Stored(op)).(file := Some(Text(Apply(op, c))), log := s.log + [op])
    ensures Read(s'.file) == ApplyAll(s'.log, initial)
  {
    assert Right(s, p);
    var op, c := s.procs[p].op, s.procs[p].c;
    ReadWritten(Apply(op, c));
    assert (s.log + [op])[..|s.log|] == s.log;
  }

  lemma {:induction false} RunKeepsInv(run: seq<State>, i: nat)
    requires Run(run) && i < |run|
    ensures Inv(run[i], Read(run[0].file))
    decreases i
  {
    if i > 0 {
      RunKeepsInv(run, i - 1);
      assert Next(run[i - 1], run[i]);
      var p :| Step(run[i - 1], run[i], p);
      StepKeepsInv(run[i - 1], run[i], p, Read(run[0].file));
    }
  }

  /** At no time are two processes in the critical section. */
  lemma MutualExclusion(run: seq<State>, i: nat, p: nat, q: nat)
    requires Run(run) && i < |run| && p < |run[i].procs| && q < |run[i].procs|
    requires InSection(run[i].procs[p]) && InSection(run[i].procs[q])
    ensures p == q
  {
    RunKeepsInv(run, i);
    assert Right(run[i], p) && Right(run[i], q);
  }

  /** At every time the file is what the stored operations make of the first file when they are
      run alone, one by one, in the order in which the lock was held. */
  lemma Serialisable(run: seq<State>, i: nat)
    requires Run(run) && i < |run|
    ensures Read(run[i].file) == ApplyAll(run[i].log, Read(run[0].file))
  {
    RunKeepsInv(run, i);
  }

  // ---- conservation ----

  /** What an operation adds to a counter, when it does not set it. */
  function Delta(op: Op, i: nat): Option<nat> {
    match op
    case Flush(updates) => Some(if i < STATS_END then updates[i] else 0)
    case Zero(_) => if i != ZEROTIMESTAMP && KeptByZero(i) then Some(0) else None
    case SetSizes(_, _) => if i == NUMFILES || i == TOTALSIZE then None else Some(0)
    case AddCleanup(count) => Some(if i == NUMCLEANUPS then count else 0)
  }

  function TotalDelta(log: seq<Op>, i: nat): nat
    requires forall j :: 0 <= j < |log| ==> Delta(log[j], i).Some?
  {
    if log == [] then 0
    else TotalDelta(log[..|log| - 1], i) + Delta(log[|log| - 1], i).value
  }

  lemma PlusTwice(x: nat, y: nat, z: nat)
    ensures Plus(Plus(x, y), z) == Plus(x, y + z)
  {
  }

  /** While no operation sets a counter, nothing that was flushed to it is lost or counted twice,
      modulo 2^32. */
  lemma {:induction false} Conserved(log: seq<Op>, c: seq<u32>, i: nat)
    requires i < |c| && forall j :: 0 <= j < |log| ==> Delta(log[j], i).Some?
    ensures ApplyAll(log, c)[i] == Plus(c[i], TotalDelta(log, i))
    decreases |log|
  {
    if log != [] {
      var init, op := log[..|log| - 1], log[|log| - 1];
      Conserved(init, c, i);
      assert Delta(op, i).Some?;
      PlusTwice(c[i], TotalDelta(init, i), Delta(op, i).value);
    }
  }

  /** In every run. */
  lemma RunConserves(run: seq<State>, t: nat, i: nat)
    requires Run(run) && t < |run| && i < STATS_END
    requires forall j :: 0 <= j < |run[t].log| ==> Delta(run[t].log[j], i).Some?
    ensures Read(run[t].file)[i] == Plus(Read(run[0].file)[i], TotalDelta(run[t].log, i))
  {
    Serialisable(run, t);
    ConservedIn(run[t].log, Read(run[0].file), Read(run[t].file), i);
  }

  lemma ConservedIn(log: seq<Op>, before: seq<u32>, after: seq<u32>, i: nat)
    requires after == ApplyAll(log, before)
    requires i < |before| && forall j :: 0 <= j < |log| ==> Delta(log[j], i).Some?
    ensures after[i] == Plus(before[i], TotalDelta(log, i))
  {
    Conserved(log, before, i);
  }
}
