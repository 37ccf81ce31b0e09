/** How the workers of CreateNANDcombinations share the record files: tickets taken from a
    counter per file, and a shared index of the current file. */
module Dispatch {

  const GROUP: nat := 128

  /** Where a worker is: about to read next_file, about to take a ticket of a file, trying to
      move on to the next file, working on a ticket, or gone. */
  datatype Worker =
    | Reading
    | Taking(file: nat)
    | Advancing(file: nat)
    | Working(file: nat, ticket: nat, done: nat)
    | Gone(early: bool)

  /** `records[f]` records in file `f`, `nextRecord[f]` tickets taken, `nextFile` the current
      file; `catalogued` lists every record catalogued so far, as (file, record). */
  datatype State = State(records: seq<nat>, nextFile: nat, nextRecord: seq<nat>, workers: seq<Worker>,
                         catalogued: seq<(nat, nat)>)

  /** One atomic step of worker `w`. `blocked` is a failed try_lock, `stops` a completion test
      that found nothing missing. */
  datatype Step = Step(w: nat, blocked: bool, stops: bool)

  ghost predicate Enabled(s: State, step: Step) {
    step.w < |s.workers| && !s.workers[step.w].Gone?
  }

  ghost function MoveTo(s: State, w: nat, worker: Worker): State
    requires w < |s.workers|
  {
    s.(workers := s.workers[w := worker])
  }

  ghost function Next(s: State, step: Step): State
    requires Enabled(s, step) && |s.nextRecord| == |s.records|
  {
    var w := step.w;
    match s.workers[w]
    case Reading =>
      if s.nextFile >= |s.records| then MoveTo(s, w, Gone(false)) else MoveTo(s, w, Taking(s.nextFile))
    case Taking(file) =>
      if file >= |s.records| then s else
        var ticket := s.nextRecord[file];
        var taken := s.(nextRecord := s.nextRecord[file := ticket + 1]);
        MoveTo(taken, w, if ticket * GROUP >= s.records[file] then Advancing(file) else Working(file, ticket, 0))
    case Advancing(file) =>
      if step.blocked then MoveTo(s, w, Reading)
      else if s.nextFile == file then MoveTo(s.(nextFile := s.nextFile + 1), w, Reading)
      else MoveTo(s, w, Reading)
    case Working(file, ticket, done) =>
      if file < |s.records| && done < GROUP && ticket * GROUP + done < s.records[file] then
        MoveTo(s.(catalogued := s.catalogued + [(file, ticket * GROUP + done)]), w, Working(file, ticket, done + 1))
      else MoveTo(s, w, if step.stops then Gone(true) else Reading)
    case Gone(_) => s
  }

  ghost predicate Sized(s: State) {
    |s.nextRecord| == |s.records|
  }

  ghost predicate Runs(s: State, steps: seq<Step>)
    requires Sized(s)
    decreases |steps|
  {
    steps == [] || (Enabled(s, steps[0]) && Runs(Next(s, steps[0]), steps[1..]))
  }

  ghost function After(s: State, steps: seq<Step>): State
    requires Sized(s) && Runs(s, steps)
    decreases |steps|
  {
    if steps == [] then s else After(Next(s, steps[0]), steps[1..])
  }

  /** A worker that finds everything complete at once is gone early. */
  ghost predicate Begins(s: State) {
    && s.nextFile == 0 && s.catalogued == [] && Sized(s)
    && (forall f :: 0 <= f < |s.records| ==> s.nextRecord[f] == 0)
    && (forall w :: 0 <= w < |s.workers| ==> s.workers[w] == Reading || s.workers[w] == Gone(true))
  }

  // ---- What holds in every state ----

  function Ticket(record: nat): nat {
    record / GROUP
  }

  /** Some worker has the ticket and has not come to the record yet. */
  ghost predicate Ahead(s: State, file: nat, record: nat) {
    exists w :: 0 <= w < |s.workers| && WorksTowards(s.workers[w], file, record)
  }

  ghost predicate WorksTowards(worker: Worker, file: nat, record: nat) {
    worker.Working? && worker.file == file && worker.ticket == Ticket(record) && worker.done <= record % GROUP
  }

  ghost predicate WorkerSane(s: State, worker: Worker)
    requires Sized(s)
  {
    match worker
    case Taking(file) => file <= s.nextFile && file < |s.records|
    case Advancing(file) => file <= s.nextFile && file < |s.records| && s.nextRecord[file] * GROUP >= s.records[file]
    case Working(file, ticket, done) =>
      file < |s.records| && ticket < s.nextRecord[file] && done <= GROUP && ticket * GROUP + done <= s.records[file]
    case _ => true
  }

  /** Two workers never hold the same ticket. */
  ghost predicate TicketsUnique(s: State) {
    forall v, w :: 0 <= v < w < |s.workers| && s.workers[v].Working? && s.workers[w].Working? ==>
      s.workers[v].file != s.workers[w].file || s.workers[v].ticket != s.workers[w].ticket
  }

  ghost predicate CataloguedSane(s: State)
    requires Sized(s)
  {
    && (forall i, j :: 0 <= i < j < |s.catalogued| ==> s.catalogued[i] != s.catalogued[j])
    && forall i :: 0 <= i < |s.catalogued| ==> CataloguedOne(s, s.catalogued[i].0, s.catalogued[i].1)
  }

  /** A catalogued record exists, its ticket is taken, and nobody will come to it again. */
  ghost predicate CataloguedOne(s: State, file: nat, record: nat)
    requires Sized(s)
  {
    file < |s.records| && record < s.records[file] && Ticket(record) < s.nextRecord[file] && !Ahead(s, file, record)
  }

  /** A record whose ticket is taken has been catalogued or will be. */
  ghost predicate NothingLost(s: State)
    requires Sized(s)
  {
    forall file: nat, record: nat ::
      file < |s.records| && record < s.records[file] && Ticket(record) < s.nextRecord[file] ==>
        (file, record) in s.catalogued || Ahead(s, file, record)
  }

  /** The files before the current one have no tickets left. */
  ghost predicate FilesExhausted(s: State)
    requires Sized(s)
  {
    && s.nextFile <= |s.records|
    && forall f :: 0 <= f < s.nextFile ==> s.nextRecord[f] * GROUP >= s.records[f]
  }

  /** Without an early stop, workers leave only when all files are exhausted. */
  ghost predicate LeaversKnow(s: State) {
    forall w :: 0 <= w < |s.workers| && s.workers[w] == Gone(false) ==> s.nextFile >= |s.records|
  }

  ghost predicate Invariant(s: State) {
    && Sized(s) && TicketsUnique(s) && CataloguedSane(s) && NothingLost(s) && FilesExhausted(s) && LeaversKnow(s)
    && forall w :: 0 <= w < |s.workers| ==> WorkerSane(s, s.workers[w])
  }

  lemma BeginsInvariant(s: State)
    requires Begins(s)
    ensures Invariant(s)
  {
  }

  lemma RecordOfTicket(ticket: nat, done: nat)
    requires done < GROUP
    ensures Ticket(ticket * GROUP + done) == ticket && (ticket * GROUP + done) % GROUP == done
  {
  }

  // ---- One step ----

  lemma AheadSame(s: State, t: State, w: nat, file: nat, record: nat)
    requires w < |s.workers| == |t.workers| && t.workers == s.workers[w := t.workers[w]]
    requires WorksTowards(s.workers[w], file, record) == WorksTowards(t.workers[w], file, record)
    ensures Ahead(t, file, record) == Ahead(s, file, record)
  {
    if Ahead(s, file, record) {
      var v :| 0 <= v < |s.workers| && WorksTowards(s.workers[v], file, record);
      assert WorksTowards(t.workers[v], file, record);
    }
    if Ahead(t, file, record) {
      var v :| 0 <= v < |t.workers| && WorksTowards(t.workers[v], file, record);
      assert WorksTowards(s.workers[v], file, record);
    }
  }

  /** A worker moves without coming to or leaving any record: everything about the records
      stays as it is. */
  lemma QuietStep(s: State, t: State, w: nat)
    requires Invariant(s) && w < |s.workers|
    requires t.records == s.records && t.nextRecord == s.nextRecord && t.catalogued == s.catalogued
    requires |t.workers| == |s.workers| && t.workers == s.workers[w := t.workers[w]] && !t.workers[w].Working?
    requires s.workers[w].Working? ==> GroupDone(s, s.workers[w])
    requires s.nextFile <= t.nextFile && FilesExhausted(t) && WorkerSane(t, t.workers[w])
    requires t.workers[w] == Gone(false) ==> t.nextFile >= |t.records|
    ensures Invariant(t)
  {
    forall file: nat, record: nat | file < |s.records| && record < s.records[file]
      ensures Ahead(t, file, record) == Ahead(s, file, record)
    {
      if WorksTowards(s.workers[w], file, record) {
        GroupDoneMeans(s, s.workers[w], record);
        assert false;
      }
      AheadSame(s, t, w, file, record);
    }
    forall v | 0 <= v < |t.workers|
      ensures WorkerSane(t, t.workers[v])
    {
      if v != w {
        assert WorkerSane(s, s.workers[v]);
      }
    }
    forall i | 0 <= i < |t.catalogued|
      ensures CataloguedOne(t, t.catalogued[i].0, t.catalogued[i].1)
    {
      assert CataloguedOne(s, s.catalogued[i].0, s.catalogued[i].1);
    }
  }

  /** The worker has come to the end of its group or of the file. */
  ghost predicate GroupDone(s: State, worker: Worker)
    requires Sized(s)
  {
    worker.Working? && worker.file < |s.records|
      && (worker.done >= GROUP || worker.ticket * GROUP + worker.done >= s.records[worker.file])
  }

  lemma GroupDoneMeans(s: State, worker: Worker, record: nat)
    requires Sized(s) && GroupDone(s, worker) && record < s.records[worker.file]
    ensures !WorksTowards(worker, worker.file, record)
  {
    assert record == Ticket(record) * GROUP + record % GROUP;
  }

  /** Taking a ticket that still has records. */
  lemma TakeStep(s: State, t: State, w: nat, file: nat)
    requires Invariant(s) && w < |s.workers| && !s.workers[w].Working? && file < |s.records|
    requires s.nextRecord[file] * GROUP < s.records[file]
    requires t == MoveTo(s.(nextRecord := s.nextRecord[file := s.nextRecord[file] + 1]), w, Working(file, s.nextRecord[file], 0))
    ensures Invariant(t)
  {
    var ticket := s.nextRecord[file];
    forall f: nat, record: nat | !(f == file && Ticket(record) == ticket)
      ensures Ahead(t, f, record) == Ahead(s, f, record)
    {
      AheadSame(s, t, w, f, record);
    }
    forall f: nat, record: nat |
      f < |t.records| && record < t.records[f] && Ticket(record) < t.nextRecord[f]
      ensures (f, record) in t.catalogued || Ahead(t, f, record)
    {
      if f == file && Ticket(record) == ticket {
        assert WorksTowards(t.workers[w], f, record);
      }
    }
    forall i | 0 <= i < |t.catalogued|
      ensures CataloguedOne(t, t.catalogued[i].0, t.catalogued[i].1)
    {
      assert CataloguedOne(s, s.catalogued[i].0, s.catalogued[i].1);
    }
    forall v | 0 <= v < |t.workers|
      ensures WorkerSane(t, t.workers[v])
      ensures v != w && t.workers[v].Working? && t.workers[v].file == file ==> t.workers[v].ticket < ticket
    {
      if v != w {
        assert WorkerSane(s, s.workers[v]);
      }
    }
  }

  /** Taking a ticket of an exhausted file. */
  lemma LateTakeStep(s: State, t: State, w: nat, file: nat)
    requires Invariant(s) && w < |s.workers| && s.workers[w] == Taking(file) && file < |s.records|
    requires s.nextRecord[file] * GROUP >= s.records[file]
    requires t == MoveTo(s.(nextRecord := s.nextRecord[file := s.nextRecord[file] + 1]), w, Advancing(file))
    ensures Invariant(t)
  {
    assert WorkerSane(s, s.workers[w]);
    forall f: nat, record: nat
      ensures Ahead(t, f, record) == Ahead(s, f, record)
    {
      AheadSame(s, t, w, f, record);
    }
    forall record: nat | record < s.records[file]
      ensures Ticket(record) < s.nextRecord[file]
    {
      assert record == Ticket(record) * GROUP + record % GROUP;
    }
    forall i | 0 <= i < |t.catalogued|
      ensures CataloguedOne(t, t.catalogued[i].0, t.catalogued[i].1)
    {
      assert CataloguedOne(s, s.catalogued[i].0, s.catalogued[i].1);
    }
    forall v | 0 <= v < |t.workers|
      ensures WorkerSane(t, t.workers[v])
    {
      if v != w {
        assert WorkerSane(s, s.workers[v]);
      }
    }
  }

  /** Cataloguing one record. */
  lemma CatalogueStep(s: State, t: State, w: nat)
    requires Invariant(s) && w < |s.workers| && s.workers[w].Working? && !GroupDone(s, s.workers[w])
    requires var k := s.workers[w];
      t == MoveTo(s.(catalogued := s.catalogued + [(k.file, k.ticket * GROUP + k.done)]), w, Working(k.file, k.ticket, k.done + 1))
    ensures Invariant(t)
  {
    var k := s.workers[w];
    assert WorkerSane(s, k);
    var now := k.ticket * GROUP + k.done;
    RecordOfTicket(k.ticket, k.done);
    forall f: nat, record: nat | (f, record) != (k.file, now)
      ensures Ahead(t, f, record) == Ahead(s, f, record)
    {
      if f == k.file && Ticket(record) == k.ticket {
        assert record == Ticket(record) * GROUP + record % GROUP;
        assert record % GROUP != k.done;
      }
      AheadSame(s, t, w, f, record);
    }
    assert WorksTowards(k, k.file, now);
    assert Ahead(s, k.file, now);
    OnlyOneAhead(s, t, w);
    forall i | 0 <= i < |s.catalogued|
      ensures s.catalogued[i] != (k.file, now)
    {
      assert CataloguedOne(s, s.catalogued[i].0, s.catalogued[i].1);
    }
    forall i | 0 <= i < |t.catalogued|
      ensures CataloguedOne(t, t.catalogued[i].0, t.catalogued[i].1)
    {
      if i < |s.catalogued| {
        assert CataloguedOne(s, s.catalogued[i].0, s.catalogued[i].1);
        assert t.catalogued[i] == s.catalogued[i];
      }
    }
    forall v | 0 <= v < |t.workers|
      ensures WorkerSane(t, t.workers[v])
    {
      assert WorkerSane(s, s.workers[v]);
    }
  }

  /** After the step no worker comes to that record again. */
  lemma OnlyOneAhead(s: State, t: State, w: nat)
    requires Invariant(s) && w < |s.workers| && s.workers[w].Working? && s.workers[w].done < GROUP
    requires var k := s.workers[w]; t.workers == s.workers[w := Working(k.file, k.ticket, k.done + 1)]
    ensures var k := s.workers[w]; !Ahead(t, k.file, k.ticket * GROUP + k.done)
  {
    var k := s.workers[w];
    RecordOfTicket(k.ticket, k.done);
    forall v | 0 <= v < |t.workers|
      ensures !WorksTowards(t.workers[v], k.file, k.ticket * GROUP + k.done)
    {
      if v < w {
        assert s.workers[v].Working? ==> s.workers[v].file != k.file || s.workers[v].ticket != k.ticket;
      } else if v > w {
        assert s.workers[v].Working? ==> s.workers[v].file != k.file || s.workers[v].ticket != k.ticket;
      }
    }
  }

  lemma StepKeepsInvariant(s: State, step: Step)
    requires Invariant(s) && Enabled(s, step)
    ensures Invariant(Next(s, step))
  {
    var w, t := step.w, Next(s, step);
    assert WorkerSane(s, s.workers[w]);
    match s.workers[w]
    case Reading => QuietStep(s, t, w);
    case Taking(file) =>
      if s.nextRecord[file] * GROUP >= s.records[file] {
        LateTakeStep(s, t, w, file);
      } else {
        TakeStep(s, t, w, file);
      }
    case Advancing(file) => QuietStep(s, t, w);
    case Working(file, ticket, done) =>
      if GroupDone(s, s.workers[w]) {
        QuietStep(s, t, w);
      } else {
        CatalogueStep(s, t, w);
      }
    case Gone(_) =>
  }

  // ---- Every run ----

  lemma {:induction false} EveryRunIsSafe(s: State, steps: seq<Step>)
    requires Invariant(s) && Runs(s, steps)
    ensures Invariant(After(s, steps)) && After(s, steps).records == s.records
    decreases |steps|
  {
    if steps != [] {
      StepKeepsInvariant(s, steps[0]);
      EveryRunIsSafe(Next(s, steps[0]), steps[1..]);
    }
  }

  ghost predicate AllGone(t: State) {
    forall w :: 0 <= w < |t.workers| ==> t.workers[w].Gone?
  }

  ghost predicate AllCatalogued(t: State) {
    forall f: nat, r: nat :: f < |t.records| && r < t.records[f] ==> (f, r) in t.catalogued
  }

  ghost predicate NoneTwice(t: State) {
    forall i, j :: 0 <= i < j < |t.catalogued| ==> t.catalogued[i] != t.catalogued[j]
  }

  /** When all workers are gone and the files are exhausted, every record has been catalogued. */
  lemma ExhaustedIsAll(t: State)
    requires Invariant(t) && AllGone(t) && t.nextFile >= |t.records|
    ensures AllCatalogued(t)
  {
    forall f: nat, r: nat | f < |t.records| && r < t.records[f]
      ensures (f, r) in t.catalogued
    {
      assert t.nextRecord[f] * GROUP >= t.records[f];
      assert r == Ticket(r) * GROUP + r % GROUP;
      assert Ticket(r) < t.nextRecord[f];
      assert !Ahead(t, f, r);
    }
  }

  // ---- When workers leave ----

  /** In no step the completion test found nothing missing. */
  ghost predicate NoStops(steps: seq<Step>) {
    forall i :: 0 <= i < |steps| ==> !steps[i].stops
  }

  /** A worker only leaves when it finds all files exhausted, or at the end of a group when the
      completion test finds nothing missing. */
  lemma WhyGone(s: State, step: Step)
    requires Invariant(s) && Enabled(s, step) && Next(s, step).workers[step.w].Gone?
    ensures (s.workers[step.w] == Reading && s.nextFile >= |s.records|) || (step.stops && GroupDone(s, s.workers[step.w]))
  {
    assert WorkerSane(s, s.workers[step.w]);
  }

  /** Without stops, a worker that has started does not leave early. */
  lemma {:induction false} StaysToTheEnd(s: State, steps: seq<Step>, w: nat)
    requires Invariant(s) && Runs(s, steps) && NoStops(steps) && w < |s.workers| && s.workers[w] != Gone(true)
    ensures Invariant(After(s, steps)) && |After(s, steps).workers| == |s.workers|
    ensures After(s, steps).workers[w] != Gone(true)
    decreases |steps|
  {
    if steps != [] {
      assert !steps[0].stops;
      StepKeepsInvariant(s, steps[0]);
      forall i | 0 <= i < |steps[1..]|
        ensures !steps[1..][i].stops
      {
        assert steps[1..][i] == steps[i + 1];
      }
      StaysToTheEnd(Next(s, steps[0]), steps[1..], w);
    }
  }

  /** Whatever the interleaving, no record is catalogued twice; and if a worker started, the
      completion test never ended the work, and all workers have left, then every record of
      every file has been. */
  lemma ExactlyOnce(s: State, steps: seq<Step>)
    requires Begins(s) && Runs(s, steps)
    ensures After(s, steps).records == s.records && NoneTwice(After(s, steps))
    ensures SomeStarts(s) && NoStops(steps) && AllGone(After(s, steps)) ==> AllCatalogued(After(s, steps))
  {
    BeginsInvariant(s);
    EveryRunIsSafe(s, steps);
    if SomeStarts(s) && NoStops(steps) && AllGone(After(s, steps)) {
      var w: nat :| w < |s.workers| && s.workers[w] == Reading;
      StaysToTheEnd(s, steps, w);
      assert After(s, steps).workers[w] == Gone(false);
      ExhaustedIsAll(After(s, steps));
    }
  }

  ghost predicate SomeStarts(s: State) {
    exists w: nat :: w < |s.workers| && s.workers[w] == Reading
  }

  // ---- The work ends ----

  /** Records in file `f` for which no ticket has been taken. */
  ghost function Untaken(s: State, f: nat): nat
    requires Sized(s) && f < |s.records|
  {
    if s.nextRecord[f] * GROUP >= s.records[f] then 0 else s.records[f] - s.nextRecord[f] * GROUP
  }

  ghost function AllUntaken(s: State, n: nat): nat
    requires Sized(s) && n <= |s.records|
  {
    if n == 0 then 0 else AllUntaken(s, n - 1) + Untaken(s, n - 1)
  }

  /** How far a worker is from finding out that the current file is exhausted. */
  ghost function Distance(worker: Worker, nextFile: nat): nat {
    match worker
    case Working(_, _, done) => 8 + if done < GROUP then GROUP - done else 0
    case Taking(file) => if file < nextFile then 7 else 4
    case Advancing(file) => if file < nextFile then 6 else 3
    case Reading => 5
    case Gone(_) => 0
  }

  ghost function AllDistances(s: State, n: nat): nat
    requires n <= |s.workers|
  {
    if n == 0 then 0 else AllDistances(s, n - 1) + Distance(s.workers[n - 1], s.nextFile)
  }

  ghost function FilesLeft(s: State): nat {
    if s.nextFile <= |s.records| then |s.records| - s.nextFile else 0
  }

  /** Fewer files, or as many and fewer records without a ticket, or as many and less to go. */
  ghost predicate Nearer(t: State, s: State)
    requires Sized(s) && Sized(t)
  {
    FilesLeft(t) < FilesLeft(s)
    || (FilesLeft(t) == FilesLeft(s) && AllUntaken(t, |t.records|) < AllUntaken(s, |s.records|))
    || (FilesLeft(t) == FilesLeft(s) && AllUntaken(t, |t.records|) == AllUntaken(s, |s.records|)
        && AllDistances(t, |t.workers|) < AllDistances(s, |s.workers|))
  }

  lemma {:induction false} UntakenSame(s: State, t: State, n: nat)
    requires Sized(s) && Sized(t) && |t.records| == |s.records| && n <= |s.records|
    requires forall f :: 0 <= f < n ==> Untaken(t, f) == Untaken(s, f)
    ensures AllUntaken(t, n) == AllUntaken(s, n)
  {
    if n > 0 {
      UntakenSame(s, t, n - 1);
    }
  }

  lemma {:induction false} UntakenLess(s: State, t: State, n: nat, file: nat)
    requires Sized(s) && Sized(t) && |t.records| == |s.records| && file < n <= |s.records|
    requires forall f :: 0 <= f < n && f != file ==> Untaken(t, f) == Untaken(s, f)
    requires Untaken(t, file) < Untaken(s, file)
    ensures AllUntaken(t, n) < AllUntaken(s, n)
  {
    if file == n - 1 {
      UntakenSame(s, t, n - 1);
    } else {
      UntakenLess(s, t, n - 1, file);
    }
  }

  lemma {:induction false} DistancesSame(s: State, t: State, n: nat)
    requires n <= |s.workers| == |t.workers| && t.nextFile == s.nextFile
    requires forall w :: 0 <= w < n ==> t.workers[w] == s.workers[w]
    ensures AllDistances(t, n) == AllDistances(s, n)
  {
    if n > 0 {
      DistancesSame(s, t, n - 1);
    }
  }

  lemma {:induction false} DistancesLess(s: State, t: State, n: nat, w: nat)
    requires w < n <= |s.workers| == |t.workers| && t.nextFile == s.nextFile
    requires forall v :: 0 <= v < n && v != w ==> t.workers[v] == s.workers[v]
    requires Distance(t.workers[w], t.nextFile) < Distance(s.workers[w], s.nextFile)
    ensures AllDistances(t, n) < AllDistances(s, n)
  {
    if w == n - 1 {
      DistancesSame(s, t, n - 1);
    } else {
      DistancesLess(s, t, n - 1, w);
    }
  }

  /** Every step that is not held up by the lock brings the end nearer, so no schedule goes on
      for ever without it. */
  lemma StepsGetNearer(s: State, step: Step)
    requires Invariant(s) && Enabled(s, step) && !step.blocked
    ensures Sized(Next(s, step)) && Nearer(Next(s, step), s)
  {
    var w, t := step.w, Next(s, step);
    assert WorkerSane(s, s.workers[w]);
    match s.workers[w]
    case Reading => CloserStep(s, t, w);
    case Taking(file) =>
      if s.nextRecord[file] * GROUP >= s.records[file] {
        CloserStep(s, t, w);
      } else {
        UntakenLess(s, t, |s.records|, file);
      }
    case Advancing(file) =>
      if s.nextFile != file {
        CloserStep(s, t, w);
      }
    case Working(_, _, _) => CloserStep(s, t, w);
    case Gone(_) =>
  }

  /** A step of one worker that leaves files and tickets as they are. */
  lemma CloserStep(s: State, t: State, w: nat)
    requires Sized(s) && Sized(t) && t.records == s.records && t.nextFile == s.nextFile && w < |s.workers|
    requires |t.workers| == |s.workers| && t.workers == s.workers[w := t.workers[w]]
    requires forall f :: 0 <= f < |s.records| ==> Untaken(t, f) == Untaken(s, f)
    requires Distance(t.workers[w], t.nextFile) < Distance(s.workers[w], s.nextFile)
    ensures Nearer(t, s)
  {
    UntakenSame(s, t, |s.records|);
    DistancesLess(s, t, |s.workers|, w);
  }

  /** From every state the work can be brought to its end, with every record catalogued if no
      worker has left early. */
  lemma CanFinish(s: State) returns (steps: seq<Step>)
    requires Invariant(s)
    ensures Runs(s, steps) && NoStops(steps) && AllGone(After(s, steps))
    decreases FilesLeft(s), AllUntaken(s, |s.records|), AllDistances(s, |s.workers|)
  {
    if AllGone(s) {
      steps := [];
    } else {
      var w: nat :| w < |s.workers| && !s.workers[w].Gone?;
      var step := Step(w, false, false);
      StepKeepsInvariant(s, step);
      StepsGetNearer(s, step);
      var rest := CanFinish(Next(s, step));
      steps := [step] + rest;
      assert steps[1..] == rest;
    }
  }
}
