/** The double-checked insertion of nandcombinator.cc. A worker first looks its key up under
    the shared lock; if that does not settle the matter it looks again under the exclusive
    lock and may insert. Between the two, other workers may do anything. */
module Insertion {

  datatype Entry<K> = Entry(key: K, gates: nat)

  /** The sets of known keys by gate count, the log, the workers between their two checks, and
      the submissions that have been dealt with. */
  datatype State<K> = State(lore: seq<set<K>>, log: seq<Entry<K>>, waiting: map<nat, Entry<K>>, done: seq<Entry<K>>)

  /** A critical section: the first check of a submission, or the second one. */
  datatype Event<K> = Check(worker: nat, entry: Entry<K>) | Commit(worker: nat)

  /** The first gate count, from `n` on, whose set has the key; 0 if there is none. */
  function LookupFrom<K(==)>(lore: seq<set<K>>, key: K, n: nat): (found: nat)
    ensures found > 0 ==> n < found <= |lore| && key in lore[found - 1]
    ensures found > 0 ==> forall m :: n <= m < found - 1 ==> key !in lore[m]
    ensures found == 0 ==> forall m :: n <= m < |lore| ==> key !in lore[m]
    decreases |lore| - n
  {
    if n >= |lore| then 0 else if key in lore[n] then n + 1 else LookupFrom(lore, key, n + 1)
  }

  function Lookup<K(==)>(lore: seq<set<K>>, key: K): nat {
    LookupFrom(lore, key, 0)
  }

  /** The key is known with no more gates. */
  predicate Settled<K(==)>(lore: seq<set<K>>, entry: Entry<K>) {
    0 < Lookup(lore, entry.key) <= entry.gates
  }

  function Insert<K(==)>(lore: seq<set<K>>, entry: Entry<K>): (lore': seq<set<K>>)
    requires 1 <= entry.gates <= |lore|
    ensures |lore'| == |lore|
  {
    var n := Lookup(lore, entry.key);
    var cleared := if n > 0 then lore[n - 1 := lore[n - 1] - {entry.key}] else lore;
    cleared[entry.gates - 1 := cleared[entry.gates - 1] + {entry.key}]
  }

  // ---- The critical sections as the program runs them ----

  class Knowledge<K(==)> {
    var lore: seq<set<K>>
    var log: seq<Entry<K>>

    constructor (maxGates: nat)
      ensures |lore| == maxGates && (forall n :: 0 <= n < maxGates ==> lore[n] == {}) && log == []
    {
      lore, log := seq(maxGates, _ => {}), [];
    }

    /** Under the shared lock: may the submission be ignored? */
    method CheckSection(entry: Entry<K>) returns (ignore: bool)
      ensures ignore == Settled(lore, entry)
    {
      var n := 1;
      while n <= |lore|
        invariant 1 <= n <= |lore| + 1 && Lookup(lore, entry.key) == LookupFrom(lore, entry.key, n - 1)
      {
        if entry.key in lore[n - 1] {
          return n <= entry.gates;
        }
        n := n + 1;
      }
      return false;
    }

    /** Under the exclusive lock: look again, and replace or insert. */
    method CommitSection(entry: Entry<K>) returns (logged: bool)
      requires 1 <= entry.gates <= |lore|
      modifies this
      ensures logged == !Settled(old(lore), entry)
      ensures logged ==> lore == Insert(old(lore), entry) && log == old(log) + [entry]
      ensures !logged ==> lore == old(lore) && log == old(log)
    {
      var n := 1;
      while n <= |lore|
        invariant 1 <= n <= |lore| + 1 && lore == old(lore) && log == old(log)
        invariant Lookup(lore, entry.key) == LookupFrom(lore, entry.key, n - 1)
      {
        if entry.key in lore[n - 1] {
          if n <= entry.gates {
            return false;
          }
          lore := lore[n - 1 := lore[n - 1] - {entry.key}];
          break;
        }
        n := n + 1;
      }
      lore := lore[entry.gates - 1 := lore[entry.gates - 1] + {entry.key}];
      log := log + [entry];
      return true;
    }
  }

  // ---- The protocol ----

  ghost predicate Enabled<K>(s: State<K>, e: Event<K>) {
    match e
    case Check(worker, entry) => worker !in s.waiting && 1 <= entry.gates <= |s.lore|
    case Commit(worker) => worker in s.waiting && 1 <= s.waiting[worker].gates <= |s.lore|
  }

  ghost function Next<K>(s: State<K>, e: Event<K>): State<K>
    requires Enabled(s, e)
  {
    match e
    case Check(worker, entry) =>
      if Settled(s.lore, entry) then s.(done := s.done + [entry])
      else s.(waiting := s.waiting[worker := entry])
    case Commit(worker) =>
      var entry := s.waiting[worker];
      var rest := s.(waiting := s.waiting - {worker}, done := s.done + [entry]);
      if Settled(s.lore, entry) then rest
      else rest.(lore := Insert(s.lore, entry), log := s.log + [entry])
  }

  ghost predicate Runs<K>(s: State<K>, events: seq<Event<K>>)
    decreases |events|
  {
    events == [] || (Enabled(s, events[0]) && Runs(Next(s, events[0]), events[1..]))
  }

  ghost function After<K>(s: State<K>, events: seq<Event<K>>): State<K>
    requires Runs(s, events)
    decreases |events|
  {
    if events == [] then s else After(Next(s, events[0]), events[1..])
  }

  ghost function Fresh<K>(maxGates: nat): State<K> {
    State(seq(maxGates, _ => {}), [], map[], [])
  }

  // ---- What holds in every state ----

  ghost predicate InOneSet<K(!new)>(lore: seq<set<K>>) {
    forall key, m, n :: 0 <= m < n < |lore| && key in lore[m] ==> key !in lore[n]
  }

  /** The gate counts logged for a key, in order. */
  ghost function Counts<K>(log: seq<Entry<K>>, key: K): seq<nat> {
    if log == [] then [] else
      var last := log[|log| - 1];
      Counts(log[..|log| - 1], key) + if last.key == key then [last.gates] else []
  }

  ghost predicate Falls(counts: seq<nat>) {
    forall i, j :: 0 <= i < j < |counts| ==> counts[i] > counts[j]
  }

  /** The state of one key: known with `n` gates if and only if it has been submitted, `n`
      being the least count submitted; its log falls down to `n`. */
  ghost predicate KeyInvariant<K>(s: State<K>, key: K) {
    var n, counts := Lookup(s.lore, key), Counts(s.log, key);
    && Falls(counts)
    && (n == 0 ==> counts == [] && forall e :: e in s.done ==> e.key != key)
    && (n > 0 ==> counts != [] && counts[|counts| - 1] == n && Entry(key, n) in s.done)
    && (n > 0 ==> forall e :: e in s.done && e.key == key ==> n <= e.gates)
  }

  ghost predicate Invariant<K(!new)>(s: State<K>) {
    InOneSet(s.lore) && forall key :: KeyInvariant(s, key)
  }

  lemma FreshInvariant<K(!new)>(maxGates: nat)
    ensures Invariant(Fresh<K>(maxGates))
  {
  }

  /** Inserting moves the key to its new set and no other key anywhere. */
  lemma InsertMoves<K(!new)>(lore: seq<set<K>>, entry: Entry<K>, key: K)
    requires InOneSet(lore) && 1 <= entry.gates <= |lore|
    ensures InOneSet(Insert(lore, entry))
    ensures Lookup(Insert(lore, entry), key) == if key == entry.key then entry.gates else Lookup(lore, key)
  {
    var lore' := Insert(lore, entry);
    var n := Lookup(lore, entry.key);
    forall k, m | 0 <= m < |lore|
      ensures k in lore'[m] <==> if k == entry.key then m == entry.gates - 1 else k in lore[m]
    {
      if n > 0 && k == entry.key && m != n - 1 {
        assert entry.key in lore[n - 1] && k !in lore[m];
      }
    }
    LookupBySets(lore, lore', entry, key);
  }

  lemma LookupBySets<K>(lore: seq<set<K>>, lore': seq<set<K>>, entry: Entry<K>, key: K)
    requires |lore'| == |lore| && 1 <= entry.gates <= |lore|
    requires forall k, m :: 0 <= m < |lore| ==> (k in lore'[m] <==> if k == entry.key then m == entry.gates - 1 else k in lore[m])
    ensures Lookup(lore', key) == if key == entry.key then entry.gates else Lookup(lore, key)
  {
    var a, b := Lookup(lore', key), Lookup(lore, key);
    if key == entry.key {
      assert key in lore'[entry.gates - 1];
    } else {
      assert a > 0 ==> key in lore[a - 1];
      assert b > 0 ==> key in lore'[b - 1];
    }
  }

  lemma CountsAppend<K>(log: seq<Entry<K>>, entry: Entry<K>, key: K)
    ensures Counts(log + [entry], key) == Counts(log, key) + if entry.key == key then [entry.gates] else []
  {
    assert (log + [entry])[..|log|] == log;
  }

  lemma DoneGrows<K>(s: State<K>, t: State<K>, entry: Entry<K>, key: K)
    requires KeyInvariant(s, key) && t.lore == s.lore && t.log == s.log && t.done == s.done + [entry]
    requires Settled(s.lore, entry)
    ensures KeyInvariant(t, key)
  {
    assert forall e :: e in t.done <==> e in s.done || e == entry;
  }

  lemma LogGrows<K(!new)>(s: State<K>, t: State<K>, entry: Entry<K>, key: K)
    requires InOneSet(s.lore) && KeyInvariant(s, key) && 1 <= entry.gates <= |s.lore| && !Settled(s.lore, entry)
    requires t.lore == Insert(s.lore, entry) && t.log == s.log + [entry] && t.done == s.done + [entry]
    ensures KeyInvariant(t, key)
  {
    InsertMoves(s.lore, entry, key);
    CountsAppend(s.log, entry, key);
    assert forall e :: e in t.done <==> e in s.done || e == entry;
  }

  lemma StepKeepsInvariant<K(!new)>(s: State<K>, e: Event<K>)
    requires Invariant(s) && Enabled(s, e)
    ensures Invariant(Next(s, e))
  {
    var t := Next(s, e);
    match e
    case Check(worker, entry) =>
      if Settled(s.lore, entry) {
        forall key
          ensures KeyInvariant(t, key)
        {
          DoneGrows(s, t, entry, key);
        }
      } else {
        forall key
          ensures KeyInvariant(t, key)
        {
          assert KeyInvariant(s, key);
        }
      }
    case Commit(worker) =>
      var entry := s.waiting[worker];
      if Settled(s.lore, entry) {
        forall key
          ensures KeyInvariant(t, key)
        {
          DoneGrows(s, t, entry, key);
        }
      } else {
        InsertMoves(s.lore, entry, entry.key);
        forall key
          ensures KeyInvariant(t, key)
        {
          LogGrows(s, t, entry, key);
        }
      }
  }

  /** In every run, whatever the interleaving: a key is in at most one set, that set is the
      least gate count submitted so far, and the logged counts of a key fall. */
  lemma {:induction false} EveryRunIsSafe<K(!new)>(s: State<K>, events: seq<Event<K>>)
    requires Invariant(s) && Runs(s, events)
    ensures Invariant(After(s, events))
    decreases |events|
  {
    if events != [] {
      StepKeepsInvariant(s, events[0]);
      EveryRunIsSafe(Next(s, events[0]), events[1..]);
    }
  }

  // ---- Jobs in ascending gate order ----

  /** The work on one gate count, ending with the join of all workers. */
  datatype Job<K> = Job(gates: nat, events: seq<Event<K>>)

  ghost predicate OnlyGates<K>(job: Job<K>) {
    forall i :: 0 <= i < |job.events| && job.events[i].Check? ==> job.events[i].entry.gates == job.gates
  }

  ghost predicate JobsRun<K>(s: State<K>, jobs: seq<Job<K>>)
    decreases |jobs|
  {
    jobs == [] || (
      && OnlyGates(jobs[0]) && Runs(s, jobs[0].events)
      && After(s, jobs[0].events).waiting == map[]
      && JobsRun(After(s, jobs[0].events), jobs[1..]))
  }

  ghost function AfterJobs<K>(s: State<K>, jobs: seq<Job<K>>): State<K>
    requires JobsRun(s, jobs)
    decreases |jobs|
  {
    if jobs == [] then s else AfterJobs(After(s, jobs[0].events), jobs[1..])
  }

  ghost predicate Ascending<K>(jobs: seq<Job<K>>) {
    forall i, j :: 0 <= i < j < |jobs| ==> jobs[i].gates < jobs[j].gates
  }

  /** While the job for `gates` runs: nothing beyond it is known or under way, and no key has
      been logged twice. */
  ghost predicate UpTo<K(!new)>(s: State<K>, gates: nat) {
    && Invariant(s)
    && (forall w :: w in s.waiting ==> s.waiting[w].gates == gates)
    && (forall key :: Lookup(s.lore, key) <= gates)
    && (forall key :: |Counts(s.log, key)| <= 1)
  }

  lemma StepUpTo<K(!new)>(s: State<K>, e: Event<K>, gates: nat)
    requires UpTo(s, gates) && Enabled(s, e) && (e.Check? ==> e.entry.gates == gates)
    ensures UpTo(Next(s, e), gates)
  {
    StepKeepsInvariant(s, e);
    var t := Next(s, e);
    if e.Commit? && !Settled(s.lore, s.waiting[e.worker]) {
      var entry := s.waiting[e.worker];
      forall key
        ensures Lookup(t.lore, key) <= gates && |Counts(t.log, key)| <= 1
      {
        InsertMoves(s.lore, entry, key);
        CountsAppend(s.log, entry, key);
        assert KeyInvariant(s, key);
      }
    }
  }

  lemma {:induction false} JobUpTo<K(!new)>(s: State<K>, job: Job<K>)
    requires UpTo(s, job.gates) && OnlyGates(job) && Runs(s, job.events)
    ensures UpTo(After(s, job.events), job.gates)
    decreases |job.events|
  {
    if job.events != [] {
      var rest := Job(job.gates, job.events[1..]);
      StepUpTo(s, job.events[0], job.gates);
      forall i | 0 <= i < |rest.events| && rest.events[i].Check?
        ensures rest.events[i].entry.gates == job.gates
      {
        assert job.events[i + 1].Check?;
      }
      JobUpTo(Next(s, job.events[0]), rest);
    }
  }

  /** When jobs run in ascending gate order with a join in between, each key is logged at most
      once, with the least gate count submitted. */
  lemma {:induction false} AscendingJobsLogOnce<K(!new)>(s: State<K>, jobs: seq<Job<K>>, gates: nat)
    requires UpTo(s, gates) && s.waiting == map[] && JobsRun(s, jobs) && Ascending(jobs)
    requires jobs != [] ==> gates < jobs[0].gates
    ensures var t := AfterJobs(s, jobs);
      Invariant(t) && t.waiting == map[] && forall key :: |Counts(t.log, key)| <= 1
    decreases |jobs|
  {
    if jobs != [] {
      JobUpTo(s, jobs[0]);
      var rest := jobs[1..];
      forall i, j | 0 <= i < j < |rest|
        ensures rest[i].gates < rest[j].gates
      {
        assert jobs[i + 1].gates < jobs[j + 1].gates;
      }
      AscendingJobsLogOnce(After(s, jobs[0].events), rest, jobs[0].gates);
    }
  }

  /** `t` is where jobs in ascending order lead from the start. */
  ghost predicate Reached<K>(maxGates: nat, jobs: seq<Job<K>>, t: State<K>) {
    && Ascending(jobs) && (jobs != [] ==> 0 < jobs[0].gates)
    && JobsRun(Fresh<K>(maxGates), jobs) && t == AfterJobs(Fresh<K>(maxGates), jobs)
  }

  /** From the start: a submitted key ends with exactly one line, its least gate count. */
  lemma SubmittedLoggedOnce<K(!new)>(maxGates: nat, jobs: seq<Job<K>>, t: State<K>, entry: Entry<K>) returns (n: nat)
    requires Reached(maxGates, jobs, t) && entry in t.done
    ensures n == Lookup(t.lore, entry.key) && 0 < n && Counts(t.log, entry.key) == [n]
    ensures Entry(entry.key, n) in t.done && n <= entry.gates
    ensures forall e :: e in t.done && e.key == entry.key ==> n <= e.gates
  {
    FreshInvariant<K>(maxGates);
    assert UpTo(Fresh<K>(maxGates), 0);
    AscendingJobsLogOnce(Fresh<K>(maxGates), jobs, 0);
    assert KeyInvariant(t, entry.key) && |Counts(t.log, entry.key)| <= 1;
    n := Lookup(t.lore, entry.key);
  }
}
