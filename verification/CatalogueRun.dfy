/** Whole runs of the catalogue, for one number of inputs and one number of outputs: the jobs in
    ascending gate order, each with its record files, the workers' way through them, what
    cataloguing each record submitted, and the insertions of the submissions. */
module CatalogueRun {
  import opened Networks
  import opened Odometer
  import opened GateBuilder
  import opened Optimum
  import opened Catalogue
  import opened Insertion
  import Dispatch
  import opened Optimality

  /** What cataloguing a record came to, and where its completion test finds nothing missing. */
  datatype Harvest = Harvest(submissions: seq<Submission>, full: set<(nat, nat)>)

  /** The work on one gate count. `harvests` has an entry for every (file, record) catalogued. */
  datatype Work = Work(files: seq<seq<Record>>, begin: Dispatch.State, steps: seq<Dispatch.Step>, harvests: map<(nat, nat), Harvest>)

  /** Job `i` makes the insertions of work `i`; `final` is where the insertions lead. */
  datatype Run = Run(inputs: nat, outputs: nat, maxOutputs: nat, maxGates: nat, jobs: seq<Job<string>>, works: seq<Work>,
                     final: State<string>)

  /** What CatalogueRecord promises. */
  ghost predicate IsHarvest(harvest: Harvest, record: Record, inputs: nat, gates: nat, maxOutputs: nat)
    requires IsRecord(record, inputs, gates)
  {
    && AllJustified(harvest.submissions, record, inputs, gates)
    && forall k :: 1 <= k <= maxOutputs && NeverFull(harvest.full, k) ==>
         AllSubmitted(harvest.submissions, record, inputs, gates, k)
  }

  ghost predicate Dispatches(work: Work) {
    && Dispatch.Begins(work.begin) && Dispatch.Runs(work.begin, work.steps)
    && |work.begin.records| == |work.files|
    && forall f :: 0 <= f < |work.files| ==> work.begin.records[f] == |work.files[f]|
  }

  ghost predicate IsPlace(work: Work, place: (nat, nat)) {
    place.0 < |work.files| && place.1 < |work.files[place.0]|
  }

  ghost function RecordAt(work: Work, place: (nat, nat)): Record
    requires IsPlace(work, place)
  {
    work.files[place.0][place.1]
  }

  /** The record at a place is sound, and this is what cataloguing it came to. */
  ghost predicate Catalogues(work: Work, place: (nat, nat), inputs: nat, gates: nat, maxOutputs: nat) {
    && IsPlace(work, place) && place in work.harvests && IsRecord(RecordAt(work, place), inputs, gates)
    && IsHarvest(work.harvests[place], RecordAt(work, place), inputs, gates, maxOutputs)
  }

  /** The workers share out the files, and each record that they come to is catalogued. */
  ghost predicate Performs(work: Work, inputs: nat, gates: nat, maxOutputs: nat) {
    && Dispatches(work)
    && (forall f :: 0 <= f < |work.files| ==> Faithful(work.files[f], inputs, gates))
    && forall place :: place in Dispatch.After(work.begin, work.steps).catalogued ==>
         Catalogues(work, place, inputs, gates, maxOutputs)
  }

  /** A catalogued record submitted the entry, with `k` outputs. */
  ghost predicate Submits(work: Work, place: (nat, nat), k: nat, gates: nat, entry: Entry<string>) {
    && place in work.harvests && entry.gates == gates
    && exists i :: 0 <= i < |work.harvests[place].submissions| && SubmissionOf(work.harvests[place].submissions[i], k, entry.key)
  }

  ghost predicate SubmissionOf(sub: Submission, k: nat, key: string) {
    sub.outputs == k && sub.searchKey == key
  }

  /** The insertion protocol is called for exactly the submissions with `k` outputs. */
  ghost predicate Inserts(job: Job<string>, work: Work, k: nat)
    requires Dispatches(work)
  {
    && (forall entry :: Checked(job.events, entry) ==>
         exists place :: place in Dispatch.After(work.begin, work.steps).catalogued && Submits(work, place, k, job.gates, entry))
    && (forall place, entry ::
         place in Dispatch.After(work.begin, work.steps).catalogued && Submits(work, place, k, job.gates, entry) ==>
           Checked(job.events, entry))
  }

  ghost predicate IsRun(run: Run) {
    && Reached(run.maxGates, run.jobs, run.final) && |run.works| == |run.jobs|
    && forall i :: 0 <= i < |run.jobs| ==> JobPerformed(run, i)
  }

  ghost predicate JobPerformed(run: Run, i: nat)
    requires i < |run.works| == |run.jobs|
  {
    && Performs(run.works[i], run.inputs, run.jobs[i].gates, run.maxOutputs)
    && Inserts(run.jobs[i], run.works[i], run.outputs)
  }

  /** Some worker started, all of them have left, and the completion test never found all output
      counts full after a group, nor the one that matters here while a record was catalogued. */
  ghost predicate Uninterrupted(work: Work, k: nat)
    requires Dispatches(work)
  {
    && Dispatch.SomeStarts(work.begin) && Dispatch.NoStops(work.steps)
    && Dispatch.AllGone(Dispatch.After(work.begin, work.steps))
    && forall place :: place in work.harvests ==> NeverFull(work.harvests[place].full, k)
  }

  /** The files hold a record of every sequence that the generator accepts. */
  ghost predicate HoldsAll(work: Work, inputs: nat, gates: nat) {
    forall s :: Acceptable(s, inputs, gates) ==> exists place :: IsPlace(work, place) && RecordAt(work, place).gateInputs == s
  }

  /** The job for this gate count had all of the generator's records and was not interrupted. */
  ghost predicate Reaches(run: Run, gates: nat)
    requires IsRun(run)
  {
    && 1 <= run.outputs <= run.maxOutputs
    && exists i :: 0 <= i < |run.jobs| && JobReaches(run, i, gates)
  }

  ghost predicate JobReaches(run: Run, i: nat, gates: nat)
    requires IsRun(run) && i < |run.jobs|
  {
    assert JobPerformed(run, i);
    run.jobs[i].gates == gates && Uninterrupted(run.works[i], run.outputs) && HoldsAll(run.works[i], run.inputs, gates)
  }

  // ---- What has been dealt with after the joins ----

  ghost predicate Checked(events: seq<Event<string>>, entry: Entry<string>) {
    exists i :: 0 <= i < |events| && Checks(events[i], entry)
  }

  ghost predicate Checks(event: Event<string>, entry: Entry<string>) {
    event.Check? && event.entry == entry
  }

  /** The entry has been dealt with or is under way. */
  ghost predicate Received(s: State<string>, entry: Entry<string>) {
    entry in s.done || exists w :: w in s.waiting && s.waiting[w] == entry
  }

  lemma StepReceives(s: State<string>, event: Event<string>, entry: Entry<string>)
    requires Enabled(s, event)
    ensures Received(Next(s, event), entry) <==> Received(s, entry) || Checks(event, entry)
  {
    var t := Next(s, event);
    match event
    case Check(worker, e) =>
      if Settled(s.lore, e) {
        assert t.waiting == s.waiting;
      } else {
        assert t.waiting[worker] == e;
        if w :| w in s.waiting && s.waiting[w] == entry {
          assert w in t.waiting && t.waiting[w] == entry;
        }
      }
    case Commit(worker) =>
      if w :| w in s.waiting && s.waiting[w] == entry {
        assert w != worker ==> w in t.waiting && t.waiting[w] == entry;
      }
  }

  lemma CheckedFirst(events: seq<Event<string>>, entry: Entry<string>)
    requires events != []
    ensures Checked(events, entry) <==> Checks(events[0], entry) || Checked(events[1..], entry)
  {
    if i :| 0 <= i < |events| && Checks(events[i], entry) {
      assert i > 0 ==> Checks(events[1..][i - 1], entry);
    }
    if i :| 0 <= i < |events[1..]| && Checks(events[1..][i], entry) {
      assert Checks(events[i + 1], entry);
    }
  }

  lemma {:induction false} RunReceives(s: State<string>, events: seq<Event<string>>, entry: Entry<string>)
    requires Runs(s, events)
    ensures Received(After(s, events), entry) <==> Received(s, entry) || Checked(events, entry)
    decreases |events|
  {
    if events != [] {
      StepReceives(s, events[0], entry);
      RunReceives(Next(s, events[0]), events[1..], entry);
      CheckedFirst(events, entry);
    }
  }

  ghost predicate CheckedBySome(jobs: seq<Job<string>>, entry: Entry<string>) {
    exists i :: 0 <= i < |jobs| && Checked(jobs[i].events, entry)
  }

  lemma CheckedByFirst(jobs: seq<Job<string>>, entry: Entry<string>)
    requires jobs != []
    ensures CheckedBySome(jobs, entry) <==> Checked(jobs[0].events, entry) || CheckedBySome(jobs[1..], entry)
  {
    if i :| 0 <= i < |jobs| && Checked(jobs[i].events, entry) {
      assert i > 0 ==> Checked(jobs[1..][i - 1].events, entry);
    }
    if i :| 0 <= i < |jobs[1..]| && Checked(jobs[1..][i].events, entry) {
      assert Checked(jobs[i + 1].events, entry);
    }
  }

  /** After the joins exactly what has been checked is done: nothing is lost between the two
      critical sections. */
  lemma {:induction false} DoneIsChecked(s: State<string>, jobs: seq<Job<string>>, entry: Entry<string>)
    requires s.waiting == map[] && JobsRun(s, jobs)
    ensures entry in AfterJobs(s, jobs).done <==> entry in s.done || CheckedBySome(jobs, entry)
    decreases |jobs|
  {
    if jobs != [] {
      RunReceives(s, jobs[0].events, entry);
      DoneIsChecked(After(s, jobs[0].events), jobs[1..], entry);
      CheckedByFirst(jobs, entry);
    }
  }

  // ---- Submissions are honest and complete ----

  lemma RunIsHonest(run: Run)
    requires IsRun(run)
    ensures Honest(run.final.done, run.inputs, run.outputs)
  {
    forall entry | entry in run.final.done
      ensures exists record, outputs, sub :: FromNetwork(entry, run.inputs, run.outputs, record, outputs, sub)
    {
      DoneIsChecked(Fresh<string>(run.maxGates), run.jobs, entry);
      var i :| 0 <= i < |run.jobs| && Checked(run.jobs[i].events, entry);
      assert JobPerformed(run, i);
      var place :| place in Dispatch.After(run.works[i].begin, run.works[i].steps).catalogued
        && Submits(run.works[i], place, run.outputs, run.jobs[i].gates, entry);
      EntryFromNetwork(run.works[i], place, run.inputs, run.outputs, run.jobs[i].gates, run.maxOutputs, entry);
    }
  }

  lemma EntryFromNetwork(work: Work, place: (nat, nat), inputs: nat, k: nat, gates: nat, maxOutputs: nat,
                         entry: Entry<string>)
    requires Performs(work, inputs, gates, maxOutputs) && place in Dispatch.After(work.begin, work.steps).catalogued
    requires Submits(work, place, k, gates, entry)
    ensures exists record, outputs, sub :: FromNetwork(entry, inputs, k, record, outputs, sub)
  {
    assert Catalogues(work, place, inputs, gates, maxOutputs);
    var record, harvest := RecordAt(work, place), work.harvests[place];
    assert FaithfulRecord(record, inputs, gates);
    var i :| 0 <= i < |harvest.submissions| && SubmissionOf(harvest.submissions[i], k, entry.key);
    var sub := harvest.submissions[i];
    assert Justified(sub, record, inputs, gates);
    var outputs :| Wanted(record, inputs, gates, outputs) && Describes(sub, record, inputs, gates, outputs);
    assert FromNetwork(entry, inputs, k, record, outputs, sub);
  }

  ghost function AllRecords(work: Work): seq<Record> {
    Joined(work.files)
  }

  ghost function Joined(files: seq<seq<Record>>): (all: seq<Record>)
    ensures forall record :: record in all <==> exists f :: 0 <= f < |files| && record in files[f]
  {
    if files == [] then []
    else
      var n := |files| - 1;
      var all := Joined(files[..n]) + files[n];
      assert forall f :: 0 <= f < n ==> files[..n][f] == files[f];
      all
  }

  lemma FilesAreGenerated(work: Work, inputs: nat, gates: nat)
    requires forall f :: 0 <= f < |work.files| ==> Faithful(work.files[f], inputs, gates)
    requires HoldsAll(work, inputs, gates)
    ensures Generated(AllRecords(work), inputs, gates)
  {
    var records := AllRecords(work);
    forall i | 0 <= i < |records|
      ensures FaithfulRecord(records[i], inputs, gates)
    {
      assert records[i] in records;
      var f :| 0 <= f < |work.files| && records[i] in work.files[f];
      assert Faithful(work.files[f], inputs, gates);
    }
    forall s | Acceptable(s, inputs, gates)
      ensures s in GateSequences(records)
    {
      var place: (nat, nat) :| IsPlace(work, place) && RecordAt(work, place).gateInputs == s;
      assert RecordAt(work, place) in work.files[place.0];
      assert RecordAt(work, place) in records;
      var i :| 0 <= i < |records| && records[i] == RecordAt(work, place);
      assert GateSequences(records)[i] == s;
    }
  }

  /** Every record of an uninterrupted job has been catalogued to the end. */
  lemma EveryRecordCatalogued(work: Work, place: (nat, nat), inputs: nat, gates: nat, k: nat, maxOutputs: nat)
    requires Performs(work, inputs, gates, maxOutputs) && Uninterrupted(work, k) && IsPlace(work, place)
    ensures place in Dispatch.After(work.begin, work.steps).catalogued
    ensures Catalogues(work, place, inputs, gates, maxOutputs) && NeverFull(work.harvests[place].full, k)
  {
    Dispatch.ExactlyOnce(work.begin, work.steps);
    assert (place.0, place.1) == place;
  }

  lemma RunIsComplete(run: Run, i: nat)
    requires IsRun(run) && i < |run.jobs| && JobPerformed(run, i)
    requires Uninterrupted(run.works[i], run.outputs) && 1 <= run.outputs <= run.maxOutputs
    ensures Complete(run.final.done, run.inputs, run.jobs[i].gates, run.outputs, AllRecords(run.works[i]))
  {
    var work, gates := run.works[i], run.jobs[i].gates;
    forall record, outputs | record in AllRecords(work) && IsRecord(record, run.inputs, gates) && |outputs| == run.outputs
      && Wanted(record, run.inputs, gates, outputs)
      ensures Offered(run.final.done, run.inputs, gates, run.outputs, record, outputs)
    {
      var f: nat :| 0 <= f < |work.files| && record in work.files[f];
      var r: nat :| 0 <= r < |work.files[f]| && work.files[f][r] == record;
      EveryRecordCatalogued(work, (f, r), run.inputs, gates, run.outputs, run.maxOutputs);
      assert AllSubmitted(work.harvests[(f, r)].submissions, record, run.inputs, gates, run.outputs);
      OutputsOffered(run, i, (f, r), record, outputs);
    }
  }

  lemma OutputsOffered(run: Run, i: nat, place: (nat, nat), record: Record, outputs: seq<nat>)
    requires IsRun(run) && i < |run.jobs| && JobPerformed(run, i) && IsRecord(record, run.inputs, run.jobs[i].gates)
    requires place in Dispatch.After(run.works[i].begin, run.works[i].steps).catalogued
      && place in run.works[i].harvests
    requires Submitted(run.works[i].harvests[place].submissions, record, run.inputs, run.jobs[i].gates, outputs)
    requires |outputs| == run.outputs
    ensures Offered(run.final.done, run.inputs, run.jobs[i].gates, run.outputs, record, outputs)
  {
    var subs, gates := run.works[i].harvests[place].submissions, run.jobs[i].gates;
    var n :| 0 <= n < |subs| && Describes(subs[n], record, run.inputs, gates, outputs);
    var entry := Entry(subs[n].searchKey, gates);
    assert SubmissionOf(subs[n], run.outputs, entry.key);
    assert Submits(run.works[i], place, run.outputs, gates, entry);
    assert Checked(run.jobs[i].events, entry);
    DoneIsChecked(Fresh<string>(run.maxGates), run.jobs, entry);
  }

  // ---- The catalogue is optimal ----

  /** In every run whose job for `|net|` gates was not interrupted, a cataloguable set of
      functions that needs `|net|` gates is logged exactly once under a search key of its own,
      with `|net|` gates; and if the comparison orders the functions, it has no other key. */
  lemma CatalogueIsOptimal(run: Run, net: Net, wanted: set<Column>) returns (key: string)
    requires IsRun(run) && run.outputs == |wanted| && Reaches(run, |net|)
    requires Minimum(net, run.inputs, wanted) && Cataloguable(wanted, run.inputs)
    ensures KeyOf(key, run.inputs, wanted) && Counts(run.final.log, key) == [|net|]
    ensures SetOrdered(wanted, run.inputs) ==> forall other :: KeyOf(other, run.inputs, wanted) ==> other == key
  {
    var i :| 0 <= i < |run.jobs| && JobReaches(run, i, |net|);
    assert JobPerformed(run, i);
    RunIsHonest(run);
    RunIsComplete(run, i);
    FilesAreGenerated(run.works[i], run.inputs, |net|);
    key := OptimumLoggedOnce(run.maxGates, run.jobs, run.final, run.inputs, AllRecords(run.works[i]), net, wanted);
    if SetOrdered(wanted, run.inputs) {
      forall other | KeyOf(other, run.inputs, wanted)
        ensures other == key
      {
        OneKey(other, key, run.inputs, wanted);
      }
    }
  }

  /** A logged gate count is never too small: every line comes from a network with that many
      gates that computes its functions, even in an interrupted run. */
  lemma LoggedIsAchievable(run: Run, entry: Entry<string>) returns (record: Record, outputs: seq<nat>, sub: Submission)
    requires IsRun(run) && entry in run.final.done
    ensures FromNetwork(entry, run.inputs, run.outputs, record, outputs, sub)
  {
    RunIsHonest(run);
    record, outputs, sub :| FromNetwork(entry, run.inputs, run.outputs, record, outputs, sub);
  }
}
