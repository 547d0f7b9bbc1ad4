/** The watcher's own operations, as code that updates the store and the baseline in
    place. Each operation is a run of the capture protocol: it hands back the states
    it passed through. Outcomes of calls that may fail, file reads, random ids and
    the operators' answers are arguments. */
module VaultWatcher {
  import opened Common
  import opened CaptureProtocol

  type Fault = string

  /** How the call that uploads and reads back ended; a cancelled call never returned. */
  datatype UploadOutcome = Verified | Refused(fault: Fault) | Cancelled

  /** The outcomes met by one capture, in the order the calls are made. */
  datatype CaptureOutcomes = CaptureOutcomes(
    inputs: Option<Fault>,
    snapshotId: nat,
    hashes: Result<seq<(Path, Option<Digest>)>, Fault>,
    save: Option<Fault>,
    count: Option<Fault>,
    envelope: Result<nat, Fault>,
    sign: Option<Fault>,
    setHead: Option<Fault>,
    acknowledge: Option<Fault>,
    objects: Option<Fault>,
    upload: UploadOutcome,
    marked: bool)

  /** The outcomes met by one item of a retry round. */
  datatype RetryOutcomes = RetryOutcomes(lookup: Option<Fault>, upload: UploadOutcome, record: Option<Fault>)

  /** What ends a capture whose head was acknowledged: nothing when it does not replicate. */
  function UploadFault(c: Config, o: CaptureOutcomes): Option<Fault> {
    if !c.replicate then None
    else if o.objects.Some? then o.objects
    else match o.upload
      case Verified => None
      case Refused(fault) => Some(fault)
      case Cancelled => Some("cancelled")
  }

  /** The first failure from the preparation of the recovery set on, in the order the calls are made. */
  function PublishFault(c: Config, o: CaptureOutcomes): Option<Fault> {
    if o.envelope.Err? then Some(o.envelope.error)
    else if o.sign.Some? then o.sign
    else if o.setHead.Some? then o.setHead
    else if o.acknowledge.Some? then o.acknowledge
    else UploadFault(c, o)
  }

  /** The record a capture makes. */
  function RecordOf(s: Store, o: CaptureOutcomes): Record
    requires o.hashes.Ok?
  {
    Record(o.snapshotId, ParentsOf(s.active), s.counter + 1, FromPairs(o.hashes.value))
  }

  /** The store with the recovery set and the head, as far as the outcomes let it go. */
  function HeadedStore(s: Store, record: Record, o: CaptureOutcomes): Store {
    if o.envelope.Err? then s
    else
      var prepared := PrepareRecoverySet(s, record, o.envelope.value);
      if o.sign.Some? || o.setHead.Some? then prepared
      else SetHead(prepared, Head(record, record.parents, prepared.recovery[record], record.counter))
  }

  /** The store after publishing: the upload is taken off the list when all went well and that was recorded. */
  function PublishedStore(c: Config, s: Store, record: Record, o: CaptureOutcomes): Store {
    var headed := HeadedStore(s, record, o);
    if PublishFault(c, o).None? && o.marked then MarkUploadCompleted(headed, record.snapshotId) else headed
  }

  /** The store after a capture, as far as the outcomes let it go. */
  function CapturedStore(c: Config, s: Store, o: CaptureOutcomes): Store {
    if o.inputs.Some? || o.hashes.Err? || o.save.Some? then s
    else
      var saved := SaveSnapshot(s, RecordOf(s, o));
      if o.count.Some? then saved else PublishedStore(c, IncrementCounter(saved), RecordOf(s, o), o)
  }

  /** The capture gets as far as moving the baseline. */
  predicate AcknowledgesCapture(o: CaptureOutcomes) {
    && o.inputs.None? && o.hashes.Ok? && o.save.None? && o.count.None? && o.envelope.Ok? && o.sign.None?
    && o.setHead.None? && o.acknowledge.None?
  }

  lemma {:induction false} CaptureBranches(c: Config, s: Store, o: CaptureOutcomes)
    ensures PublishFault(c, o) ==
            if o.envelope.Err? then Some(o.envelope.error)
            else if o.sign.Some? then o.sign
            else if o.setHead.Some? then o.setHead
            else if o.acknowledge.Some? then o.acknowledge
            else if !c.replicate then None
            else if o.objects.Some? then o.objects
            else if o.upload.Refused? then Some(o.upload.fault)
            else if o.upload.Cancelled? then Some("cancelled")
            else None
    ensures o.hashes.Ok? && PublishFault(c, o).None? ==>
      var s' := PublishedStore(c, IncrementCounter(SaveSnapshot(s, RecordOf(s, o))), RecordOf(s, o), o);
      (o.snapshotId in s'.pending <==> !o.marked) && s'.counter == s.counter + 1
  {
    hide FromPairs;
  }

  lemma {:induction false} HeadedFields(s: Store, record: Record, o: CaptureOutcomes)
    ensures var s' := HeadedStore(s, record, o);
            var headed := o.envelope.Ok? && o.sign.None? && o.setHead.None?;
            && s'.snapshots == s.snapshots && s'.counter == s.counter && s'.pending == s.pending
            && s'.active == (if headed then Some(record) else s.active)
            && s'.recovery == PreparedSets(s.recovery, record, o)
            && s'.heads == if headed then s.heads[record := Head(record, record.parents, s'.recovery[record],
                                                                 record.counter)]
                           else s.heads
  {
  }

  lemma {:induction false} PublishedFields(c: Config, s: Store, record: Record, o: CaptureOutcomes)
    ensures var s', headed := PublishedStore(c, s, record, o), HeadedStore(s, record, o);
            var done := && o.envelope.Ok? && o.sign.None? && o.setHead.None? && o.acknowledge.None?
                        && (c.replicate ==> o.objects.None? && o.upload.Verified?);
            s' == headed.(pending := if done && o.marked then s.pending - {record.snapshotId} else s.pending)
  {
    HeadedFields(s, record, o);
    PublishesExactly(c, o);
    hide PublishFault, HeadedStore;
  }

  lemma {:induction false} PublishesExactly(c: Config, o: CaptureOutcomes)
    ensures PublishFault(c, o) == None
            <==> && o.envelope.Ok? && o.sign.None? && o.setHead.None? && o.acknowledge.None?
                 && (c.replicate ==> o.objects.None? && o.upload.Verified?)
  {
  }

  /** The recovery sets with one for this record, unless its preparation failed; an existing one is kept. */
  function PreparedSets(recovery: map<Record, RecoverySet>, record: Record, o: CaptureOutcomes)
    : (m: map<Record, RecoverySet>)
    ensures o.envelope.Ok? ==> record in m
  {
    if o.envelope.Ok? && record !in recovery then recovery[record := RecoverySet(record, o.envelope.value)]
    else recovery
  }

  /** What a capture leaves in the store, by how far it got: a saved snapshot is listed for upload until a finished
      capture takes it off, a counted one has used up its counter, and only a stored head becomes the active one. */
  lemma {:induction false} CapturedFields(c: Config, s: Store, o: CaptureOutcomes)
    ensures var s' := CapturedStore(c, s, o);
            var saved := o.inputs.None? && o.hashes.Ok? && o.save.None?;
            var counted := saved && o.count.None?;
            var prepared := counted && o.envelope.Ok?;
            var headed := prepared && o.sign.None? && o.setHead.None?;
            var done := headed && o.acknowledge.None? && (c.replicate ==> o.objects.None? && o.upload.Verified?);
            && (!saved ==> s' == s)
            && (saved ==>
                  var r := RecordOf(s, o);
                  && s'.snapshots == s.snapshots[Cid(r) := r][Alias(o.snapshotId) := r]
                  && s'.pending == (if done && o.marked then s.pending - {o.snapshotId}
                                    else s.pending[o.snapshotId := r])
                  && s'.counter == (if counted then s.counter + 1 else s.counter)
                  && s'.active == (if headed then Some(r) else s.active)
                  && s'.recovery == (if counted then PreparedSets(s.recovery, r, o) else s.recovery)
                  && s'.heads == if headed then s.heads[r := Head(r, r.parents, s'.recovery[r], r.counter)]
                                 else s.heads)
  {
    hide FromPairs, PublishedStore, HeadedStore, PreparedSets, ParentsOf;
    if o.hashes.Ok? {
      var saved := SaveSnapshot(s, RecordOf(s, o));
      HeadedFields(IncrementCounter(saved), RecordOf(s, o), o);
      PublishedFields(c, IncrementCounter(saved), RecordOf(s, o), o);
      assert s.pending[o.snapshotId := RecordOf(s, o)] - {o.snapshotId} == s.pending - {o.snapshotId};
    }
  }

  /** The digests of a capture as a map; a later entry for a path replaces an earlier one. */
  function FromPairs(pairs: seq<(Path, Option<Digest>)>): Baseline {
    if pairs == [] then map[] else FromPairs(pairs[..|pairs| - 1])[pairs[|pairs| - 1].0 := pairs[|pairs| - 1].1]
  }

  /** A path's digest is that of its last entry. */
  lemma {:induction false} FromPairsLast(pairs: seq<(Path, Option<Digest>)>, i: nat)
    requires i < |pairs| && forall j :: i < j < |pairs| ==> pairs[j].0 != pairs[i].0
    ensures pairs[i].0 in FromPairs(pairs) && FromPairs(pairs)[pairs[i].0] == pairs[i].1
  {
    if i < |pairs| - 1 {
      FromPairsLast(pairs[..|pairs| - 1], i);
    }
  }

  /** Only paths with an entry have a digest. */
  lemma {:induction false} FromPairsKeys(pairs: seq<(Path, Option<Digest>)>, path: Path)
    ensures path in FromPairs(pairs) <==> exists i :: 0 <= i < |pairs| && pairs[i].0 == path
  {
    if pairs != [] {
      var t := pairs[..|pairs| - 1];
      FromPairsKeys(t, path);
      assert forall i :: 0 <= i < |t| ==> t[i] == pairs[i];
    }
  }

  /** One listed upload is finished: it was found with a consistent head, uploaded, read back and recorded. */
  predicate Completes(s: Store, item: (nat, Record), o: RetryOutcomes) {
    o.lookup.None? && RetryConsistent(s, item.0, item.1) && o.upload.Verified? && o.record.None?
  }

  /** What ends the round at this item: a cancelled upload, or a failure to record how the item went. */
  function Stop(s: Store, item: (nat, Record), o: RetryOutcomes): Option<Fault> {
    if o.lookup.None? && RetryConsistent(s, item.0, item.1) && o.upload.Cancelled? then Some("cancelled") else o.record
  }

  /** The uploads finished among the first n items. */
  function Done(s: Store, todo: seq<(nat, Record)>, o: seq<RetryOutcomes>, n: nat): set<nat>
    requires n <= |todo| == |o|
  {
    if n == 0 then {}
    else Done(s, todo, o, n - 1) + if Completes(s, todo[n - 1], o[n - 1]) then {todo[n - 1].0} else {}
  }

  /** Who is finished depends on snapshots, heads and recovery sets only, and none of these changes in a round. */
  lemma {:induction false} SameChecks(s: Store, pending: map<nat, Record>, item: (nat, Record), o: RetryOutcomes)
    ensures var s' := s.(pending := pending);
            Completes(s', item, o) == Completes(s, item, o) && Stop(s', item, o) == Stop(s, item, o)
  {
  }

  /** The read succeeded and the baseline holds exactly what was read. */
  predicate Matches(baseline: Baseline, path: Path, read: Result<Option<Digest>, Fault>) {
    read.Ok? && path in baseline && baseline[path] == read.value
  }

  lemma {:induction false} RunStarts(w: World)
    ensures IsRun([w])
  {
  }

  /** The run with one more step. */
  ghost function Extend(run: seq<World>, w: World): (run': seq<World>)
    requires IsRun(run) && Inv(run[|run| - 1]) && Next(run[|run| - 1], w)
    ensures IsRun(run') && Inv(w) && run' == run + [w]
  {
    Advance(run, w);
    run + [w]
  }

  lemma {:induction false} AbortNext(w: World)
    ensures Next(w, w.(phase := Idle))
  {
    assert Abort(w, w.(phase := Idle));
  }

  lemma {:induction false} SaveNext(w: World, record: Record)
    requires w.phase.Idle? && !w.config.dryRun && Alias(record.snapshotId) !in w.store.snapshots
    requires record.parents == ParentsOf(w.store.active) && record.counter == w.store.counter + 1
    ensures var w1 := w.(phase := Created(record));
            var w2 := w1.(store := SaveSnapshot(w.store, record), phase := Saved(record));
            && Next(w, w1) && Next(w1, w2)
            && Next(w2, w2.(store := IncrementCounter(w2.store), phase := Counted(record)))
  {
    var w1 := w.(phase := Created(record));
    var w2 := w1.(store := SaveSnapshot(w.store, record), phase := Saved(record));
    assert Create(w, w1) && Save(w1, w2);
    assert Count(w2, w2.(store := IncrementCounter(w2.store), phase := Counted(record)));
  }

  lemma {:induction false} PrepareNext(w: World, envelope: nat)
    requires w.phase.Counted?
    ensures var r, s := w.phase.record, PrepareRecoverySet(w.store, w.phase.record, envelope);
            Next(w, w.(store := s, phase := Prepared(r, s.recovery[r])))
  {
    var r, s := w.phase.record, PrepareRecoverySet(w.store, w.phase.record, envelope);
    assert Prepare(w, w.(store := s, phase := Prepared(r, s.recovery[r])));
  }

  lemma {:induction false} StoreHeadNext(w: World)
    requires w.phase.Prepared?
    ensures var r := w.phase.record;
            var h := Head(r, r.parents, w.phase.set_, r.counter);
            Next(w, w.(store := SetHead(w.store, h), phase := Headed(r, w.phase.set_, h), chain := w.chain + [h]))
  {
    var r := w.phase.record;
    var h := Head(r, r.parents, w.phase.set_, r.counter);
    assert StoreHead(w, w.(store := SetHead(w.store, h), phase := Headed(r, w.phase.set_, h), chain := w.chain + [h]));
  }

  lemma {:induction false} AcknowledgeNext(w: World)
    requires w.phase.Headed?
    ensures var r := w.phase.record;
            Next(w, w.(baseline := r.files,
                          phase := if w.config.replicate then Uploading(r, w.phase.set_, w.phase.head)
                                   else LocalOnly(r)))
  {
    var r := w.phase.record;
    assert Acknowledge(w, w.(baseline := r.files,
                                phase := if w.config.replicate then Uploading(r, w.phase.set_, w.phase.head)
                                         else LocalOnly(r)));
  }

  lemma {:induction false} FinishNext(w: World)
    requires w.phase.Uploaded? || w.phase.LocalOnly?
    ensures Next(w, Finished(w))
  {
    assert Finish(w, Finished(w));
  }

  lemma {:induction false} RetryStartNext(w: World, todo: seq<(nat, Record)>)
    requires w.phase.Idle? && w.config.replicate && !w.config.dryRun
    requires forall i :: 0 <= i < |todo| ==> todo[i].0 in w.store.pending && w.store.pending[todo[i].0] == todo[i].1
    ensures Next(w, w.(phase := Retrying(todo)))
  {
    assert RetryStart(w, w.(phase := Retrying(todo)));
  }

  lemma {:induction false} RetryPickNext(w: World)
    requires w.phase.Retrying? && w.phase.todo != []
    requires RetryConsistent(w.store, w.phase.todo[0].0, w.phase.todo[0].1)
    ensures var (id, r) := w.phase.todo[0];
            Next(w, w.(phase := RetryUploading(id, r, w.store.recovery[r], w.store.heads[r], w.phase.todo[1..])))
  {
    var (id, r) := w.phase.todo[0];
    assert RetryPick(w, w.(phase := RetryUploading(id, r, w.store.recovery[r], w.store.heads[r], w.phase.todo[1..])));
  }

  lemma {:induction false} RetrySkipNext(w: World, rest: seq<(nat, Record)>)
    requires (w.phase.Retrying? && w.phase.todo != [] && w.phase.todo[1..] == rest)
             || (w.phase.RetryUploading? && w.phase.todo == rest)
    ensures Next(w, w.(phase := Retrying(rest)))
  {
    assert RetrySkip(w, w.(phase := Retrying(rest)));
  }

  lemma {:induction false} RetryVerifiedNext(w: World)
    requires w.phase.RetryUploading?
    ensures Next(w, w.(verified := w.verified + {Proof(w.phase.head, w.phase.set_)},
                          phase := RetryUploaded(w.phase.id, w.phase.record, w.phase.todo)))
  {
    assert RetryVerified(w, w.(verified := w.verified + {Proof(w.phase.head, w.phase.set_)},
                                  phase := RetryUploaded(w.phase.id, w.phase.record, w.phase.todo)));
  }

  lemma {:induction false} RetryMarkNext(w: World)
    requires w.phase.RetryUploaded?
    ensures Next(w, w.(store := MarkUploadCompleted(w.store, w.phase.id), phase := Retrying(w.phase.todo)))
  {
    assert RetryMark(w, w.(store := MarkUploadCompleted(w.store, w.phase.id), phase := Retrying(w.phase.todo)));
  }

  /** Taking one verified upload off the list keeps the account of all that were taken off. */
  lemma {:induction false} StillVerified(s: Store, s': Store, verified: set<Proof>, verified': set<Proof>,
                                         listed: map<nat, Record>, id: nat)
    requires verified <= verified' && id in listed
    requires s' == s || (s' == MarkUploadCompleted(s, id) && IsVerified(s', verified', listed[id]))
    requires forall n :: n in listed && n !in s.pending ==> IsVerified(s, verified, listed[n])
    ensures forall n :: n in listed && n !in s'.pending ==> IsVerified(s', verified', listed[n])
  {
  }

  lemma {:induction false} TakenOff(listed: map<nat, Record>, done: set<nat>, id: nat)
    ensures (listed - done) - {id} == listed - (done + {id}) && done + {} == done
  {
  }

  lemma {:induction false} UploadingBindings(w: World)
    requires Inv(w) && w.phase.Uploading?
    ensures Bindings(w.store, w.phase.record, w.phase.set_, w.phase.head)
  {
  }

  /** After a restart the baseline is the manifest of the last head stored. */
  lemma {:induction false} ReopenedBaseline(w: World)
    requires Inv(w)
    ensures BaselineOf(w.store) == if w.chain == [] then map[] else w.chain[|w.chain| - 1].record.files
  {
    hide LinearChain, ListedInv, CounterInv, BaselineCommitted, PendingInv, LocalInv, PhaseInv;
    if w.chain != [] {
      var h := w.chain[|w.chain| - 1];
      assert h in w.chain && h.record in w.store.heads;
    }
  }

  class VaultWatcher {
    const config: Config
    var store: Store
    var baseline: Baseline
    ghost var chain: seq<Head>
    ghost var verified: set<Proof>
    ghost var localOnly: set<Record>

    ghost function View(phase: Phase): World
      reads this
    {
      World(config, store, baseline, phase, chain, verified, localOnly)
    }

    ghost predicate Valid()
      reads this
    {
      Inv(View(Idle))
    }

    /** Opens the store an earlier process left behind, wherever that process stopped. */
    constructor (config: Config, ghost left: World, store: Store)
      requires Inv(left) && store == left.store
      ensures this.config == config && Valid() && Restart(left, View(Idle))
    {
      this.config := config;
      this.store := store;
      this.baseline := BaselineOf(store);
      this.chain := left.chain;
      this.verified := left.verified;
      this.localOnly := left.localOnly;
      new;
      RestartHolds(left, View(Idle));
    }

    /** Opens the vault: refused when its database is missing or does not open, when the active head cannot be read, or
        when there is one and its manifest cannot be. A refusal leaves the store as it was. */
    static method Open(config: Config, ghost left: World, found: Result<Store, Fault>, head: Option<Fault>,
                       manifest: Option<Fault>)
      returns (r: Result<VaultWatcher, Fault>)
      requires Inv(left) && (found.Ok? ==> found.value == left.store)
      ensures r.Ok? <==> found.Ok? && head.None? && (left.store.active.Some? ==> manifest.None?)
      ensures r.Err? ==>
        r.error == if found.Err? then found.error else if head.Some? then head.value else manifest.value
      ensures r.Ok? ==>
        fresh(r.value) && r.value.config == config && Restart(left, r.value.View(Idle)) && r.value.Valid()
      ensures r.Ok? ==>
        r.value.baseline == if left.chain == [] then map[] else left.chain[|left.chain| - 1].record.files
    {
      if found.Err? {
        return Err(found.error);
      }
      if head.Some? {
        return Err(head.value);
      }
      if found.value.active.Some? && manifest.Some? {
        return Err(manifest.value);
      }
      ReopenedBaseline(left);
      var watcher := new VaultWatcher(config, left, found.value);
      return Ok(watcher);
    }

    /** Compares each tracked file, as read, with the baseline; stops at the first difference or failure. */
    method CheckForChanges(tracked: seq<Path>, reads_: seq<Result<Option<Digest>, Fault>>)
      returns (r: Result<bool, Fault>)
      requires |reads_| == |tracked|
      ensures r == Ok(false) <==> forall i :: 0 <= i < |tracked| ==> Matches(baseline, tracked[i], reads_[i])
      ensures r == Ok(true) <==> exists i :: 0 <= i < |tracked|
                                        && reads_[i].Ok? && !Matches(baseline, tracked[i], reads_[i])
                                        && forall j :: 0 <= j < i ==> Matches(baseline, tracked[j], reads_[j])
      ensures r.Err? ==> exists i :: 0 <= i < |tracked| && reads_[i] == Err(r.error)
                               && forall j :: 0 <= j < i ==> Matches(baseline, tracked[j], reads_[j])
    {
      for i := 0 to |tracked|
        invariant forall j :: 0 <= j < i ==> Matches(baseline, tracked[j], reads_[j])
      {
        match reads_[i] {
          case Err(fault) =>
            return Err(fault);
          case Ok(digest) =>
            if !(tracked[i] in baseline && baseline[tracked[i]] == digest) {
              return Ok(true);
            }
        }
      }
      return Ok(false);
    }

    method AcknowledgeCapture(hashes: seq<(Path, Option<Digest>)>)
      modifies this`baseline
      ensures baseline == FromPairs(hashes)
    {
      var fresh_: Baseline := map[];
      for i := 0 to |hashes|
        invariant fresh_ == FromPairs(hashes[..i])
      {
        assert hashes[..i + 1][..i] == hashes[..i];
        fresh_ := fresh_[hashes[i].0 := hashes[i].1];
      }
      assert hashes[..|hashes|] == hashes;
      baseline := fresh_;
    }

    /** One capture: each durable effect in order, stopping at the first failure. It succeeds exactly when no call
        fails, and otherwise returns the failure of the first that does. */
    method CaptureAndSync(o: CaptureOutcomes) returns (r: Result<Record, Fault>, ghost run: seq<World>)
      requires Valid() && !config.dryRun && Alias(o.snapshotId) !in store.snapshots
      modifies this
      ensures Valid()
      ensures IsRun(run) && run[0] == old(View(Idle)) && run[|run| - 1] == View(Idle)
      ensures r.Ok? <==> && o.inputs.None? && o.hashes.Ok? && o.save.None? && o.count.None? && o.envelope.Ok?
                         && o.sign.None? && o.setHead.None? && o.acknowledge.None?
                         && (config.replicate ==> o.objects.None? && o.upload.Verified?)
      ensures r.Err? ==>
        r.error == if o.inputs.Some? then o.inputs.value
        else if o.hashes.Err? then o.hashes.error
        else if o.save.Some? then o.save.value
        else if o.count.Some? then o.count.value
        else if o.envelope.Err? then o.envelope.error
        else if o.sign.Some? then o.sign.value
        else if o.setHead.Some? then o.setHead.value
        else if o.acknowledge.Some? then o.acknowledge.value
        else if o.objects.Some? then o.objects.value
        else if o.upload.Refused? then o.upload.fault
        else "cancelled"
      ensures store == CapturedStore(config, old(store), o)
      ensures r.Ok? ==> (o.snapshotId in store.pending <==> !o.marked)
      ensures r.Ok? ==>
        && r.value.snapshotId == o.snapshotId && r.value.parents == ParentsOf(old(store.active))
        && r.value.counter == old(store.counter) + 1 == store.counter
        && store.active == Some(r.value) && r.value in store.heads && chain == old(chain) + [store.heads[r.value]]
        && r.value.files == FromPairs(o.hashes.value) == baseline
        && (config.replicate ==> IsVerified(store, verified, r.value))
      ensures baseline == if AcknowledgesCapture(o) then FromPairs(o.hashes.value) else old(baseline)
    {
      hide Inv, IsRun, Next, FromPairs, PublishFault, PublishedStore;
      CaptureBranches(config, old(store), o);
      run := [View(Idle)];
      RunStarts(View(Idle));
      if o.inputs.Some? {
        r := Err(o.inputs.value);
        return;
      }
      var counter := store.counter;
      var parents := ParentsOf(store.active);
      if o.hashes.Err? {
        r := Err(o.hashes.error);
        return;
      }
      var record := Record(o.snapshotId, parents, counter + 1, FromPairs(o.hashes.value));
      SaveNext(View(Idle), record);
      run := Extend(run, View(Created(record)));
      AbortNext(View(Created(record)));
      if o.save.Some? {
        run := Extend(run, View(Idle));
        r := Err(o.save.value);
        return;
      }
      store := SaveSnapshot(store, record);
      run := Extend(run, View(Saved(record)));
      AbortNext(View(Saved(record)));
      if o.count.Some? {
        run := Extend(run, View(Idle));
        r := Err(o.count.value);
        return;
      }
      store := IncrementCounter(store);
      run := Extend(run, View(Counted(record)));
      r, run := PublishHead(o, record, run);
    }

    /** The second half of a capture: recovery set, signed head, baseline, upload. */
    method PublishHead(o: CaptureOutcomes, record: Record, ghost run0: seq<World>)
      returns (r: Result<Record, Fault>, ghost run: seq<World>)
      requires IsRun(run0) && run0[|run0| - 1] == View(Counted(record)) && Inv(View(Counted(record)))
      requires o.hashes.Ok? && record.files == FromPairs(o.hashes.value)
      modifies this
      ensures Valid()
      ensures IsRun(run) && run0 <= run && run[|run| - 1] == View(Idle)
      ensures var fault := PublishFault(config, o); r == if fault.Some? then Err(fault.value) else Ok(record)
      ensures store == PublishedStore(config, old(store), record, o)
      ensures r.Ok? ==>
        && store.active == Some(record) && record in store.heads && chain == old(chain) + [store.heads[record]]
        && (config.replicate ==> IsVerified(store, verified, record))
      ensures baseline == if o.envelope.Ok? && o.sign.None? && o.setHead.None? && o.acknowledge.None?
                          then record.files else old(baseline)
    {
      hide Inv, IsRun, Next, FromPairs, UploadFault;
      run := run0;
      AbortNext(View(Counted(record)));
      if o.envelope.Err? {
        run := Extend(run, View(Idle));
        r := Err(o.envelope.error);
        return;
      }
      PrepareNext(View(Counted(record)), o.envelope.value);
      store := PrepareRecoverySet(store, record, o.envelope.value);
      var recovery := store.recovery[record];
      run := Extend(run, View(Prepared(record, recovery)));
      AbortNext(View(Prepared(record, recovery)));
      if o.sign.Some? || o.setHead.Some? {
        run := Extend(run, View(Idle));
        r := Err(if o.sign.Some? then o.sign.value else o.setHead.value);
        return;
      }
      StoreHeadNext(View(Prepared(record, recovery)));
      var head := Head(record, record.parents, recovery, record.counter);
      store := SetHead(store, head);
      chain := chain + [head];
      run := Extend(run, View(Headed(record, recovery, head)));
      r, run := AcknowledgeAndUpload(o, record, recovery, head, run);
    }

    method AcknowledgeAndUpload(o: CaptureOutcomes, record: Record, recovery: RecoverySet, head: Head,
                                ghost run0: seq<World>)
      returns (r: Result<Record, Fault>, ghost run: seq<World>)
      requires IsRun(run0) && run0[|run0| - 1] == View(Headed(record, recovery, head))
      requires Inv(View(Headed(record, recovery, head)))
      requires o.hashes.Ok? && record.files == FromPairs(o.hashes.value)
      modifies this`store, this`baseline, this`verified, this`localOnly
      ensures Valid()
      ensures IsRun(run) && run0 <= run && run[|run| - 1] == View(Idle)
      ensures var fault := if o.acknowledge.Some? then o.acknowledge else UploadFault(config, o);
              && r == (if fault.Some? then Err(fault.value) else Ok(record))
              && store == if fault.None? && o.marked then MarkUploadCompleted(old(store), record.snapshotId)
                          else old(store)
      ensures r.Ok? && config.replicate ==> IsVerified(store, verified, record)
      ensures baseline == if o.acknowledge.None? then record.files else old(baseline)
    {
      hide Inv, IsRun, Next, FromPairs;
      run := run0;
      AbortNext(View(Headed(record, recovery, head)));
      if o.acknowledge.Some? {
        run := Extend(run, View(Idle));
        r := Err(o.acknowledge.value);
        return;
      }
      AcknowledgeNext(View(Headed(record, recovery, head)));
      AcknowledgeCapture(o.hashes.value);
      if config.replicate {
        run := Extend(run, View(Uploading(record, recovery, head)));
        r, run := Upload(o, record, recovery, head, run);
        return;
      }
      run := Extend(run, View(LocalOnly(record)));
      AbortNext(View(LocalOnly(record)));
      FinishNext(View(LocalOnly(record)));
      if o.marked {
        store := MarkUploadCompleted(store, record.snapshotId);
        localOnly := localOnly + {record};
      }
      run := Extend(run, View(Idle));
      r := Ok(record);
    }

    /** Replication of a capture just acknowledged. */
    method Upload(o: CaptureOutcomes, record: Record, recovery: RecoverySet, head: Head, ghost run0: seq<World>)
      returns (r: Result<Record, Fault>, ghost run: seq<World>)
      requires config.replicate && IsRun(run0)
      requires run0[|run0| - 1] == View(Uploading(record, recovery, head)) && Inv(run0[|run0| - 1])
      modifies this`store, this`verified
      ensures Valid()
      ensures IsRun(run) && run0 <= run && run[|run| - 1] == View(Idle)
      ensures o.objects.Some? ==> r == Err(o.objects.value)
      ensures o.objects.None? && o.upload.Refused? ==> r == Err(o.upload.fault)
      ensures o.objects.None? && o.upload.Cancelled? ==> r == Err("cancelled")
      ensures o.objects.None? && o.upload.Verified? ==> r == Ok(record) && IsVerified(store, verified, record)
      ensures store == if r.Ok? && o.marked then MarkUploadCompleted(old(store), record.snapshotId) else old(store)
      ensures verified == if r.Ok? then old(verified) + {Proof(head, recovery)} else old(verified)
    {
      hide Inv, IsRun;
      run := run0;
      UploadingBindings(View(Uploading(record, recovery, head)));
      if o.objects.Some? {
        run := Extend(run, View(Idle));
        r := Err(o.objects.value);
        return;
      }
      match o.upload {
        case Verified =>
          verified := verified + {Proof(head, recovery)};
          run := Extend(run, View(Uploaded(record)));
          if o.marked {
            store := MarkUploadCompleted(store, record.snapshotId);
          }
          run := Extend(run, View(Idle));
          r := Ok(record);
        case Refused(fault) =>
          run := Extend(run, View(Idle));
          r := Err(fault);
        case Cancelled =>
          run := Extend(run, View(Idle));
          r := Err("cancelled");
      }
    }

    /** One retry round over the uploads listed when it begins: the items that finish are taken off the list and no
        others. The round goes on to the first item that stops it. */
    method RetryPendingUploads(listing: Result<seq<(nat, Record)>, Fault>, inputs: Option<Fault>, o: seq<RetryOutcomes>)
      returns (r: Result<(), Fault>, ghost n: nat, ghost run: seq<World>)
      requires Valid() && !config.dryRun
      requires listing.Ok? ==> |o| == |listing.value|
      requires listing.Ok? ==> forall i :: 0 <= i < |listing.value| ==>
        listing.value[i].0 in store.pending && store.pending[listing.value[i].0] == listing.value[i].1
      modifies this`store, this`verified
      ensures Valid()
      ensures IsRun(run) && run[0] == old(View(Idle)) && run[|run| - 1] == View(Idle)
      ensures !config.replicate ==> r == Ok(())
      ensures config.replicate && listing.Err? ==> r == Err(listing.error)
      ensures var todo := if config.replicate && listing.Ok? then listing.value else [];
              && n <= |todo| && (todo == [] ==> store == old(store))
              && (todo != [] ==>
                    && store == old(store).(pending := old(store.pending) - Done(old(store), todo, o, n))
                    && (forall i :: 0 <= i < n ==> Stop(old(store), todo[i], o[i]) == None)
                    && (r.Ok? <==> inputs.None? && n == |todo|)
                    && (inputs.Some? ==> n == 0 && r == Err(inputs.value))
                    && (inputs.None? && n < |todo| ==> Stop(old(store), todo[n], o[n]) == Some(r.error)))
      ensures forall id :: id in old(store.pending) && id !in store.pending ==>
        IsVerified(store, verified, old(store.pending)[id])
    {
      hide Inv, IsRun, Next, RetryConsistent, Completes, Stop, IsVerified;
      run := [View(Idle)];
      RunStarts(View(Idle));
      n := 0;
      if !config.replicate {
        return Ok(()), n, run;
      }
      if listing.Err? {
        return Err(listing.error), n, run;
      }
      var todo := listing.value;
      if todo == [] {
        return Ok(()), n, run;
      }
      assert old(store.pending) - {} == old(store.pending);
      if inputs.Some? {
        return Err(inputs.value), n, run;
      }
      RetryStartNext(View(Idle), todo);
      run := Extend(run, View(Retrying(todo)));
      assert todo[0..] == todo;
      for i := 0 to |todo|
        invariant IsRun(run) && |run| > 0
        invariant run[0] == old(View(Idle)) && run[|run| - 1] == View(Retrying(todo[i..]))
        invariant Inv(View(Retrying(todo[i..])))
        invariant n == i && store == old(store).(pending := old(store.pending) - Done(old(store), todo, o, i))
        invariant forall j :: 0 <= j < i ==> Stop(old(store), todo[j], o[j]) == None
        invariant forall id :: id in old(store.pending) && id !in store.pending ==>
          IsVerified(store, verified, old(store.pending)[id])
      {
        assert todo[i..] == [(todo[i].0, todo[i].1)] + todo[i + 1..];
        ghost var done := View(Retrying(todo[i..]));
        var stop;
        SameChecks(old(store), store.pending, todo[i], o[i]);
        stop, run := RetryItem(todo[i].0, todo[i].1, todo[i + 1..], o[i], run);
        StillVerified(done.store, store, done.verified, verified, old(store.pending), todo[i].0);
        if stop.Some? {
          return Err(stop.value), n, run;
        }
        TakenOff(old(store.pending), Done(old(store), todo, o, i), todo[i].0);
        n := n + 1;
      }
      AbortNext(View(Retrying(todo[|todo|..])));
      run := Extend(run, View(Idle));
      return Ok(()), n, run;
    }

    /** One listed upload; the round goes on unless a store call fails or the upload is cancelled. */
    method RetryItem(id: nat, record: Record, rest: seq<(nat, Record)>, o: RetryOutcomes, ghost run0: seq<World>)
      returns (stop: Option<Fault>, ghost run: seq<World>)
      requires IsRun(run0) && run0[|run0| - 1] == View(Retrying([(id, record)] + rest))
      requires Inv(View(Retrying([(id, record)] + rest)))
      modifies this`store, this`verified
      ensures IsRun(run) && run0 <= run && run[|run| - 1] == View(if stop.Some? then Idle else Retrying(rest))
      ensures Inv(run[|run| - 1])
      ensures stop == Stop(old(store), (id, record), o)
      ensures store == if Completes(old(store), (id, record), o) then MarkUploadCompleted(old(store), id)
                       else old(store)
      ensures Completes(old(store), (id, record), o) ==> IsVerified(store, verified, record)
      ensures o.lookup.Some? || !RetryConsistent(old(store), id, record) ==>
        stop == o.record && store == old(store) && verified == old(verified)
      ensures o.lookup.None? && RetryConsistent(old(store), id, record) ==>
        && stop == (if o.upload.Cancelled? then Some("cancelled") else o.record)
        && (id in store.pending <==> id in old(store.pending) && !(o.upload.Verified? && o.record.None?))
        && verified == if o.upload.Verified?
                       then old(verified) + {Proof(store.heads[record], store.recovery[record])} else old(verified)
      ensures verified != old(verified) ==>
        && record in store.heads && store.heads[record].record == record
        && store.heads[record].parents == record.parents && store.heads[record].closure == store.recovery[record]
      ensures old(verified) <= verified
    {
      hide Inv, IsRun, Next;
      run := run0;
      ghost var todo := [(id, record)] + rest;
      assert todo[0] == (id, record) && todo[1..] == rest;
      if o.lookup.Some? || !RetryConsistent(store, id, record) {
        RetrySkipNext(View(Retrying(todo)), rest);
        run := Extend(run, View(Retrying(rest)));
        stop, run := RecordFailure(o.record, rest, run);
        return;
      }
      var recovery, head := store.recovery[record], store.heads[record];
      RetryPickNext(View(Retrying(todo)));
      run := Extend(run, View(RetryUploading(id, record, recovery, head, rest)));
      match o.upload {
        case Verified =>
          RetryVerifiedNext(View(RetryUploading(id, record, recovery, head, rest)));
          verified := verified + {Proof(head, recovery)};
          run := Extend(run, View(RetryUploaded(id, record, rest)));
          if o.record.Some? {
            AbortNext(View(RetryUploaded(id, record, rest)));
            run := Extend(run, View(Idle));
            return o.record, run;
          }
          RetryMarkNext(View(RetryUploaded(id, record, rest)));
          store := MarkUploadCompleted(store, id);
          run := Extend(run, View(Retrying(rest)));
          stop := None;
        case Refused(_) =>
          RetrySkipNext(View(RetryUploading(id, record, recovery, head, rest)), rest);
          run := Extend(run, View(Retrying(rest)));
          stop, run := RecordFailure(o.record, rest, run);
        case Cancelled =>
          AbortNext(View(RetryUploading(id, record, recovery, head, rest)));
          run := Extend(run, View(Idle));
          stop := Some("cancelled");
      }
    }

    /** record_upload_failure keeps the upload listed; if it fails itself the round ends. */
    method RecordFailure(outcome: Option<Fault>, rest: seq<(nat, Record)>, ghost run0: seq<World>)
      returns (stop: Option<Fault>, ghost run: seq<World>)
      requires IsRun(run0) && run0[|run0| - 1] == View(Retrying(rest)) && Inv(View(Retrying(rest)))
      ensures stop == outcome && IsRun(run) && run0 <= run
      ensures run[|run| - 1] == View(if stop.Some? then Idle else Retrying(rest)) && Inv(run[|run| - 1])
    {
      hide Inv, IsRun, Next;
      run := run0;
      stop := outcome;
      if stop.Some? {
        AbortNext(View(Retrying(rest)));
        run := Extend(run, View(Idle));
      }
    }
  }

  /** Outside dry-run, a check that finds no change has compared every tracked file with one committed snapshot. */
  lemma {:induction false} UnchangedMeansCommitted(w: World, tracked: seq<Path>,
                                                   reads_: seq<Result<Option<Digest>, Fault>>)
    returns (h: Head)
    requires Inv(w) && !w.config.dryRun && |reads_| == |tracked| > 0
    requires forall i :: 0 <= i < |tracked| ==> Matches(w.baseline, tracked[i], reads_[i])
    ensures h in w.chain
    ensures forall i :: 0 <= i < |tracked| ==>
      reads_[i].Ok? && tracked[i] in h.record.files && h.record.files[tracked[i]] == reads_[i].value
  {
    assert tracked[0] in w.baseline;
    h :| h in w.chain && w.baseline == h.record.files;
  }
}
