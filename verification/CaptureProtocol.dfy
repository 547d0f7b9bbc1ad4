/** What the watcher's worker does to the vault store, one durable step at a time.
    Every fallible call may fail where it stands, the upload may be cancelled while
    it is awaited, and the process may be restarted between any two steps.

    Content addresses are ideal: the address of a record is the record itself, so
    equal addresses mean equal records. A signed head and a recovery set are likewise
    identified with what they bind. */
module CaptureProtocol {
  import opened Common

  type Path = string
  type Digest = seq<nat>

  /** Digest of each file; None for a file that is absent. */
  type Baseline = map<Path, Option<Digest>>

  /** Snapshots are stored under their content address and, as an alias, under their random id. */
  datatype Id = Alias(n: nat) | Cid(record: Record)

  datatype Record = Record(snapshotId: nat, parents: seq<Id>, counter: nat, files: Baseline)

  /** The closure of objects needed to recover a snapshot; its sealed envelope is randomised. */
  datatype RecoverySet = RecoverySet(record: Record, envelope: nat)

  datatype Head = Head(record: Record, parents: seq<Id>, closure: RecoverySet, counter: nat)

  datatype Store = Store(
    snapshots: map<Id, Record>,
    pending: map<nat, Record>,
    recovery: map<Record, RecoverySet>,
    heads: map<Record, Head>,
    active: Option<Record>,
    counter: nat)

  datatype Config = Config(replicate: bool, dryRun: bool)

  /** An upload that the operators acknowledged and that read back correctly. */
  datatype Proof = Proof(head: Head, recovery: RecoverySet)

  /** Where the worker is inside capture or retry; Idle between operations. */
  datatype Phase =
    | Idle
    | Created(record: Record)
    | Saved(record: Record)
    | Counted(record: Record)
    | Prepared(record: Record, set_: RecoverySet)
    | Headed(record: Record, set_: RecoverySet, head: Head)
    | Uploading(record: Record, set_: RecoverySet, head: Head)
    | Uploaded(record: Record)
    | LocalOnly(record: Record)
    | Retrying(todo: seq<(nat, Record)>)
    | RetryUploading(id: nat, record: Record, set_: RecoverySet, head: Head, todo: seq<(nat, Record)>)
    | RetryUploaded(id: nat, record: Record, todo: seq<(nat, Record)>)

  /** The running process's settings, the store, the watcher's in-memory baseline, and three logs: heads stored, uploads
      verified, and snapshots taken off the upload list by a capture that does not replicate. */
  datatype World = World(
    config: Config,
    store: Store,
    baseline: Baseline,
    phase: Phase,
    chain: seq<Head>,
    verified: set<Proof>,
    localOnly: set<Record>)

  // ----- store operations

  function ParentsOf(active: Option<Record>): seq<Id> {
    if active.Some? then [Cid(active.value)] else []
  }

  function SaveSnapshot(s: Store, r: Record): Store {
    s.(snapshots := s.snapshots[Cid(r) := r][Alias(r.snapshotId) := r], pending := s.pending[r.snapshotId := r])
  }

  function IncrementCounter(s: Store): Store {
    s.(counter := s.counter + 1)
  }

  /** An existing recovery set is kept. */
  function PrepareRecoverySet(s: Store, r: Record, envelope: nat): Store {
    if r in s.recovery then s else s.(recovery := s.recovery[r := RecoverySet(r, envelope)])
  }

  function SetHead(s: Store, h: Head): Store {
    s.(heads := s.heads[h.record := h], active := Some(h.record))
  }

  function MarkUploadCompleted(s: Store, id: nat): Store {
    s.(pending := s.pending - {id})
  }

  /** The checks a retry makes before uploading: the record is the listed one and its retained head binds
      this record, these parents and this recovery set. */
  predicate RetryConsistent(s: Store, id: nat, r: Record) {
    && Alias(id) in s.snapshots && s.snapshots[Alias(id)] == r
    && r in s.recovery && r in s.heads
    && s.heads[r].record == r && s.heads[r].parents == r.parents && s.heads[r].closure == s.recovery[r]
  }

  function BaselineOf(s: Store): Baseline {
    if s.active.Some? && Cid(s.active.value) in s.snapshots then s.snapshots[Cid(s.active.value)].files else map[]
  }

  // ----- steps

  /** create_snapshot: a fresh random id, the active head as parent, the next counter, any file contents. */
  ghost predicate Create(w: World, w': World) {
    && w.phase.Idle? && !w.config.dryRun
    && w'.phase.Created?
    && w' == w.(phase := w'.phase)
    && var r := w'.phase.record;
       && Alias(r.snapshotId) !in w.store.snapshots
       && r.parents == ParentsOf(w.store.active)
       && r.counter == w.store.counter + 1
  }

  ghost predicate Save(w: World, w': World) {
    w.phase.Created? && w' == w.(store := SaveSnapshot(w.store, w.phase.record), phase := Saved(w.phase.record))
  }

  ghost predicate Count(w: World, w': World) {
    w.phase.Saved? && w' == w.(store := IncrementCounter(w.store), phase := Counted(w.phase.record))
  }

  ghost predicate Prepare(w: World, w': World) {
    && w.phase.Counted?
    && exists envelope ::
         var r, s := w.phase.record, PrepareRecoverySet(w.store, w.phase.record, envelope);
         w' == w.(store := s, phase := Prepared(r, s.recovery[r]))
  }

  ghost predicate StoreHead(w: World, w': World) {
    && w.phase.Prepared?
    && var r := w.phase.record;
       var h := Head(r, r.parents, w.phase.set_, r.counter);
       w' == w.(store := SetHead(w.store, h), phase := Headed(r, w.phase.set_, h), chain := w.chain + [h])
  }

  ghost predicate Acknowledge(w: World, w': World) {
    && w.phase.Headed?
    && var r := w.phase.record;
       w' == w.(baseline := r.files,
                phase := if w.config.replicate then Uploading(r, w.phase.set_, w.phase.head) else LocalOnly(r))
  }

  ghost predicate UploadVerified(w: World, w': World) {
    && w.phase.Uploading?
    && w' == w.(verified := w.verified + {Proof(w.phase.head, w.phase.set_)}, phase := Uploaded(w.phase.record))
  }

  /** mark_upload_completed after a capture; its failure is ignored. */
  ghost predicate Finish(w: World, w': World) {
    && (w.phase.Uploaded? || w.phase.LocalOnly?)
    && (w' == w.(phase := Idle) || w' == Finished(w))
  }

  function Finished(w: World): World
    requires w.phase.Uploaded? || w.phase.LocalOnly?
  {
    w.(store := MarkUploadCompleted(w.store, w.phase.record.snapshotId), phase := Idle,
       localOnly := if w.phase.LocalOnly? then w.localOnly + {w.phase.record} else w.localOnly)
  }

  /** Any fallible call fails, the upload is refused, or the operation is cancelled. */
  ghost predicate Abort(w: World, w': World) {
    w' == w.(phase := Idle)
  }

  ghost predicate RetryStart(w: World, w': World) {
    && w.phase.Idle? && w.config.replicate && !w.config.dryRun
    && w'.phase.Retrying? && w' == w.(phase := w'.phase)
    && forall i :: 0 <= i < |w'.phase.todo| ==>
         var (id, r) := w'.phase.todo[i]; id in w.store.pending && w.store.pending[id] == r
  }

  ghost predicate RetryPick(w: World, w': World) {
    && w.phase.Retrying? && w.phase.todo != []
    && var (id, r) := w.phase.todo[0];
       && RetryConsistent(w.store, id, r)
       && w' == w.(phase := RetryUploading(id, r, w.store.recovery[r], w.store.heads[r], w.phase.todo[1..]))
  }

  /** An item whose checks or upload fail is left for the next round. */
  ghost predicate RetrySkip(w: World, w': World) {
    || (w.phase.Retrying? && w.phase.todo != [] && w' == w.(phase := Retrying(w.phase.todo[1..])))
    || (w.phase.RetryUploading? && w' == w.(phase := Retrying(w.phase.todo)))
  }

  ghost predicate RetryVerified(w: World, w': World) {
    && w.phase.RetryUploading?
    && w' == w.(verified := w.verified + {Proof(w.phase.head, w.phase.set_)},
                phase := RetryUploaded(w.phase.id, w.phase.record, w.phase.todo))
  }

  ghost predicate RetryMark(w: World, w': World) {
    && w.phase.RetryUploaded?
    && w' == w.(store := MarkUploadCompleted(w.store, w.phase.id), phase := Retrying(w.phase.todo))
  }

  /** Dry-run inspection: the baseline moves, the store does not. */
  ghost predicate Inspect(w: World, w': World) {
    w.phase.Idle? && w.config.dryRun && w' == w.(baseline := w'.baseline)
  }

  /** The process is started again, with any settings: memory is lost, the baseline comes from the active head's
      manifest. */
  ghost predicate Restart(w: World, w': World) {
    w' == w.(config := w'.config, phase := Idle, baseline := BaselineOf(w.store))
  }

  ghost predicate Next(w: World, w': World) {
    || Create(w, w') || Save(w, w') || Count(w, w') || Prepare(w, w') || StoreHead(w, w')
    || Acknowledge(w, w') || UploadVerified(w, w') || Finish(w, w') || Abort(w, w')
    || RetryStart(w, w') || RetryPick(w, w') || RetrySkip(w, w') || RetryVerified(w, w')
    || RetryMark(w, w') || Inspect(w, w') || Restart(w, w')
  }

  /** A vault just initialised, with any counter and any settings. */
  ghost predicate Init(w: World) {
    && w.store.snapshots == map[] && w.store.pending == map[] && w.store.recovery == map[] && w.store.heads == map[]
    && w.store.active == None && w.baseline == map[] && w.phase.Idle? && w.chain == []
    && w.verified == {} && w.localOnly == {}
  }

  ghost predicate IsRun(run: seq<World>) {
    && |run| > 0
    && forall k :: 0 <= k < |run| - 1 ==> Next(run[k], run[k + 1])
  }

  // ----- what every step keeps

  /** The parent of the k-th head is the head before it; the first has none. */
  predicate Linked(chain: seq<Head>, k: nat)
    requires k < |chain|
  {
    chain[k].parents == (if k == 0 then [] else [Cid(chain[k - 1].record)]) && Bound(chain[k])
  }

  /** Each head's parent is the head before it, and counters strictly increase. */
  ghost predicate LinearChain(chain: seq<Head>) {
    && (forall k :: 0 <= k < |chain| ==> Linked(chain, k))
    && (forall j, k :: 0 <= j < k < |chain| ==> chain[j].counter < chain[k].counter)
  }

  /** A head binds its own record: the record's parents and counter and a recovery set of that record. */
  predicate Bound(h: Head) {
    h.parents == h.record.parents && h.counter == h.record.counter && h.closure.record == h.record
  }

  /** The active head is the last of the chain, and the stored heads are exactly those of the chain. */
  ghost predicate HeadsInv(heads: map<Record, Head>, active: Option<Record>, chain: seq<Head>) {
    && active == (if chain == [] then None else Some(chain[|chain| - 1].record))
    && (forall h :: h in chain ==> h.record in heads && heads[h.record] == h)
    && (forall r :: r in heads ==> heads[r] in chain && heads[r].record == r)
  }

  predicate CounterInv(chain: seq<Head>, counter: nat) {
    chain != [] ==> chain[|chain| - 1].counter <= counter
  }

  /** Both names of a snapshot lead to the same record. */
  ghost predicate SnapshotsInv(snapshots: map<Id, Record>) {
    && (forall r :: Cid(r) in snapshots ==> snapshots[Cid(r)] == r && StoredAs(snapshots, r.snapshotId, r))
    && (forall n :: Alias(n) in snapshots ==>
          snapshots[Alias(n)].snapshotId == n && Stored(snapshots, snapshots[Alias(n)]))
  }

  /** Only saved snapshots are listed for upload. */
  ghost predicate ListedInv(snapshots: map<Id, Record>, pending: map<nat, Record>) {
    forall id :: id in pending ==> StoredAs(snapshots, id, pending[id])
  }

  /** Every stored head binds the recovery set kept for its record. */
  ghost predicate RecoveryInv(snapshots: map<Id, Record>, recovery: map<Record, RecoverySet>,
                              heads: map<Record, Head>) {
    && (forall r :: r in recovery ==> recovery[r].record == r)
    && (forall r :: r in heads ==> Stored(snapshots, r) && r in recovery && heads[r].closure == recovery[r])
  }

  predicate Stored(snapshots: map<Id, Record>, r: Record) {
    Cid(r) in snapshots
  }

  predicate StoredAs(snapshots: map<Id, Record>, id: nat, r: Record) {
    Alias(id) in snapshots && snapshots[Alias(id)] == r
  }

  /** A record being captured: the next link of the chain, saved or not, with its head not stored yet. */
  predicate NextLink(s: Store, chain: seq<Head>, r: Record) {
    && r.parents == ParentsOf(s.active) && r !in s.heads
    && (chain != [] ==> chain[|chain| - 1].counter < r.counter)
  }

  predicate Bindings(s: Store, r: Record, x: RecoverySet, h: Head) {
    r in s.recovery && s.recovery[r] == x && r in s.heads && s.heads[r] == h
  }

  /** What the worker's local variables promise at each point. */
  predicate PhaseInv(w: World) {
    var s := w.store;
    match w.phase
    case Idle => true
    case Created(r) => Alias(r.snapshotId) !in s.snapshots && NextLink(s, w.chain, r) && r.counter == s.counter + 1
    case Saved(r) => Stored(s.snapshots, r) && NextLink(s, w.chain, r) && r.counter == s.counter + 1
    case Counted(r) => Stored(s.snapshots, r) && NextLink(s, w.chain, r) && r.counter == s.counter
    case Prepared(r, x) =>
      && Stored(s.snapshots, r) && NextLink(s, w.chain, r) && r.counter == s.counter
      && r in s.recovery && s.recovery[r] == x
    case Headed(r, x, h) => Stored(s.snapshots, r) && Bindings(s, r, x, h) && Unsettled(w.verified, w.localOnly, r)
    case Uploading(r, x, h) => Stored(s.snapshots, r) && Bindings(s, r, x, h) && r !in w.localOnly
    case Uploaded(r) => Stored(s.snapshots, r) && IsVerified(s, w.verified, r)
    case LocalOnly(r) =>
      !w.config.replicate && Stored(s.snapshots, r) && r in s.heads && Unsettled(w.verified, w.localOnly, r)
    case Retrying(todo) => NoneLocal(w.localOnly, todo)
    case RetryUploading(id, r, x, h, todo) =>
      StoredAs(s.snapshots, id, r) && Bindings(s, r, x, h) && r !in w.localOnly && NoneLocal(w.localOnly, todo)
    case RetryUploaded(id, r, todo) =>
      StoredAs(s.snapshots, id, r) && IsVerified(s, w.verified, r) && NoneLocal(w.localOnly, todo)
  }

  /** A record that is neither verified nor settled without replication. */
  predicate Unsettled(verified: set<Proof>, localOnly: set<Record>, r: Record) {
    r !in localOnly && forall p :: p in verified ==> p.head.record != r
  }

  predicate NoneLocal(localOnly: set<Record>, todo: seq<(nat, Record)>) {
    forall i :: 0 <= i < |todo| ==> todo[i].1 !in localOnly
  }

  /** The snapshot's own recovery set and its own signed head were uploaded and read back. */
  predicate IsVerified(s: Store, verified: set<Proof>, r: Record) {
    r in s.heads && r in s.recovery && Proof(s.heads[r], s.recovery[r]) in verified
  }

  predicate IsPending(pending: map<nat, Record>, r: Record) {
    r.snapshotId in pending && pending[r.snapshotId] == r
  }

  /** A saved snapshot is still listed for upload, or verified, or was settled without replication. */
  ghost predicate PendingInv(s: Store, verified: set<Proof>, localOnly: set<Record>) {
    forall r :: Cid(r) in s.snapshots ==> IsPending(s.pending, r) || IsVerified(s, verified, r) || r in localOnly
  }

  /** Snapshots settled without replication have heads, are not listed and were never verified. */
  ghost predicate LocalInv(s: Store, verified: set<Proof>, localOnly: set<Record>) {
    && (forall p :: p in verified ==> p.head.record in s.heads && p.head.record !in localOnly)
    && (forall r :: r in localOnly ==> r in s.heads)
    && (forall id :: id in s.pending ==> s.pending[id] !in localOnly)
  }

  /** The baseline is empty or is exactly the manifest of a snapshot whose head was stored. */
  ghost predicate BaselineCommitted(baseline: Baseline, chain: seq<Head>) {
    baseline == map[] || exists h :: h in chain && baseline == h.record.files
  }

  ghost predicate Inv(w: World) {
    && SnapshotsInv(w.store.snapshots) && ListedInv(w.store.snapshots, w.store.pending)
    && RecoveryInv(w.store.snapshots, w.store.recovery, w.store.heads)
    && HeadsInv(w.store.heads, w.store.active, w.chain) && CounterInv(w.chain, w.store.counter)
    && LinearChain(w.chain) && PhaseInv(w)
    && (!w.config.dryRun ==> BaselineCommitted(w.baseline, w.chain))
    && PendingInv(w.store, w.verified, w.localOnly) && LocalInv(w.store, w.verified, w.localOnly)
  }

  lemma {:induction false} InitHolds(w: World)
    requires Init(w)
    ensures Inv(w)
  {
  }

  lemma {:induction false} SaveSnapshotsHold(s: Store, r: Record)
    requires SnapshotsInv(s.snapshots) && ListedInv(s.snapshots, s.pending) && Alias(r.snapshotId) !in s.snapshots
    ensures var s' := SaveSnapshot(s, r);
            SnapshotsInv(s'.snapshots) && ListedInv(s'.snapshots, s'.pending) && !Stored(s.snapshots, r)
  {
    var s' := SaveSnapshot(s, r);
    assert !Stored(s.snapshots, r);
    forall q | Cid(q) in s'.snapshots
      ensures s'.snapshots[Cid(q)] == q && StoredAs(s'.snapshots, q.snapshotId, q)
    {
      if q != r {
        assert Cid(q) in s.snapshots && q.snapshotId != r.snapshotId;
      }
    }
  }

  lemma {:induction false} SavePendingHolds(s: Store, verified: set<Proof>, localOnly: set<Record>, r: Record)
    requires SnapshotsInv(s.snapshots) && Alias(r.snapshotId) !in s.snapshots && r !in s.heads
    requires PendingInv(s, verified, localOnly) && LocalInv(s, verified, localOnly)
    ensures PendingInv(SaveSnapshot(s, r), verified, localOnly) && LocalInv(SaveSnapshot(s, r), verified, localOnly)
  {
    var s' := SaveSnapshot(s, r);
    forall q | Cid(q) in s'.snapshots
      ensures IsPending(s'.pending, q) || IsVerified(s', verified, q) || q in localOnly
    {
      if q != r {
        assert Cid(q) in s.snapshots && q.snapshotId != r.snapshotId;
      }
    }
  }

  lemma {:induction false} SaveHolds(w: World, w': World)
    requires Inv(w) && Save(w, w')
    ensures Inv(w')
  {
    hide LinearChain, SnapshotsInv, ListedInv, HeadsInv, PendingInv, LocalInv, BaselineCommitted, CounterInv;
    SaveSnapshotsHold(w.store, w.phase.record);
    SavePendingHolds(w.store, w.verified, w.localOnly, w.phase.record);
  }

  lemma {:induction false} CountHolds(w: World, w': World)
    requires Inv(w) && Count(w, w')
    ensures Inv(w')
  {
    hide LinearChain, SnapshotsInv, ListedInv, HeadsInv, RecoveryInv, BaselineCommitted, PendingInv, LocalInv;
    SameVerified(w, w');
  }

  /** More heads and recovery sets, with the same snapshots, uploads listed and logs, keep the promise. */
  lemma {:induction false} SameVerified(w: World, w': World)
    requires PendingInv(w.store, w.verified, w.localOnly) && LocalInv(w.store, w.verified, w.localOnly)
    requires w'.store.snapshots == w.store.snapshots && w'.store.pending == w.store.pending
    requires w'.verified == w.verified && w'.localOnly == w.localOnly
    requires forall r :: r in w.store.heads ==> r in w'.store.heads && w'.store.heads[r] == w.store.heads[r]
    requires forall r :: r in w.store.recovery ==>
      r in w'.store.recovery && w'.store.recovery[r] == w.store.recovery[r]
    ensures PendingInv(w'.store, w'.verified, w'.localOnly) && LocalInv(w'.store, w'.verified, w'.localOnly)
  {
    forall q | Cid(q) in w'.store.snapshots
      ensures IsPending(w'.store.pending, q) || IsVerified(w'.store, w'.verified, q) || q in w'.localOnly
    {
      assert IsPending(w.store.pending, q) || IsVerified(w.store, w.verified, q) || q in w.localOnly;
    }
  }

  lemma {:induction false} PrepareHolds(w: World, w': World)
    requires Inv(w) && Prepare(w, w')
    ensures Inv(w')
  {
    hide LinearChain, SnapshotsInv, ListedInv, HeadsInv, BaselineCommitted, CounterInv, PendingInv, LocalInv;
    SameVerified(w, w');
  }

  lemma {:induction false} ChainGrows(s: Store, chain: seq<Head>, h: Head)
    requires LinearChain(chain) && HeadsInv(s.heads, s.active, chain)
    requires h.parents == ParentsOf(s.active) && Bound(h)
    requires chain != [] ==> chain[|chain| - 1].counter < h.counter
    ensures LinearChain(chain + [h])
  {
    var chain' := chain + [h];
    forall k | 0 <= k < |chain'| ensures Linked(chain', k) {
      if k < |chain| {
        assert Linked(chain, k) && chain'[k] == chain[k];
        assert k > 0 ==> chain'[k - 1] == chain[k - 1];
      } else {
        assert k > 0 ==> chain'[k - 1] == chain[k - 1];
      }
    }
    forall j, k | 0 <= j < k < |chain'| ensures chain'[j].counter < chain'[k].counter {
      if k == |chain| && j < |chain| - 1 {
        assert chain[j].counter < chain[|chain| - 1].counter;
      }
    }
  }

  lemma {:induction false} HeadAdded(s: Store, chain: seq<Head>, h: Head)
    requires HeadsInv(s.heads, s.active, chain) && h.record !in s.heads
    ensures var s' := SetHead(s, h); HeadsInv(s'.heads, s'.active, chain + [h])
  {
    var s', chain' := SetHead(s, h), chain + [h];
    forall g | g in chain' ensures g.record in s'.heads && s'.heads[g.record] == g {
      if g != h {
        assert g in chain && g.record != h.record;
      }
    }
    forall r | r in s'.heads ensures s'.heads[r] in chain' && s'.heads[r].record == r {
      if r == h.record {
        assert chain'[|chain|] == h;
      } else {
        assert s.heads[r] in chain;
      }
    }
  }

  lemma {:induction false} StillCommitted(baseline: Baseline, chain: seq<Head>, h: Head)
    requires BaselineCommitted(baseline, chain)
    ensures BaselineCommitted(baseline, chain + [h])
  {
    if baseline != map[] {
      var g :| g in chain && baseline == g.record.files;
      assert g in chain + [h];
    }
  }

  lemma {:induction false} NewHeadUnsettled(s: Store, verified: set<Proof>, localOnly: set<Record>, r: Record)
    requires LocalInv(s, verified, localOnly) && r !in s.heads
    ensures Unsettled(verified, localOnly, r)
  {
  }

  lemma {:induction false} StoreHeadHolds(w: World, w': World)
    requires Inv(w) && StoreHead(w, w')
    ensures Inv(w')
  {
    hide LinearChain, SnapshotsInv, ListedInv, HeadsInv, BaselineCommitted, PendingInv, LocalInv, Unsettled;
    var r := w.phase.record;
    var h := Head(r, r.parents, w.phase.set_, r.counter);
    ChainGrows(w.store, w.chain, h);
    HeadAdded(w.store, w.chain, h);
    NewHeadUnsettled(w.store, w.verified, w.localOnly, r);
    if !w.config.dryRun {
      StillCommitted(w.baseline, w.chain, h);
    }
    SameVerified(w, w');
  }

  lemma {:induction false} AcknowledgeHolds(w: World, w': World)
    requires Inv(w) && Acknowledge(w, w')
    ensures Inv(w')
  {
    hide LinearChain, SnapshotsInv, ListedInv, RecoveryInv, PendingInv, LocalInv, CounterInv;
    var r := w.phase.record;
    assert w.store.heads[r] in w.chain && w.store.heads[r].record == r;
  }

  /** A new proof verifies the record it was uploaded for and takes nothing away. */
  lemma {:induction false} ProofAdded(s: Store, verified: set<Proof>, localOnly: set<Record>, p: Proof)
    requires PendingInv(s, verified, localOnly) && LocalInv(s, verified, localOnly)
    requires p.head.record in s.heads && p.head.record !in localOnly
    ensures PendingInv(s, verified + {p}, localOnly) && LocalInv(s, verified + {p}, localOnly)
  {
    forall q | Cid(q) in s.snapshots
      ensures IsPending(s.pending, q) || IsVerified(s, verified + {p}, q) || q in localOnly
    {
      assert IsPending(s.pending, q) || IsVerified(s, verified, q) || q in localOnly;
    }
  }

  lemma {:induction false} HeadOwnRecord(w: World, r: Record)
    requires HeadsInv(w.store.heads, w.store.active, w.chain) && r in w.store.heads
    ensures w.store.heads[r] in w.chain && w.store.heads[r].record == r
  {
  }

  lemma {:induction false} VerifiedHolds(w: World, w': World)
    requires Inv(w) && (UploadVerified(w, w') || RetryVerified(w, w'))
    ensures Inv(w')
  {
    hide LinearChain, SnapshotsInv, ListedInv, RecoveryInv, HeadsInv, BaselineCommitted, CounterInv, PendingInv,
         LocalInv, NoneLocal;
    HeadOwnRecord(w, w.phase.record);
    ProofAdded(w.store, w.verified, w.localOnly, Proof(w.phase.head, w.phase.set_));
  }

  /** Taking a verified or locally settled snapshot off the list. */
  lemma {:induction false} MarkPending(s: Store, verified: set<Proof>, localOnly: set<Record>, localOnly': set<Record>,
                                       id: nat, r: Record)
    requires SnapshotsInv(s.snapshots) && ListedInv(s.snapshots, s.pending) && StoredAs(s.snapshots, id, r)
    requires PendingInv(s, verified, localOnly) && LocalInv(s, verified, localOnly)
    requires if localOnly' == localOnly then IsVerified(s, verified, r)
             else localOnly' == localOnly + {r} && r in s.heads && Unsettled(verified, localOnly, r)
    ensures var s' := MarkUploadCompleted(s, id);
            PendingInv(s', verified, localOnly') && LocalInv(s', verified, localOnly')
  {
    var s' := MarkUploadCompleted(s, id);
    forall q | Cid(q) in s'.snapshots
      ensures IsPending(s'.pending, q) || IsVerified(s', verified, q) || q in localOnly'
    {
      assert IsPending(s.pending, q) || IsVerified(s, verified, q) || q in localOnly;
      if q.snapshotId == id {
        assert StoredAs(s.snapshots, q.snapshotId, q);
      }
    }
    forall n | n in s'.pending ensures s'.pending[n] !in localOnly' {
      assert StoredAs(s.snapshots, n, s.pending[n]) && s.snapshots[Alias(n)].snapshotId == n;
      assert s.snapshots[Alias(id)].snapshotId == id;
    }
  }

  lemma {:induction false} FinishHolds(w: World, w': World)
    requires Inv(w) && Finish(w, w')
    ensures Inv(w')
  {
    hide LinearChain, RecoveryInv, HeadsInv, BaselineCommitted, CounterInv, PendingInv, LocalInv, Unsettled;
    var r := w.phase.record;
    if w' == Finished(w) {
      assert StoredAs(w.store.snapshots, r.snapshotId, r);
      if w.phase.LocalOnly? {
        LocalIsNew(w.verified, w.localOnly, r);
      }
      MarkPending(w.store, w.verified, w.localOnly, w'.localOnly, r.snapshotId, r);
    }
  }

  lemma {:induction false} LocalIsNew(verified: set<Proof>, localOnly: set<Record>, r: Record)
    requires Unsettled(verified, localOnly, r)
    ensures localOnly + {r} != localOnly
  {
    assert r in localOnly + {r};
  }

  lemma {:induction false} RetryMarkHolds(w: World, w': World)
    requires Inv(w) && RetryMark(w, w')
    ensures Inv(w')
  {
    hide LinearChain, SnapshotsInv, RecoveryInv, HeadsInv, BaselineCommitted, CounterInv, PendingInv, LocalInv,
         NoneLocal;
    MarkPending(w.store, w.verified, w.localOnly, w.localOnly, w.phase.id, w.phase.record);
  }

  lemma {:induction false} RestartHolds(w: World, w': World)
    requires Inv(w) && Restart(w, w')
    ensures Inv(w')
  {
    hide LinearChain, ListedInv, PendingInv, LocalInv, CounterInv;
    if w.store.active.Some? {
      var h := w.chain[|w.chain| - 1];
      assert h in w.chain && h.record in w.store.heads;
    }
  }

  lemma {:induction false} CreateHolds(w: World, w': World)
    requires Inv(w) && Create(w, w')
    ensures Inv(w')
  {
    hide LinearChain, ListedInv, HeadsInv, BaselineCommitted, PendingInv, LocalInv;
    var r := w'.phase.record;
    assert !Stored(w.store.snapshots, r) && r !in w.store.heads;
  }

  lemma {:induction false} RetryStartHolds(w: World, w': World)
    requires Inv(w) && RetryStart(w, w')
    ensures Inv(w')
  {
    hide LinearChain, SnapshotsInv, ListedInv, RecoveryInv, HeadsInv, BaselineCommitted, CounterInv, PendingInv;
    var todo := w'.phase.todo;
    forall i | 0 <= i < |todo| ensures todo[i].1 !in w.localOnly {
      assert todo[i].0 in w.store.pending && w.store.pending[todo[i].0] == todo[i].1;
    }
  }

  lemma {:induction false} NoneLocalRest(localOnly: set<Record>, todo: seq<(nat, Record)>)
    requires todo != [] && NoneLocal(localOnly, todo)
    ensures todo[0].1 !in localOnly && NoneLocal(localOnly, todo[1..])
  {
  }

  lemma {:induction false} RetryStepHolds(w: World, w': World)
    requires Inv(w) && (RetryPick(w, w') || RetrySkip(w, w'))
    ensures Inv(w')
  {
    hide LinearChain, SnapshotsInv, ListedInv, RecoveryInv, HeadsInv, BaselineCommitted, CounterInv, PendingInv,
         LocalInv, NoneLocal;
    if w.phase.Retrying? {
      NoneLocalRest(w.localOnly, w.phase.todo);
    }
  }

  lemma {:induction false} OtherHolds(w: World, w': World)
    requires Inv(w) && (Abort(w, w') || Inspect(w, w'))
    ensures Inv(w')
  {
    hide LinearChain, SnapshotsInv, ListedInv, RecoveryInv, HeadsInv, BaselineCommitted, CounterInv, PendingInv,
         LocalInv;
  }

  lemma {:induction false} NextHolds(w: World, w': World)
    requires Inv(w) && Next(w, w')
    ensures Inv(w')
  {
    hide Inv, Create, Save, Count, Prepare, StoreHead, Acknowledge, UploadVerified, Finish, Abort, RetryStart,
         RetryPick, RetrySkip, RetryVerified, RetryMark, Inspect, Restart;
    if Create(w, w') {
      CreateHolds(w, w');
    } else if Save(w, w') {
      SaveHolds(w, w');
    } else if Count(w, w') {
      CountHolds(w, w');
    } else if Prepare(w, w') {
      PrepareHolds(w, w');
    } else if StoreHead(w, w') {
      StoreHeadHolds(w, w');
    } else if Acknowledge(w, w') {
      AcknowledgeHolds(w, w');
    } else if UploadVerified(w, w') || RetryVerified(w, w') {
      VerifiedHolds(w, w');
    } else if Finish(w, w') {
      FinishHolds(w, w');
    } else if RetryMark(w, w') {
      RetryMarkHolds(w, w');
    } else if Restart(w, w') {
      RestartHolds(w, w');
    } else if RetryStart(w, w') {
      RetryStartHolds(w, w');
    } else if RetryPick(w, w') || RetrySkip(w, w') {
      RetryStepHolds(w, w');
    } else {
      OtherHolds(w, w');
    }
  }

  /** Every state of every run satisfies the invariant. */
  lemma {:induction false} RunHolds(run: seq<World>, k: nat)
    requires IsRun(run) && Init(run[0]) && k < |run|
    ensures Inv(run[k])
  {
    hide Inv, Next;
    if k == 0 {
      InitHolds(run[0]);
    } else {
      RunHolds(run, k - 1);
      NextHolds(run[k - 1], run[k]);
    }
  }

  // ----- the promises

  /** The heads in the store are exactly one linear chain with strictly increasing counters, ending at the active head,
      whatever fails, whenever, and whatever settings the processes run with. */
  lemma {:induction false} HeadsFormAChain(run: seq<World>, k: nat)
    requires IsRun(run) && Init(run[0]) && k < |run|
    ensures LinearChain(run[k].chain) && HeadsInv(run[k].store.heads, run[k].store.active, run[k].chain)
  {
    hide LinearChain, HeadsInv, IsRun;
    RunHolds(run, k);
  }

  /** Outside dry-run the baseline is never ahead of the stored heads. */
  lemma {:induction false} BaselineIsCommitted(run: seq<World>, k: nat)
    requires IsRun(run) && Init(run[0]) && k < |run| && !run[k].config.dryRun
    ensures BaselineCommitted(run[k].baseline, run[k].chain)
  {
    hide BaselineCommitted, IsRun;
    RunHolds(run, k);
  }

  lemma {:induction false} SettledOrNot(w: World, r: Record)
    requires Inv(w) && Stored(w.store.snapshots, r)
    ensures IsPending(w.store.pending, r) || IsVerified(w.store, w.verified, r) <==> r !in w.localOnly
  {
    hide LinearChain, SnapshotsInv, ListedInv, RecoveryInv, CounterInv, BaselineCommitted;
    if r in w.localOnly {
      assert w.store.heads[r].record == r;
    }
  }

  lemma {:induction false} LocalStep(w: World, w': World)
    requires Inv(w) && Next(w, w') && w'.localOnly != w.localOnly
    ensures !w.config.replicate
  {
    hide LinearChain, SnapshotsInv, ListedInv, RecoveryInv, HeadsInv, BaselineCommitted, CounterInv, PendingInv,
         LocalInv;
  }

  lemma {:induction false} ReplicationSettlesNothing(run: seq<World>, k: nat)
    requires IsRun(run) && Init(run[0]) && k < |run| && forall j :: 0 <= j < k ==> run[j].config.replicate
    ensures run[k].localOnly == {}
  {
    hide Next, Inv;
    if k > 0 {
      ReplicationSettlesNothing(run, k - 1);
      RunHolds(run, k - 1);
      if run[k].localOnly != run[k - 1].localOnly {
        LocalStep(run[k - 1], run[k]);
      }
    }
  }

  /** A saved snapshot is listed for upload or verified with its own head, unless a capture without replication took it
      off the list; exactly then it is neither. When every process so far replicates there is no such snapshot. */
  lemma {:induction false} NothingLeavesUnverified(run: seq<World>, k: nat, r: Record)
    requires IsRun(run) && Init(run[0]) && k < |run| && Stored(run[k].store.snapshots, r)
    ensures IsPending(run[k].store.pending, r) || IsVerified(run[k].store, run[k].verified, r)
            <==> r !in run[k].localOnly
    ensures (forall j :: 0 <= j < k ==> run[j].config.replicate) ==>
      IsPending(run[k].store.pending, r) || IsVerified(run[k].store, run[k].verified, r)
  {
    hide IsRun, IsPending, IsVerified, Inv;
    RunHolds(run, k);
    SettledOrNot(run[k], r);
    if forall j :: 0 <= j < k ==> run[j].config.replicate {
      ReplicationSettlesNothing(run, k);
    }
  }

  /** Runs grow step by step. */
  lemma {:induction false} Grow(run: seq<World>, w: World)
    requires IsRun(run) && Next(run[|run| - 1], w)
    ensures IsRun(run + [w])
  {
    hide Next;
    var run' := run + [w];
    forall k | 0 <= k < |run'| - 1 ensures Next(run'[k], run'[k + 1]) {
      if k < |run| - 1 {
        assert run'[k] == run[k] && run'[k + 1] == run[k + 1];
      }
    }
  }

  lemma {:induction false} Advance(run: seq<World>, w: World)
    requires IsRun(run) && Inv(run[|run| - 1]) && Next(run[|run| - 1], w)
    ensures IsRun(run + [w]) && Inv(w)
  {
    NextHolds(run[|run| - 1], w);
    hide Inv, Next, IsRun;
    Grow(run, w);
  }

  // ----- which retries can succeed

  /** A retry's checks pass for a saved snapshot exactly when its head was stored. */
  lemma {:induction false} RetryPassesWithHead(w: World, r: Record, id: nat)
    requires Inv(w) && Stored(w.store.snapshots, r)
    ensures RetryConsistent(w.store, id, r) <==> id == r.snapshotId && r in w.store.heads
  {
    hide ListedInv, BaselineCommitted, CounterInv, PendingInv, LocalInv, PhaseInv;
    if r in w.store.heads {
      var h := w.store.heads[r];
      assert h in w.chain;
      var k :| 0 <= k < |w.chain| && w.chain[k] == h;
      assert Linked(w.chain, k);
    }
    if RetryConsistent(w.store, id, r) {
      assert w.store.snapshots[Alias(id)].snapshotId == id;
    }
  }

  /** In every run: a retry can upload a snapshot exactly when its capture got as far as storing the head. */
  lemma {:induction false} RetryPassesExactly(run: seq<World>, k: nat, r: Record)
    requires IsRun(run) && Init(run[0]) && k < |run| && Stored(run[k].store.snapshots, r)
    ensures RetryConsistent(run[k].store, r.snapshotId, r) <==> r in run[k].store.heads
    ensures forall id :: RetryConsistent(run[k].store, id, r) ==> id == r.snapshotId
  {
    hide IsRun, Inv, RetryConsistent;
    RunHolds(run, k);
    forall id ensures RetryConsistent(run[k].store, id, r) <==> id == r.snapshotId && r in run[k].store.heads {
      RetryPassesWithHead(run[k], r, id);
    }
  }

  /** The worker still has this record in hand and may yet store its head. */
  predicate InHand(phase: Phase, r: Record) {
    (phase.Created? || phase.Saved? || phase.Counted? || phase.Prepared?) && phase.record == r
  }

  /** A saved snapshot whose capture failed before the head was stored. */
  predicate Orphan(w: World, r: Record) {
    Stored(w.store.snapshots, r) && r !in w.store.heads && !InHand(w.phase, r)
  }

  lemma {:induction false} StoredHasAlias(w: World, r: Record)
    requires Inv(w) && Stored(w.store.snapshots, r)
    ensures Alias(r.snapshotId) in w.store.snapshots
    ensures w.phase.Created? ==> w.phase.record != r
  {
    hide LinearChain, ListedInv, RecoveryInv, HeadsInv, BaselineCommitted, CounterInv, PendingInv, LocalInv;
  }

  lemma {:induction false} OrphanSaveStep(w: World, w': World, r: Record)
    requires Orphan(w, r) && Alias(r.snapshotId) in w.store.snapshots
    requires Create(w, w') || Save(w, w') || Count(w, w')
    ensures Orphan(w', r)
  {
  }

  lemma {:induction false} OrphanHeadStep(w: World, w': World, r: Record)
    requires Orphan(w, r) && (Prepare(w, w') || StoreHead(w, w') || Acknowledge(w, w'))
    ensures Orphan(w', r)
  {
  }

  lemma {:induction false} OrphanUploadStep(w: World, w': World, r: Record)
    requires Orphan(w, r)
    requires UploadVerified(w, w') || Finish(w, w') || RetryVerified(w, w') || RetryMark(w, w')
    ensures Orphan(w', r)
  {
  }

  lemma {:induction false} OrphanIdleStep(w: World, w': World, r: Record)
    requires Orphan(w, r)
    requires Abort(w, w') || RetryStart(w, w') || RetryPick(w, w') || RetrySkip(w, w') || Inspect(w, w')
             || Restart(w, w')
    ensures Orphan(w', r)
  {
  }

  lemma {:induction false} OrphanStep(w: World, w': World, r: Record)
    requires Inv(w) && Next(w, w') && Orphan(w, r)
    ensures Orphan(w', r)
  {
    StoredHasAlias(w, r);
    hide Inv, Create, Save, Count, Prepare, StoreHead, Acknowledge, UploadVerified, Finish, Abort, RetryStart,
         RetryPick, RetrySkip, RetryVerified, RetryMark, Inspect, Restart;
    if UploadVerified(w, w') || Finish(w, w') || RetryVerified(w, w') || RetryMark(w, w') {
      OrphanUploadStep(w, w', r);
    } else if Abort(w, w') || RetryStart(w, w') || RetryPick(w, w') || RetrySkip(w, w') || Inspect(w, w')
              || Restart(w, w') {
      OrphanIdleStep(w, w', r);
    } else if Prepare(w, w') || StoreHead(w, w') || Acknowledge(w, w') {
      OrphanHeadStep(w, w', r);
    } else {
      OrphanSaveStep(w, w', r);
    }
  }

  /** A snapshot whose capture failed before its head can never be uploaded: no later retry passes its checks, and it
      stays listed as pending in every later state. */
  lemma {:induction false} OrphanStaysPending(run: seq<World>, j: nat, k: nat, r: Record)
    requires IsRun(run) && Init(run[0]) && j <= k < |run| && Orphan(run[j], r)
    ensures Orphan(run[k], r) && IsPending(run[k].store.pending, r)
    ensures forall id :: !RetryConsistent(run[k].store, id, r)
    decreases k
  {
    hide Inv, Next, IsPending;
    RunHolds(run, k);
    if j < k {
      OrphanStaysPending(run, j, k - 1, r);
      RunHolds(run, k - 1);
      OrphanStep(run[k - 1], run[k], r);
    }
    HeadlessUnsettled(run[k], r);
  }

  lemma {:induction false} HeadlessUnsettled(w: World, r: Record)
    requires Inv(w) && Stored(w.store.snapshots, r) && r !in w.store.heads
    ensures IsPending(w.store.pending, r)
  {
    hide LinearChain, SnapshotsInv, ListedInv, RecoveryInv, HeadsInv, CounterInv, BaselineCommitted, PhaseInv;
  }

  // ----- runs that show what can happen

  function NewVault(config: Config): World {
    World(config, Store(map[], map[], map[], map[], None, 0), map[], Idle, [], {}, {})
  }

  predicate CanCapture(w: World, r: Record) {
    && w.phase.Idle? && !w.config.dryRun && Alias(r.snapshotId) !in w.store.snapshots
    && r.parents == ParentsOf(w.store.active) && r.counter == w.store.counter + 1
  }

  /** A run extended by a snapshot created and saved. */
  lemma {:induction false} SaveRun(run: seq<World>, r: Record) returns (run': seq<World>)
    requires IsRun(run) && CanCapture(run[|run| - 1], r)
    ensures var w := run[|run| - 1];
            IsRun(run') && run < run' && run'[|run'| - 1] == w.(store := SaveSnapshot(w.store, r), phase := Saved(r))
  {
    var w := run[|run| - 1];
    hide IsRun;
    var w1 := w.(phase := Created(r));
    assert Create(w, w1);
    Grow(run, w1);
    var w2 := w1.(store := SaveSnapshot(w.store, r), phase := Saved(r));
    assert Save(w1, w2);
    Grow(run + [w1], w2);
    run' := run + [w1] + [w2];
  }

  /** And counted. */
  lemma {:induction false} CountRun(run: seq<World>, r: Record) returns (run': seq<World>)
    requires IsRun(run) && CanCapture(run[|run| - 1], r)
    ensures var w := run[|run| - 1];
            && IsRun(run') && run < run'
            && run'[|run'| - 1] == w.(store := IncrementCounter(SaveSnapshot(w.store, r)), phase := Counted(r))
  {
    var w := run[|run| - 1];
    hide IsRun, CanCapture;
    var saved := SaveRun(run, r);
    var w3 := w.(store := IncrementCounter(SaveSnapshot(w.store, r)), phase := Counted(r));
    assert Count(saved[|saved| - 1], w3);
    Grow(saved, w3);
    run' := saved + [w3];
  }

  function HeadOf(r: Record): Head {
    Head(r, r.parents, RecoverySet(r, 0), r.counter)
  }

  function HeadStore(s: Store, r: Record): Store {
    SetHead(PrepareRecoverySet(s, r, 0), HeadOf(r))
  }

  /** And published. */
  lemma {:induction false} HeadRun(run: seq<World>, r: Record) returns (run': seq<World>)
    requires IsRun(run) && run[|run| - 1].phase == Counted(r) && r !in run[|run| - 1].store.recovery
    ensures var w := run[|run| - 1];
            && IsRun(run') && run < run'
            && run'[|run'| - 1] == w.(store := HeadStore(w.store, r), phase := Headed(r, RecoverySet(r, 0), HeadOf(r)),
                                      chain := w.chain + [HeadOf(r)])
  {
    var w := run[|run| - 1];
    hide IsRun;
    var s := PrepareRecoverySet(w.store, r, 0);
    var w1 := w.(store := s, phase := Prepared(r, RecoverySet(r, 0)));
    assert Prepare(w, w1);
    Grow(run, w1);
    var w2 := w1.(store := HeadStore(w.store, r), phase := Headed(r, RecoverySet(r, 0), HeadOf(r)),
                  chain := w.chain + [HeadOf(r)]);
    assert StoreHead(w1, w2);
    Grow(run + [w1], w2);
    run' := run + [w1] + [w2];
  }

  lemma {:induction false} AbortRun(run: seq<World>)
    requires IsRun(run)
    ensures IsRun(run + [run[|run| - 1].(phase := Idle)])
  {
    var w := run[|run| - 1];
    hide IsRun;
    assert Abort(w, w.(phase := Idle));
    Grow(run, w.(phase := Idle));
  }

  lemma {:induction false} NewRun(config: Config)
    ensures IsRun([NewVault(config)]) && Init(NewVault(config))
  {
  }

  /** Orphans exist, with replication on or off: a capture that fails right after saving leaves one. */
  lemma {:induction false} OrphanReachable(replicate: bool) returns (run: seq<World>, r: Record)
    ensures IsRun(run) && Init(run[0]) && Orphan(run[|run| - 1], r)
    ensures run[|run| - 1].config == Config(replicate, false)
  {
    r := Record(1, [], 1, map[]);
    var w0 := NewVault(Config(replicate, false));
    NewRun(w0.config);
    hide IsRun, Init;
    var saved := SaveRun([w0], r);
    AbortRun(saved);
    run := saved + [saved[|saved| - 1].(phase := Idle)];
  }

  /** Counters may skip: a capture that fails after counting leaves a gap, so the first head can carry counter 2. */
  lemma {:induction false} CounterMaySkip() returns (run: seq<World>)
    ensures IsRun(run) && Init(run[0]) && run[0].store.counter == 0
    ensures var w := run[|run| - 1]; |w.chain| == 1 && w.chain[0].counter == 2
  {
    var r1, r2 := Record(1, [], 1, map[]), Record(2, [], 2, map[]);
    var w0 := NewVault(Config(false, false));
    NewRun(w0.config);
    hide IsRun, Init, HeadStore;
    var counted := CountRun([w0], r1);
    AbortRun(counted);
    var idle := counted + [counted[|counted| - 1].(phase := Idle)];
    var again := CountRun(idle, r2);
    run := HeadRun(again, r2);
  }

  /** Snapshots settled without replication exist: captured by a process that does not replicate, one is neither listed
      nor verified for a later process that does. */
  lemma {:induction false} LocalSnapshotReachable() returns (run: seq<World>, r: Record)
    ensures IsRun(run) && Init(run[0])
    ensures var w := run[|run| - 1];
            && w.config == Config(true, false) && Stored(w.store.snapshots, r) && r in w.store.heads
            && !IsPending(w.store.pending, r) && !IsVerified(w.store, w.verified, r)
  {
    r := Record(1, [], 1, map[]);
    var w0 := NewVault(Config(false, false));
    NewRun(w0.config);
    hide IsRun, Init;
    var counted := CountRun([w0], r);
    var headed := HeadRun(counted, r);
    var w5 := headed[|headed| - 1];
    var w6 := w5.(baseline := r.files, phase := LocalOnly(r));
    assert Acknowledge(w5, w6);
    Grow(headed, w6);
    var w7 := Finished(w6);
    assert Finish(w6, w7);
    Grow(headed + [w6], w7);
    var w8 := w7.(config := Config(true, false), baseline := BaselineOf(w7.store));
    assert Restart(w7, w8);
    Grow(headed + [w6] + [w7], w8);
    run := headed + [w6] + [w7] + [w8];
  }
}
