/**
 Warming a repository's vector shard beside index runs, ignore requests and removals
 (`src/indexing/mod.rs`: `warm_repo_shard`; `src/indexing/pipeline.rs`: the begin / write / publish
 order of a run; `src/vector/shard_file.rs`: the persisted shard file; `src/server.rs`: the ignore
 handlers; `src/engine_ops.rs`: removing an index).

 One repository, one index run or ignore request at a time (the per-repository run lock), any
 number of warms, and process crashes. Each database read, file operation and locked section is
 one step.
 */
module WarmFence {
  import opened Maps
  import opened Options
  import opened ResidentCap
  import opened VectorIndex

  /** What a persisted shard is validated against; the source hashes the three, here they are kept. */
  datatype Stamp = Stamp(identity: string, count: nat, epoch: nat)

  datatype ShardFile = ShardFile(stamp: Stamp, rows: Rows)

  /** The durable tables: embedded chunk rows, the identity marker and the index epoch. */
  datatype Db = Db(rows: Rows, identity: Option<string>, epoch: nat)

  datatype Kind = Full | Incremental

  /** What holds the run lock: an index run between its durable writes, or an ignore request that
      took the rows of `gone` out of the table but not yet out of the shard. `before` is the chunk
      table it started from, `at` the index epoch. */
  datatype Run =
    | NoRun
    | Fenced(kind: Kind, before: Rows)
    | Unmarked(kind: Kind, before: Rows)
    | Writing(kind: Kind, before: Rows)
    | Committed(kind: Kind, before: Rows, removed: set<string>, added: Rows, key: string)
    | Ignoring(before: Rows, gone: set<string>, at: nat)

  /** A warm between two of its reads or locked sections; `scan` is the epoch it captured. */
  datatype Warm =
    | Captured(scan: nat, key: string)
    | Counted(scan: nat, key: string, count: nat)
    | Matched(scan: nat, key: string, count: nat)
    | Stamped(scan: nat, key: string, stamp: Stamp)
    | Mapped(scan: nat, key: string, stamp: Stamp, rows: Rows)
    | Scanned(scan: nat, key: string, stamp: Stamp, rows: Rows)
    | Checked(scan: nat, key: string, stamp: Stamp, rows: Rows)
    | Persisted(scan: nat, key: string, stamp: Stamp, rows: Rows, generation: Option<nat>)

  /** `handles` are the removed databases that warms begun before the removal still read. */
  datatype System = System(vi: Entry, db: Db, files: map<nat, ShardFile>, current: Option<nat>,
                           run: Run, warms: map<nat, Warm>, handles: map<nat, Db>)

  const NEW_DB := Db(map[], None, 0)

  const BOOT := System(FRESH, NEW_DB, map[], None, NoRun, map[], map[])

  datatype Step =
    // the index run, in its order; it may first adopt a missing identity marker
    | Adopt(key: string)
    | Begin(kind: Kind)
    | ClearMarker
    | BumpIndexEpoch
    | WriteRows(rows: Rows)
    | Commit(removed: set<string>, added: Rows, identity: string)
    | Publish
    | FailRun
    | Rollback(invalidate: bool)
    // a page of an ignore request, in its order
    | IgnoreRows(gone: set<string>)
    | IgnoreBump
    | IgnoreApply
    // a warm, in its order
    | WarmStart(id: nat, key: string)
    | WarmCount(id: nat)
    | WarmIdentity(id: nat)
    | WarmStamp(id: nat)
    | WarmOpen(id: nat)
    | WarmScan(id: nat)
    | WarmCheck(id: nat)
    | WarmPersist(id: nat, generation: Option<nat>)
    | WarmInstall(id: nat, reopen: bool)
    // removing this repository's index, and that of another one
    | Remove
    | RemoveOther(repo: Repo)
    // the environment
    | Crash
    | Evict
    | DropCurrent
    | Reap(dead: nat)

  /** The CURRENT file, when it validates against `stamp`. */
  predicate Usable(s: System, stamp: Stamp) {
    s.current.Some? && s.current.value in s.files && s.files[s.current.value].stamp == stamp
  }

  /** What a run publishes is what it wrote: the whole table, or what it wrote of its affected files beside
      the rows of all others. */
  ghost predicate WroteWhatItPublishes(s: System, removed: set<string>, added: Rows)
    requires s.run.Writing?
  {
    if s.run.kind.Full? then s.db.rows == added else Merges(s.run.before, removed, added, s.db.rows)
  }

  /** The database a warm reads: the one it was begun on. */
  function DbOf(s: System, id: nat): Db {
    if id in s.handles then s.handles[id] else s.db
  }

  ghost predicate Enabled(s: System, step: Step) {
    match step
    case Adopt(_) => s.run.NoRun? && s.db.identity.None? && s.db.rows != map[]
    case IgnoreRows(_) => s.run.NoRun?
    case IgnoreBump => s.run.Ignoring? && s.db.epoch == s.run.at
    case IgnoreApply => s.run.Ignoring?
    case Remove => s.run.NoRun?
    case RemoveOther(_) => true
    case Begin(_) => s.run.NoRun?
    case ClearMarker => s.run.Fenced?
    case BumpIndexEpoch => s.run.Unmarked?
    case WriteRows(_) => s.run.Writing?
    case Commit(removed, added, _) => s.run.Writing? && WroteWhatItPublishes(s, removed, added)
    case Publish => s.run.Committed?
    case FailRun => !s.run.NoRun? && !s.run.Ignoring?
    case Rollback(_) => s.run.Writing?
    case WarmStart(id, _) => id !in s.warms
    case WarmCount(id) => id in s.warms && s.warms[id].Captured?
    case WarmIdentity(id) => id in s.warms && s.warms[id].Counted?
    case WarmStamp(id) => id in s.warms && s.warms[id].Matched?
    case WarmOpen(id) => id in s.warms && s.warms[id].Stamped? && Usable(s, s.warms[id].stamp)
    case WarmScan(id) => id in s.warms && s.warms[id].Stamped?
    case WarmCheck(id) => id in s.warms && s.warms[id].Scanned?
    case WarmPersist(id, generation) =>
      id in s.warms && s.warms[id].Checked? && (generation.Some? ==> generation.value !in s.files)
    case WarmInstall(id, _) => id in s.warms && Installs(s.warms[id])
    case Reap(dead) => s.current != Some(dead)
    case Crash => true
    case Evict => true
    case DropCurrent => true
  }

  function Ended(s: System, id: nat): System {
    s.(warms := s.warms - {id}, handles := s.handles - {id})
  }

  function Become(s: System, id: nat, w: Warm): System {
    s.(warms := s.warms[id := w])
  }

  /** Only the final locked section is left. */
  predicate Installs(w: Warm) {
    w.Mapped? || w.Persisted?
  }

  /** The rows the final locked section installs: the reopened file's when it validates, else the scan's. */
  function InstallRows(s: System, w: Warm, reopen: bool): Rows
    requires Installs(w)
  {
    if w.Persisted? && w.generation.Some? && reopen && Usable(s, w.stamp) then s.files[s.current.value].rows
    else w.rows
  }

  ghost function NextRun(s: System, step: Step): System
    requires Enabled(s, step)
    requires step.Begin? || step.ClearMarker? || step.BumpIndexEpoch? || step.WriteRows? || step.Commit?
             || step.Publish? || step.FailRun? || step.Rollback?
  {
    match step
    case Begin(Full) => s.(vi := BegunFull(s.vi), run := Fenced(Full, s.db.rows))
    case Begin(Incremental) => s.(vi := BegunIncremental(s.vi), run := Fenced(Incremental, s.db.rows))
    case ClearMarker => s.(db := s.db.(identity := None), run := Unmarked(s.run.kind, s.run.before))
    case BumpIndexEpoch => s.(db := s.db.(epoch := s.db.epoch + 1), run := Writing(s.run.kind, s.run.before))
    case WriteRows(rows) => s.(db := s.db.(rows := rows))
    case Commit(removed, added, key) =>
      s.(db := s.db.(identity := Some(key)), run := Committed(s.run.kind, s.run.before, removed, added, key))
    case Publish =>
      var r := s.run;
      s.(vi := if r.kind.Full? then PublishedFull(s.vi, r.added, r.key)
               else PublishedIncremental(s.vi, r.removed, r.added, r.key),
         run := NoRun)
    case FailRun => s.(run := NoRun)
    case Rollback(invalidate) =>
      s.(db := s.db.(identity := None), vi := Aborted(s.vi), run := NoRun,
         current := if invalidate then None else s.current)
  }

  function ResidentIdentity(e: Entry): string {
    if e.live.Some? && !e.mutating then e.live.value.identity else ""
  }

  ghost function NextIgnore(s: System, step: Step): System
    requires Enabled(s, step)
    requires step.IgnoreRows? || step.IgnoreBump? || step.IgnoreApply?
  {
    match step
    case IgnoreRows(gone) =>
      s.(db := s.db.(rows := Delta(s.db.rows, gone, map[])), run := Ignoring(s.db.rows, gone, s.db.epoch))
    case IgnoreBump => s.(db := s.db.(epoch := s.db.epoch + 1))
    case IgnoreApply => s.(vi := Applied(s.vi, s.run.gone, map[], ResidentIdentity(s.vi)), run := NoRun)
  }

  /** The tables start over, the shard files stay, and a warm under way keeps the database it reads. */
  ghost function Removal(s: System): System {
    s.(vi := Removed(s.vi), db := NEW_DB, handles := map id | id in s.warms :: DbOf(s, id))
  }

  ghost function NextWarm(s: System, step: Step): System
    requires Enabled(s, step)
    requires step.WarmStart? || step.WarmCount? || step.WarmIdentity? || step.WarmStamp? || step.WarmOpen?
             || step.WarmScan? || step.WarmCheck? || step.WarmPersist? || step.WarmInstall?
  {
    var id := step.id;
    match step
    case WarmStart(_, key) => if s.vi.mutating then s else Become(s, id, Captured(s.vi.epoch, key))
    case WarmCount(_) =>
      if DbOf(s, id).rows == map[] then Ended(s, id)
      else Become(s, id, Counted(s.warms[id].scan, s.warms[id].key, |DbOf(s, id).rows|))
    case WarmIdentity(_) =>
      if DbOf(s, id).identity != Some(s.warms[id].key) then Ended(s, id)
      else Become(s, id, Matched(s.warms[id].scan, s.warms[id].key, s.warms[id].count))
    case WarmStamp(_) =>
      var w := s.warms[id];
      Become(s, id, Stamped(w.scan, w.key, Stamp(w.key, w.count, DbOf(s, id).epoch)))
    case WarmOpen(_) =>
      var w := s.warms[id];
      Become(s, id, Mapped(w.scan, w.key, w.stamp, s.files[s.current.value].rows))
    case WarmScan(_) =>
      var w := s.warms[id];
      if DbOf(s, id).rows == map[] then Ended(s, id)
      else Become(s, id, Scanned(w.scan, w.key, w.stamp, DbOf(s, id).rows))
    case WarmCheck(_) =>
      var w := s.warms[id];
      if !Installable(s.vi, w.scan) then Ended(s, id)
      else Become(s, id, Checked(w.scan, w.key, w.stamp, w.rows))
    case WarmPersist(_, generation) =>
      var w := s.warms[id];
      var t := Become(s, id, Persisted(w.scan, w.key, w.stamp, w.rows, generation));
      if generation.None? then t
      else t.(files := s.files[generation.value := ShardFile(w.stamp, w.rows)], current := generation)
    case WarmInstall(_, reopen) =>
      var w := s.warms[id];
      var shard := Shard(InstallRows(s, w, reopen), w.key);
      Ended(s, id).(vi := Installed(s.vi, shard, w.scan),
                    current := if !Installable(s.vi, w.scan) && w.Persisted? && w.generation == s.current then None
                               else s.current)
  }

  ghost function Next(s: System, step: Step): System
    requires Enabled(s, step)
  {
    match step
    case Crash => System(FRESH, s.db, s.files, s.current, NoRun, map[], map[])
    case Evict => s.(vi := s.vi.(live := None))
    case DropCurrent => s.(current := None)
    case Reap(dead) => s.(files := s.files - {dead})
    case Remove => Removal(s)
    case RemoveOther(repo) => s.(vi := Stripped(s.vi, repo))
    case Adopt(key) => s.(db := s.db.(identity := Some(key)))
    case IgnoreRows(_) => NextIgnore(s, step)
    case IgnoreBump => NextIgnore(s, step)
    case IgnoreApply => NextIgnore(s, step)
    case Begin(_) => NextRun(s, step)
    case ClearMarker => NextRun(s, step)
    case BumpIndexEpoch => NextRun(s, step)
    case WriteRows(_) => NextRun(s, step)
    case Commit(_, _, _) => NextRun(s, step)
    case Publish => NextRun(s, step)
    case FailRun => NextRun(s, step)
    case Rollback(_) => NextRun(s, step)
    case _ => NextWarm(s, step)
  }

  ghost predicate Runs(s: System, steps: seq<Step>)
    decreases |steps|
  {
    steps == [] || (Enabled(s, steps[0]) && Runs(Next(s, steps[0]), steps[1..]))
  }

  ghost function After(s: System, steps: seq<Step>): System
    requires Runs(s, steps)
    decreases |steps|
  {
    if steps == [] then s else After(Next(s, steps[0]), steps[1..])
  }

  // ---------------------------------------------------------------------------------------
  // The two removals, and when nothing stands against them
  // ---------------------------------------------------------------------------------------

  /** A warm that can still install what it reads from this database. */
  predicate MayInstall(s: System, id: nat)
    requires id in s.warms
  {
    && Installable(s.vi, s.warms[id].scan)
    && DbOf(s, id).rows != map[]
    && DbOf(s, id).identity == Some(s.warms[id].key)
  }

  /** No warm can still install rows, none is about to write a shard file, and CURRENT names none. */
  ghost predicate Quiet(s: System) {
    && (forall id :: id in s.warms ==> !MayInstall(s, id) && !s.warms[id].Checked?)
    && !(s.current.Some? && s.current.value in s.files)
  }

  /** No searchable row of this repository lies inside `repo`. */
  ghost predicate NoneInside(s: System, repo: Repo) {
    s.vi.live.Some? ==> forall c :: c in s.vi.live.value.rows ==> !PathInRepo(c.file, repo)
  }

  ghost predicate Orderly(s: System, step: Step) {
    && (step.Remove? ==> Quiet(s))
    && (step.RemoveOther? ==> NoneInside(s, step.repo))
  }

  ghost predicate OrderlyRun(s: System, steps: seq<Step>)
    requires Runs(s, steps)
    decreases |steps|
  {
    steps == [] || (Orderly(s, steps[0]) && OrderlyRun(Next(s, steps[0]), steps[1..]))
  }

  // ---------------------------------------------------------------------------------------
  // The invariant
  // ---------------------------------------------------------------------------------------

  /** The theorem's subject: a searchable shard is the chunk table, in the stored embedding space. */
  predicate LiveMatchesDb(s: System) {
    s.vi.live.Some? ==>
      && !s.vi.mutating
      && s.vi.live.value.rows == s.db.rows
      && s.db.identity == Some(s.vi.live.value.identity)
  }

  /** The chunk table, but for rows that the ignore request under way is taking out. */
  predicate Same(s: System, rows: Rows) {
    if s.run.Ignoring? then Delta(rows, s.run.gone, map[]) == s.db.rows else rows == s.db.rows
  }

  predicate LiveInv(s: System) {
    s.vi.live.Some? ==>
      && !s.vi.mutating
      && Same(s, s.vi.live.value.rows)
      && s.db.identity == Some(s.vi.live.value.identity)
  }

  /** A count or an epoch that a read since the last run, or since the ignore request began, may
      have seen. */
  predicate SeenCount(s: System, count: nat) {
    count == |s.db.rows| || (s.run.Ignoring? && count == |s.run.before|)
  }

  predicate SeenEpoch(s: System, epoch: nat) {
    epoch == s.db.epoch || (s.run.Ignoring? && epoch == s.run.at)
  }

  /** A snapshot that validates against the present table holds the present rows: within one epoch
      the table only shrinks, so a stamp with its count and epoch is of the same rows. None carries
      the present epoch while a run is rewriting them. */
  predicate StampedRows(s: System, stamp: Stamp, rows: Rows) {
    && 0 < stamp.epoch <= s.db.epoch && 0 < stamp.count && rows != map[]
    && (stamp.epoch == s.db.epoch ==>
          && !s.run.Writing? && !s.run.Committed?
          && |s.db.rows| <= stamp.count
          && (stamp.count == |s.db.rows| ==> rows == s.db.rows))
    && (SeenEpoch(s, stamp.epoch) && SeenCount(s, stamp.count) ==> Same(s, rows))
  }

  /** While the epoch a warm captured is still current, everything it has read still holds. */
  predicate ReadsHold(s: System, w: Warm) {
    && (w.Counted? || w.Matched? ==> 0 < w.count && SeenCount(s, w.count))
    && (!w.Captured? && !w.Counted? ==> s.db.identity == Some(w.key))
    && (w.Stamped? || w.Mapped? || w.Scanned? || w.Checked? || w.Persisted? ==>
          && w.stamp.identity == w.key
          && 0 < w.stamp.count && SeenCount(s, w.stamp.count)
          && 0 < w.stamp.epoch && SeenEpoch(s, w.stamp.epoch))
    && (w.Mapped? || w.Scanned? || w.Checked? || w.Persisted? ==> Same(s, w.rows))
    && (w.Scanned? ==> w.rows != map[] && (w.stamp.count == |s.db.rows| ==> w.rows == s.db.rows))
  }

  predicate WarmInv(s: System, w: Warm) {
    && w.scan <= s.vi.epoch
    && (w.scan == s.vi.epoch ==> !s.vi.mutating && ReadsHold(s, w))
    && (w.Checked? ==> StampedRows(s, w.stamp, w.rows))
  }

  /** A warm that reads a removed database never gets as far as a shard or a file. */
  predicate OrphanInv(s: System, w: Warm, db: Db) {
    && w.scan <= s.vi.epoch
    && !w.Checked?
    && (w.scan == s.vi.epoch ==>
          || (w.Captured? && (db.rows == map[] || db.identity != Some(w.key)))
          || (w.Counted? && db.identity != Some(w.key)))
  }

  predicate AnyWarmInv(s: System, id: nat)
    requires id in s.warms
  {
    if id in s.handles then OrphanInv(s, s.warms[id], s.handles[id]) else WarmInv(s, s.warms[id])
  }

  predicate RunInv(s: System) {
    && (!s.run.NoRun? && !s.run.Ignoring? ==> s.vi.mutating && s.vi.live.None?)
    && (!s.run.NoRun? && !s.run.Ignoring? && s.run.kind.Incremental? && s.vi.pending.Some? ==>
          s.vi.pending.value.rows == s.run.before)
    && (s.run.Fenced? || s.run.Unmarked? ==> s.db.rows == s.run.before)
    && (s.run.Committed? ==>
          && s.db.identity == Some(s.run.key)
          && s.db.rows == if s.run.kind.Full? then s.run.added else Delta(s.run.before, s.run.removed, s.run.added))
    && (s.run.Ignoring? ==>
          && s.db.rows == Delta(s.run.before, s.run.gone, map[])
          && s.run.at <= s.db.epoch <= s.run.at + 1
          && (s.db.identity.Some? ==> 0 < s.run.at))
    && (s.db.rows != map[] || s.db.identity.Some? || s.run.Writing? || s.run.Committed? ==> 0 < s.db.epoch)
  }

  /** Whatever CURRENT names is stamped for its rows. */
  predicate CurrentInv(s: System) {
    s.current.Some? && s.current.value in s.files ==>
      StampedRows(s, s.files[s.current.value].stamp, s.files[s.current.value].rows)
  }

  ghost predicate Inv(s: System) {
    && LiveInv(s)
    && RunInv(s)
    && CurrentInv(s)
    && s.handles.Keys <= s.warms.Keys
    && (forall id :: id in s.warms ==> AnyWarmInv(s, id))
  }

  /** Taking rows out leaves no more, and as many only when none went. */
  lemma DeltaShrinks(rows: Rows, gone: set<string>)
    ensures |Delta(rows, gone, map[])| <= |rows|
    ensures |Delta(rows, gone, map[])| == |rows| ==> Delta(rows, gone, map[]) == rows
    ensures Delta(Delta(rows, gone, map[]), gone, map[]) == Delta(rows, gone, map[])
  {
    SubsetSize(Delta(rows, gone, map[]).Keys, rows.Keys);
  }

  predicate IsRunStep(step: Step) {
    step.Begin? || step.ClearMarker? || step.BumpIndexEpoch? || step.WriteRows? || step.Commit?
    || step.Publish? || step.FailRun? || step.Rollback?
  }

  /** No stamp of `s` gains or loses anything: the rows it speaks of are untouched, or its epoch is past. */
  predicate StampsPass(s: System, t: System) {
    && !s.run.Ignoring? && !t.run.Ignoring?
    && s.db.epoch <= t.db.epoch
    && (s.db.epoch == t.db.epoch ==>
          || s.run.Writing? || s.run.Committed?
          || (t.db.rows == s.db.rows && !t.run.Writing? && !t.run.Committed?))
  }

  /** The warms go on as they were; what they captured stays outdated, or becomes it. */
  predicate WarmsPass(s: System, t: System) {
    && t.warms == s.warms && t.handles == s.handles
    && s.vi.epoch <= t.vi.epoch
    && (s.vi.epoch == t.vi.epoch ==> s.vi.mutating)
  }

  lemma StampKept(s: System, t: System, stamp: Stamp, rows: Rows)
    requires StampsPass(s, t) && StampedRows(s, stamp, rows)
    ensures StampedRows(t, stamp, rows)
  {
  }

  lemma WarmKept(s: System, t: System, id: nat)
    requires StampsPass(s, t) && WarmsPass(s, t) && id in s.warms && AnyWarmInv(s, id)
    ensures AnyWarmInv(t, id)
  {
    if s.warms[id].Checked? && id !in s.handles {
      StampKept(s, t, s.warms[id].stamp, s.warms[id].rows);
    }
  }

  lemma RunStepPasses(s: System, step: Step)
    requires RunInv(s) && Enabled(s, step) && IsRunStep(step)
    ensures var t := NextRun(s, step); t.files == s.files && StampsPass(s, t) && WarmsPass(s, t)
    ensures var t := NextRun(s, step); t.current == s.current || t.current.None?
  {
  }

  lemma RunTablesKept(s: System, step: Step)
    requires RunInv(s) && LiveInv(s) && Enabled(s, step) && IsRunStep(step)
    ensures RunInv(NextRun(s, step)) && LiveInv(NextRun(s, step))
  {
    if step.Commit? { DeltaMerges(s.run.before, step.removed, step.added, s.db.rows); }
  }

  lemma RunStepKeepsInv(s: System, step: Step)
    requires Inv(s) && Enabled(s, step) && IsRunStep(step)
    ensures Inv(NextRun(s, step))
  {
    var t := NextRun(s, step);
    RunStepPasses(s, step);
    RunTablesKept(s, step);
    if t.current.Some? && t.current.value in t.files {
      StampKept(s, t, s.files[s.current.value].stamp, s.files[s.current.value].rows);
    }
    forall id | id in t.warms ensures AnyWarmInv(t, id) { WarmKept(s, t, id); }
  }

  predicate IsIgnoreStep(step: Step) {
    step.IgnoreRows? || step.IgnoreBump? || step.IgnoreApply?
  }

  lemma IgnoreStampKept(s: System, step: Step, stamp: Stamp, rows: Rows)
    requires RunInv(s) && Enabled(s, step) && IsIgnoreStep(step) && StampedRows(s, stamp, rows)
    ensures StampedRows(NextIgnore(s, step), stamp, rows)
  {
    if step.IgnoreRows? { DeltaShrinks(s.db.rows, step.gone); }
  }

  lemma IgnoreReadsKept(s: System, step: Step, w: Warm)
    requires RunInv(s) && Enabled(s, step) && (step.IgnoreRows? || step.IgnoreBump?) && ReadsHold(s, w)
    ensures ReadsHold(NextIgnore(s, step), w)
  {
    if step.IgnoreRows? { DeltaShrinks(s.db.rows, step.gone); }
  }

  lemma IgnoreWarmKept(s: System, step: Step, id: nat)
    requires RunInv(s) && Enabled(s, step) && IsIgnoreStep(step) && id in s.warms && AnyWarmInv(s, id)
    ensures id in NextIgnore(s, step).warms && AnyWarmInv(NextIgnore(s, step), id)
  {
    var w := s.warms[id];
    if id !in s.handles {
      if w.Checked? { IgnoreStampKept(s, step, w.stamp, w.rows); }
      if w.scan == s.vi.epoch && !step.IgnoreApply? { IgnoreReadsKept(s, step, w); }
    }
  }

  lemma IgnoreTablesKept(s: System, step: Step)
    requires RunInv(s) && LiveInv(s) && Enabled(s, step) && IsIgnoreStep(step)
    ensures RunInv(NextIgnore(s, step)) && LiveInv(NextIgnore(s, step))
  {
    if step.IgnoreRows? { DeltaShrinks(s.db.rows, step.gone); }
  }

  /** A page of an ignore request: the table shrinks first, the shard after it, and the epoch that
      outdates the warms comes with the shard. */
  lemma IgnoreStepKeepsInv(s: System, step: Step)
    requires Inv(s) && Enabled(s, step) && IsIgnoreStep(step)
    ensures Inv(NextIgnore(s, step))
  {
    var t := NextIgnore(s, step);
    IgnoreTablesKept(s, step);
    if t.current.Some? && t.current.value in t.files {
      IgnoreStampKept(s, step, s.files[s.current.value].stamp, s.files[s.current.value].rows);
    }
    forall id | id in t.warms ensures AnyWarmInv(t, id) { IgnoreWarmKept(s, step, id); }
  }

  function Adopted(s: System, key: string): System {
    s.(db := s.db.(identity := Some(key)))
  }

  /** Only a database without a marker adopts one, and no warm has got past reading none. */
  lemma AdoptKeepsInv(s: System, key: string)
    requires Inv(s) && Enabled(s, Adopt(key))
    ensures Inv(Adopted(s, key))
  {
    var t := Adopted(s, key);
    if s.current.Some? && s.current.value in s.files {
      StampKept(s, t, s.files[s.current.value].stamp, s.files[s.current.value].rows);
    }
    forall id | id in t.warms ensures AnyWarmInv(t, id) {
      assert AnyWarmInv(s, id);
      if s.warms[id].Checked? && id !in s.handles { StampKept(s, t, s.warms[id].stamp, s.warms[id].rows); }
    }
  }

  // ---------------------------------------------------------------------------------------
  // Warms
  // ---------------------------------------------------------------------------------------

  predicate IsRead(step: Step) {
    step.WarmStart? || step.WarmCount? || step.WarmIdentity? || step.WarmStamp? || step.WarmOpen?
    || step.WarmScan? || step.WarmCheck?
  }

  /** What CURRENT names, when it validates for a warm whose epoch is current, is the present rows. */
  lemma UsableIsSame(s: System, w: Warm)
    requires CurrentInv(s) && ReadsHold(s, w) && (w.Stamped? || w.Mapped? || w.Persisted?) && Usable(s, w.stamp)
    ensures Same(s, s.files[s.current.value].rows)
  {
  }

  /** The reader itself, on the present database: starting and counting. */
  lemma StartKeepsWarm(s: System, step: Step)
    requires Enabled(s, step) && step.WarmStart? && step.id !in s.handles
    ensures var t := NextWarm(s, step); step.id in t.warms ==> WarmInv(t, t.warms[step.id])
  {
  }

  lemma CountKeepsWarm(s: System, step: Step)
    requires Enabled(s, step) && step.WarmCount?
    requires step.id !in s.handles && WarmInv(s, s.warms[step.id])
    ensures var t := NextWarm(s, step); step.id in t.warms ==> WarmInv(t, t.warms[step.id])
  {
  }

  lemma MarkerKeepsWarm(s: System, step: Step)
    requires Enabled(s, step) && step.WarmIdentity?
    requires step.id !in s.handles && WarmInv(s, s.warms[step.id])
    ensures var t := NextWarm(s, step); step.id in t.warms ==> WarmInv(t, t.warms[step.id])
  {
  }

  /** Taking the stamp and opening the file that matches it. */
  lemma StampReadsKeepWarm(s: System, step: Step)
    requires RunInv(s) && CurrentInv(s) && Enabled(s, step) && (step.WarmStamp? || step.WarmOpen?)
    requires step.id !in s.handles && WarmInv(s, s.warms[step.id])
    ensures var t := NextWarm(s, step); step.id in t.warms ==> WarmInv(t, t.warms[step.id])
  {
    if step.WarmOpen? && s.warms[step.id].scan == s.vi.epoch { UsableIsSame(s, s.warms[step.id]); }
  }

  lemma ScanKeepsWarm(s: System, step: Step)
    requires RunInv(s) && Enabled(s, step) && step.WarmScan?
    requires step.id !in s.handles && WarmInv(s, s.warms[step.id])
    ensures var t := NextWarm(s, step); step.id in t.warms ==> WarmInv(t, t.warms[step.id])
  {
    if s.run.Ignoring? { DeltaShrinks(s.run.before, s.run.gone); }
  }

  /** What passes the check is stamped for its rows, whatever happens afterwards. */
  lemma CheckedIsStamped(s: System, w: Warm)
    requires RunInv(s) && WarmInv(s, w) && w.Scanned? && Installable(s.vi, w.scan)
    ensures StampedRows(s, w.stamp, w.rows)
  {
    if s.run.Ignoring? { DeltaShrinks(s.run.before, s.run.gone); }
  }

  lemma CheckKeepsWarm(s: System, step: Step)
    requires RunInv(s) && Enabled(s, step) && step.WarmCheck?
    requires step.id !in s.handles && WarmInv(s, s.warms[step.id])
    ensures var t := NextWarm(s, step); step.id in t.warms ==> WarmInv(t, t.warms[step.id])
  {
    var w := s.warms[step.id];
    if Installable(s.vi, w.scan) { CheckedIsStamped(s, w); }
  }

  lemma ReadKeepsWarm(s: System, step: Step)
    requires RunInv(s) && CurrentInv(s) && Enabled(s, step) && IsRead(step) && step.id !in s.handles
    requires step.id in s.warms ==> WarmInv(s, s.warms[step.id])
    ensures var t := NextWarm(s, step); step.id in t.warms ==> WarmInv(t, t.warms[step.id])
  {
    if step.WarmCheck? { CheckKeepsWarm(s, step); }
    else if step.WarmScan? { ScanKeepsWarm(s, step); }
    else if step.WarmStamp? || step.WarmOpen? { StampReadsKeepWarm(s, step); }
    else if step.WarmIdentity? { MarkerKeepsWarm(s, step); }
    else if step.WarmCount? { CountKeepsWarm(s, step); }
    else { StartKeepsWarm(s, step); }
  }

  /** The reader itself, on a removed database. */
  lemma ReadKeepsOrphan(s: System, step: Step)
    requires Enabled(s, step) && IsRead(step) && step.id in s.handles && step.id in s.warms
    requires OrphanInv(s, s.warms[step.id], s.handles[step.id])
    ensures var t := NextWarm(s, step); step.id in t.warms ==> AnyWarmInv(t, step.id)
  {
  }

  /** Only the warm `id` differs, and reads the database it read. */
  ghost predicate OneWarmMoved(s: System, t: System, id: nat) {
    && t == s.(warms := t.warms, handles := t.handles)
    && t.handles.Keys <= t.warms.Keys
    && (id in t.warms ==> (id in t.handles <==> id in s.handles))
    && (forall i :: i in t.warms && i != id ==>
          && i in s.warms && t.warms[i] == s.warms[i]
          && (i in t.handles <==> i in s.handles)
          && (i in t.handles ==> t.handles[i] == s.handles[i]))
  }

  lemma EndedMovesOne(s: System, id: nat)
    requires s.handles.Keys <= s.warms.Keys
    ensures OneWarmMoved(s, Ended(s, id), id) && OneWarmMoved(s, s, id)
  {
  }

  lemma BecomeMovesOne(s: System, id: nat, w: Warm)
    requires s.handles.Keys <= s.warms.Keys
    ensures OneWarmMoved(s, Become(s, id, w), id)
  {
  }

  /** A read or check changes its warm alone. */
  lemma ReadTouchesOne(s: System, step: Step)
    requires Enabled(s, step) && IsRead(step) && s.handles.Keys <= s.warms.Keys
    ensures OneWarmMoved(s, NextWarm(s, step), step.id)
  {
    var t := NextWarm(s, step);
    EndedMovesOne(s, step.id);
    if step.id in t.warms { BecomeMovesOne(s, step.id, t.warms[step.id]); }
  }

  /** A warm is judged by the fence, the tables and the run alone. */
  lemma WarmUnaffected(s: System, t: System, id: nat)
    requires id in s.warms && AnyWarmInv(s, id) && id in t.warms && t.warms[id] == s.warms[id]
    requires t.vi.epoch == s.vi.epoch && t.vi.mutating == s.vi.mutating && t.db == s.db && t.run == s.run
    requires (id in t.handles <==> id in s.handles) && (id in s.handles ==> t.handles[id] == s.handles[id])
    ensures AnyWarmInv(t, id)
  {
  }

  lemma TablesUnaffected(s: System, t: System)
    requires LiveInv(s) && RunInv(s) && t.vi == s.vi && t.db == s.db && t.run == s.run
    ensures LiveInv(t) && RunInv(t)
    ensures CurrentInv(s) && t.files == s.files && (t.current == s.current || t.current.None?) ==> CurrentInv(t)
  {
  }

  lemma ReadKeepsReader(s: System, step: Step)
    requires Inv(s) && Enabled(s, step) && IsRead(step)
    ensures var t := NextWarm(s, step); step.id in t.warms ==> AnyWarmInv(t, step.id)
  {
    ReadTouchesOne(s, step);
    if step.id in s.warms { assert AnyWarmInv(s, step.id); }
    if step.id in s.handles { ReadKeepsOrphan(s, step); } else { ReadKeepsWarm(s, step); }
  }

  lemma WarmReadKeepsInv(s: System, step: Step)
    requires Inv(s) && Enabled(s, step) && IsRead(step)
    ensures Inv(NextWarm(s, step))
  {
    var t := NextWarm(s, step);
    ReadTouchesOne(s, step);
    TablesUnaffected(s, t);
    ReadKeepsReader(s, step);
    forall id | id in t.warms ensures AnyWarmInv(t, id) {
      if id != step.id { WarmUnaffected(s, t, id); }
    }
  }

  lemma PersistTouches(s: System, step: Step)
    requires Enabled(s, step) && step.WarmPersist?
    ensures var t := NextWarm(s, step);
            && t.vi == s.vi && t.db == s.db && t.run == s.run && t.handles == s.handles
            && t.warms.Keys == s.warms.Keys && t.warms[step.id].Persisted?
            && (forall id :: id in s.warms && id != step.id ==> t.warms[id] == s.warms[id])
  {
  }

  lemma PersistKeepsWarm(s: System, step: Step)
    requires Enabled(s, step) && step.WarmPersist? && step.id !in s.handles && WarmInv(s, s.warms[step.id])
    ensures var t := NextWarm(s, step); WarmInv(t, t.warms[step.id])
  {
  }

  lemma PersistKeepsCurrent(s: System, step: Step)
    requires CurrentInv(s) && Enabled(s, step) && step.WarmPersist? && WarmInv(s, s.warms[step.id])
    ensures CurrentInv(NextWarm(s, step))
  {
  }

  lemma WarmPersistKeepsInv(s: System, step: Step)
    requires Inv(s) && Enabled(s, step) && step.WarmPersist?
    ensures Inv(NextWarm(s, step))
  {
    var t := NextWarm(s, step);
    PersistTouches(s, step);
    TablesUnaffected(s, t);
    assert AnyWarmInv(s, step.id);
    PersistKeepsWarm(s, step);
    PersistKeepsCurrent(s, step);
    forall id | id in t.warms ensures AnyWarmInv(t, id) {
      if id != step.id { WarmUnaffected(s, t, id); }
    }
  }

  lemma OrphansInstallNothing(s: System, id: nat)
    requires Inv(s) && id in s.warms && Installs(s.warms[id]) && id in s.handles
    ensures !Installable(s.vi, s.warms[id].scan)
  {
    assert AnyWarmInv(s, id);
  }

  lemma InstallerIsCurrent(s: System, w: Warm, reopen: bool)
    requires CurrentInv(s) && RunInv(s) && WarmInv(s, w) && Installs(w) && Installable(s.vi, w.scan)
    ensures Same(s, InstallRows(s, w, reopen)) && s.db.identity == Some(w.key) && (s.run.NoRun? || s.run.Ignoring?)
  {
    if w.Persisted? && Usable(s, w.stamp) { UsableIsSame(s, w); }
  }

  /** The fence itself: whatever happened since the warm captured its epoch, a shard it manages to
      install, scanned or mapped by a matching stamp, is the chunk table at that moment, but for rows
      that an ignore request is taking out; and no index run is under way. */
  lemma InstalledShardIsCurrent(s: System, id: nat, reopen: bool)
    requires Inv(s) && id in s.warms && Installs(s.warms[id]) && Installable(s.vi, s.warms[id].scan)
    ensures id !in s.handles
    ensures Same(s, InstallRows(s, s.warms[id], reopen))
    ensures s.db.identity == Some(s.warms[id].key)
    ensures s.run.NoRun? || s.run.Ignoring?
  {
    if id in s.handles { OrphansInstallNothing(s, id); }
    assert AnyWarmInv(s, id);
    InstallerIsCurrent(s, s.warms[id], reopen);
  }

  lemma InstallTouches(s: System, step: Step)
    requires Enabled(s, step) && step.WarmInstall?
    ensures var t := NextWarm(s, step);
            && t.db == s.db && t.run == s.run && t.files == s.files && (t.current == s.current || t.current.None?)
            && t.warms == s.warms - {step.id} && t.handles == s.handles - {step.id}
            && t.vi == Installed(s.vi, Shard(InstallRows(s, s.warms[step.id], step.reopen), s.warms[step.id].key),
                                 s.warms[step.id].scan)
  {
  }

  lemma InstallKeepsTables(s: System, t: System, shard: Shard, scan: nat)
    requires LiveInv(s) && RunInv(s) && CurrentInv(s)
    requires t.vi == Installed(s.vi, shard, scan) && t.db == s.db && t.run == s.run && t.files == s.files
    requires t.current == s.current || t.current.None?
    requires Installable(s.vi, scan) ==>
               Same(s, shard.rows) && s.db.identity == Some(shard.identity) && (s.run.NoRun? || s.run.Ignoring?)
    ensures LiveInv(t) && RunInv(t) && CurrentInv(t)
    ensures t.vi.epoch == s.vi.epoch && t.vi.mutating == s.vi.mutating
  {
  }

  lemma WarmInstallKeepsInv(s: System, step: Step)
    requires Inv(s) && Enabled(s, step) && step.WarmInstall?
    ensures Inv(NextWarm(s, step))
  {
    var t, w := NextWarm(s, step), s.warms[step.id];
    InstallTouches(s, step);
    if Installable(s.vi, w.scan) { InstalledShardIsCurrent(s, step.id, step.reopen); }
    InstallKeepsTables(s, t, Shard(InstallRows(s, w, step.reopen), w.key), w.scan);
    forall id | id in t.warms ensures AnyWarmInv(t, id) { WarmUnaffected(s, t, id); }
  }

  // ---------------------------------------------------------------------------------------
  // Removals, the environment, and whole runs
  // ---------------------------------------------------------------------------------------

  /** A removal that finds nothing in its way leaves nothing of the old tables to come back. */
  lemma RemovalKeepsInv(s: System)
    requires Inv(s) && Enabled(s, Remove) && Quiet(s)
    ensures Inv(Removal(s))
  {
    var t := Removal(s);
    forall id | id in t.warms ensures AnyWarmInv(t, id) {
      assert AnyWarmInv(s, id);
    }
  }

  function Evicted(s: System): System {
    s.(vi := s.vi.(live := None))
  }

  lemma EvictKeepsInv(s: System)
    requires Inv(s)
    ensures Inv(Evicted(s))
  {
    forall id | id in s.warms ensures AnyWarmInv(Evicted(s), id) { WarmUnaffected(s, Evicted(s), id); }
  }

  lemma FilesKeepInv(s: System, t: System)
    requires Inv(s) && t == s.(files := t.files, current := t.current)
    requires t.current.Some? ==> t.current == s.current
    requires t.current.Some? && t.current.value in t.files ==>
               t.current.value in s.files && t.files[t.current.value] == s.files[t.current.value]
    ensures Inv(t)
  {
    forall id | id in t.warms ensures AnyWarmInv(t, id) { WarmUnaffected(s, t, id); }
  }

  /** Nothing of a removed repository that lies outside this one's shard is missed. */
  lemma NothingStripped(s: System, repo: Repo)
    requires NoneInside(s, repo)
    ensures Stripped(s.vi, repo) == s.vi
  {
    if s.vi.live.Some? {
      assert Outside(s.vi.live.value.rows, repo) == s.vi.live.value.rows;
    }
  }

  lemma OtherStepKeepsInv(s: System, step: Step)
    requires Inv(s) && Enabled(s, step) && Orderly(s, step)
    requires step.Crash? || step.Evict? || step.DropCurrent? || step.Reap? || step.RemoveOther?
    ensures Inv(Next(s, step))
  {
    if step.Evict? { EvictKeepsInv(s); }
    else if step.RemoveOther? { NothingStripped(s, step.repo); }
    else if step.DropCurrent? { FilesKeepInv(s, s.(current := None)); }
    else if step.Reap? { FilesKeepInv(s, s.(files := s.files - {step.dead})); }
  }

  lemma StepKeepsInv(s: System, step: Step)
    requires Inv(s) && Enabled(s, step) && Orderly(s, step)
    ensures Inv(Next(s, step))
  {
    if IsRunStep(step) { RunStepKeepsInv(s, step); }
    else if IsIgnoreStep(step) { IgnoreStepKeepsInv(s, step); }
    else if step.Adopt? { AdoptKeepsInv(s, step.key); }
    else if IsRead(step) { WarmReadKeepsInv(s, step); }
    else if step.WarmPersist? { WarmPersistKeepsInv(s, step); }
    else if step.WarmInstall? { WarmInstallKeepsInv(s, step); }
    else if step.Remove? { RemovalKeepsInv(s); }
    else { OtherStepKeepsInv(s, step); }
  }

  /** What `Inv` says of searches and of the next warm. */
  lemma InvIsCurrent(s: System)
    requires Inv(s)
    ensures !s.run.Ignoring? ==> LiveMatchesDb(s)
    ensures s.run.Ignoring? && s.vi.live.Some? ==> Delta(s.vi.live.value.rows, s.run.gone, map[]) == s.db.rows
    ensures forall key :: Usable(s, Stamp(key, |s.db.rows|, s.db.epoch)) ==> s.files[s.current.value].rows == s.db.rows
  {
  }

  /** Over every orderly run from boot, crashes included: a searchable shard is the chunk table, but
      for what an ignore request is taking out, and so is a persisted shard whose stamp matches. */
  lemma {:induction false} LiveShardIsTheDatabase(s: System, steps: seq<Step>)
    requires Inv(s) && Runs(s, steps) && OrderlyRun(s, steps)
    ensures var t := After(s, steps);
            && Inv(t)
            && (!t.run.Ignoring? ==> LiveMatchesDb(t))
            && (t.run.Ignoring? && t.vi.live.Some? ==> Delta(t.vi.live.value.rows, t.run.gone, map[]) == t.db.rows)
            && (forall key :: Usable(t, Stamp(key, |t.db.rows|, t.db.epoch)) ==>
                  t.files[t.current.value].rows == t.db.rows)
    decreases |steps|
  {
    if steps != [] {
      StepKeepsInv(s, steps[0]);
      LiveShardIsTheDatabase(Next(s, steps[0]), steps[1..]);
    } else {
      InvIsCurrent(s);
    }
  }

  lemma EveryRunFromBoot(steps: seq<Step>)
    requires Runs(BOOT, steps) && OrderlyRun(BOOT, steps)
    ensures !After(BOOT, steps).run.Ignoring? ==> LiveMatchesDb(After(BOOT, steps))
  {
    LiveShardIsTheDatabase(BOOT, steps);
  }

  /** Removing another repository leaves this one's shard in step with its table exactly when no row
      of the shard lies inside the other. */
  lemma RemoveOtherStripsExactly(s: System, repo: Repo)
    requires Inv(s) && !s.run.Ignoring?
    ensures LiveMatchesDb(Next(s, RemoveOther(repo))) <==> NoneInside(s, repo)
  {
    if NoneInside(s, repo) {
      NothingStripped(s, repo);
      InvIsCurrent(s);
    } else {
      var c :| c in s.vi.live.value.rows && PathInRepo(c.file, repo);
      assert c !in Outside(s.vi.live.value.rows, repo);
    }
  }

  /** A page whose deletion fails behind the chunk rows: the request ends without touching the shard. */
  ghost function FailedPage(s: System, gone: set<string>): System
    requires Enabled(s, IgnoreRows(gone))
  {
    Next(s, IgnoreRows(gone)).(run := NoRun)
  }

  /** The shard is then still in step with the table exactly when it held no row of the page's files. */
  lemma FailedPageIsMissedExactly(s: System, gone: set<string>)
    requires Inv(s) && s.run.NoRun?
    ensures LiveMatchesDb(FailedPage(s, gone))
            <==> (s.vi.live.Some? ==> forall c :: c in s.vi.live.value.rows ==> c.file !in gone)
  {
    if s.vi.live.Some? {
      var rows := s.vi.live.value.rows;
      if c :| c in rows && c.file in gone {
        assert c !in Delta(rows, gone, map[]);
      } else {
        assert Delta(rows, gone, map[]) == rows;
      }
    }
  }

  // ---------------------------------------------------------------------------------------
  // Runs step by step
  // ---------------------------------------------------------------------------------------

  /** An orderly run from `s` to `t`. */
  ghost predicate Leads(s: System, steps: seq<Step>, t: System)
    decreases |steps|
  {
    if steps == [] then s == t
    else Enabled(s, steps[0]) && Orderly(s, steps[0]) && Leads(Next(s, steps[0]), steps[1..], t)
  }

  lemma {:induction false} LeadsIsARun(s: System, steps: seq<Step>, t: System)
    requires Leads(s, steps, t)
    ensures Runs(s, steps) && OrderlyRun(s, steps) && After(s, steps) == t
    decreases |steps|
  {
    if steps != [] {
      LeadsIsARun(Next(s, steps[0]), steps[1..], t);
    }
  }

  lemma {:induction false} LeadsOn(s: System, first: seq<Step>, t: System, second: seq<Step>, u: System)
    requires Leads(s, first, t) && Leads(t, second, u)
    ensures Leads(s, first + second, u)
    decreases |first|
  {
    if first == [] {
      assert first + second == second;
    } else {
      LeadsOn(Next(s, first[0]), first[1..], t, second, u);
      assert (first + second)[1..] == first[1..] + second;
    }
  }

  lemma LeadsFrom(s: System, step: Step, rest: seq<Step>, t: System)
    requires Enabled(s, step) && Orderly(s, step) && Leads(Next(s, step), rest, t)
    ensures Leads(s, [step] + rest, t)
  {
    assert ([step] + rest)[1..] == rest;
  }

  lemma LeadsByOne(s: System, step: Step)
    requires Enabled(s, step) && Orderly(s, step)
    ensures Leads(s, [step], Next(s, step))
  {
    assert [step][1..] == [];
  }

  function Rewriting(s: System): System {
    s.(vi := BegunFull(s.vi), db := s.db.(identity := None, epoch := s.db.epoch + 1), run := Writing(Full, s.db.rows))
  }

  lemma StartsRewriting(s: System)
    requires s.run.NoRun?
    ensures Leads(s, [Begin(Full)] + ([ClearMarker] + [BumpIndexEpoch]), Rewriting(s))
  {
    var s1 := s.(vi := BegunFull(s.vi), run := Fenced(Full, s.db.rows));
    var s2 := s1.(db := s1.db.(identity := None), run := Unmarked(Full, s.db.rows));
    assert Next(s, Begin(Full)) == s1;
    assert Next(s1, ClearMarker) == s2;
    assert Next(s2, BumpIndexEpoch) == Rewriting(s);
    LeadsByOne(s2, BumpIndexEpoch);
    LeadsFrom(s1, ClearMarker, [BumpIndexEpoch], Rewriting(s));
    LeadsFrom(s, Begin(Full), [ClearMarker] + [BumpIndexEpoch], Rewriting(s));
  }

  function Rewritten(s: System, rows: Rows, key: string): System {
    s.(vi := PublishedFull(s.vi, rows, key), db := s.db.(rows := rows, identity := Some(key)), run := NoRun)
  }

  lemma EndsRewriting(s: System, rows: Rows, key: string)
    requires s.run.Writing? && s.run.kind.Full?
    ensures Leads(s, [WriteRows(rows)] + ([Commit({}, rows, key)] + [Publish]), Rewritten(s, rows, key))
  {
    var commit := Commit({}, rows, key);
    var s1 := s.(db := s.db.(rows := rows));
    var s2 := s1.(db := s1.db.(identity := Some(key)), run := Committed(Full, s.run.before, {}, rows, key));
    assert Next(s, WriteRows(rows)) == s1;
    assert Next(s1, commit) == s2;
    assert Next(s2, Publish) == Rewritten(s, rows, key);
    LeadsByOne(s2, Publish);
    LeadsFrom(s1, commit, [Publish], Rewritten(s, rows, key));
    LeadsFrom(s, WriteRows(rows), [commit] + [Publish], Rewritten(s, rows, key));
  }

  /** The tables and the shard after a full run that finds `rows`. */
  function Rebuilt(s: System, rows: Rows, key: string): System {
    Rewritten(Rewriting(s), rows, key)
  }

  lemma FullRun(s: System, rows: Rows, key: string) returns (steps: seq<Step>)
    requires s.run.NoRun?
    ensures Leads(s, steps, Rebuilt(s, rows, key))
  {
    StartsRewriting(s);
    EndsRewriting(Rewriting(s), rows, key);
    var first := [Begin(Full)] + ([ClearMarker] + [BumpIndexEpoch]);
    var second := [WriteRows(rows)] + ([Commit({}, rows, key)] + [Publish]);
    LeadsOn(s, first, Rewriting(s), second, Rebuilt(s, rows, key));
    steps := first + second;
  }

  /** A warm begun on the present database, up to its stamp. */
  function StampedWarm(s: System, id: nat, key: string): System {
    Become(s, id, Stamped(s.vi.epoch, key, Stamp(key, |s.db.rows|, s.db.epoch)))
  }

  lemma CountsAndMatches(s: System, id: nat, key: string)
    requires id !in s.handles && s.db.rows != map[] && s.db.identity == Some(key)
    ensures var scan, count := s.vi.epoch, |s.db.rows|;
            && Next(Become(s, id, Captured(scan, key)), WarmCount(id)) == Become(s, id, Counted(scan, key, count))
            && Next(Become(s, id, Counted(scan, key, count)), WarmIdentity(id))
               == Become(s, id, Matched(scan, key, count))
  {
    var scan, count := s.vi.epoch, |s.db.rows|;
    PutTwice(s.warms, id, Captured(scan, key), Counted(scan, key, count));
    PutTwice(s.warms, id, Counted(scan, key, count), Matched(scan, key, count));
  }

  lemma StampsAfterMatch(s: System, id: nat, key: string)
    requires id !in s.handles
    ensures Next(Become(s, id, Matched(s.vi.epoch, key, |s.db.rows|)), WarmStamp(id)) == StampedWarm(s, id, key)
  {
    var scan, count := s.vi.epoch, |s.db.rows|;
    PutTwice(s.warms, id, Matched(scan, key, count), Stamped(scan, key, Stamp(key, count, s.db.epoch)));
  }

  lemma WarmToMatch(s: System, id: nat, key: string) returns (steps: seq<Step>)
    requires id !in s.warms && id !in s.handles && !s.vi.mutating
    requires s.db.rows != map[] && s.db.identity == Some(key)
    ensures Leads(s, steps, Become(s, id, Matched(s.vi.epoch, key, |s.db.rows|)))
  {
    var scan, count := s.vi.epoch, |s.db.rows|;
    var t := Become(s, id, Matched(scan, key, count));
    CountsAndMatches(s, id, key);
    LeadsByOne(Become(s, id, Counted(scan, key, count)), WarmIdentity(id));
    LeadsFrom(Become(s, id, Captured(scan, key)), WarmCount(id), [WarmIdentity(id)], t);
    LeadsFrom(s, WarmStart(id, key), [WarmCount(id)] + [WarmIdentity(id)], t);
    steps := [WarmStart(id, key)] + ([WarmCount(id)] + [WarmIdentity(id)]);
  }

  lemma WarmToStamp(s: System, id: nat, key: string) returns (steps: seq<Step>)
    requires id !in s.warms && id !in s.handles && !s.vi.mutating
    requires s.db.rows != map[] && s.db.identity == Some(key)
    ensures Leads(s, steps, StampedWarm(s, id, key))
  {
    var t := Become(s, id, Matched(s.vi.epoch, key, |s.db.rows|));
    steps := WarmToMatch(s, id, key);
    StampsAfterMatch(s, id, key);
    LeadsByOne(t, WarmStamp(id));
    LeadsOn(s, steps, t, [WarmStamp(id)], StampedWarm(s, id, key));
    steps := steps + [WarmStamp(id)];
  }

  /** Why the epoch and not only the flag: an update that begins and publishes during a scan leaves
      `mutating` clear while the scanned rows no longer match. */
  lemma FlagAloneWouldInstallStaleRows() returns (steps: seq<Step>)
    ensures Runs(BOOT, steps) && OrderlyRun(BOOT, steps)
    ensures var s := After(BOOT, steps);
            0 in s.warms && s.warms[0].Scanned? && !s.vi.mutating && s.warms[0].rows != s.db.rows
  {
    var before: Rows, after: Rows := map[Chunk("a", 1, 2) := [1]], map[Chunk("b", 1, 2) := [2]];
    assert Chunk("a", 1, 2) in before && Chunk("a", 1, 2) !in after;
    var first := FullRun(BOOT, before, "m");
    var s1 := Rebuilt(BOOT, before, "m");
    var second := WarmToStamp(s1, 0, "m");
    var s2 := StampedWarm(s1, 0, "m");
    LeadsByOne(s2, WarmScan(0));
    var s3 := Next(s2, WarmScan(0));
    var third := FullRun(s3, after, "m");
    var s4 := Rebuilt(s3, after, "m");
    LeadsOn(s2, [WarmScan(0)], s3, third, s4);
    LeadsOn(s1, second, s2, [WarmScan(0)] + third, s4);
    steps := first + (second + ([WarmScan(0)] + third));
    LeadsOn(BOOT, first, s1, second + ([WarmScan(0)] + third), s4);
    LeadsIsARun(BOOT, steps, s4);
  }
}
