/**
 Removing a repository's index beside warms and the persisted shard
 (`src/engine_ops.rs`: the order of a removal; `src/vector/sharded.rs`: `remove_repo`;
 `src/vector/shard_file.rs`: the shard directory, which a removal leaves in place).

 A removal starts the tables and the index epoch over. It does not advance the mutation epoch, so a
 warm under way may still install, and it does not touch the shard files, whose stamps the restarted
 epoch can reach again. `Quiet` says when neither can happen.
 */
module RepoRemoval {
  import opened Options
  import opened ResidentCap
  import opened VectorIndex
  import opened WarmFence

  // ---------------------------------------------------------------------------------------
  // A warm that still installs
  // ---------------------------------------------------------------------------------------

  /** A warm on a removed database that nothing can stop any more. */
  predicate Ripe(s: System, id: nat) {
    && id in s.warms && id in s.handles
    && MayInstall(s, id)
    && (var w := s.warms[id];
        w.Mapped? || w.Scanned? || w.Checked? || w.Persisted? ==> w.rows == s.handles[id].rows)
  }

  function StepsLeft(w: Warm): nat {
    match w
    case Captured(_, _) => 7
    case Counted(_, _, _) => 6
    case Matched(_, _, _) => 5
    case Stamped(_, _, _) => 4
    case Scanned(_, _, _, _) => 3
    case Checked(_, _, _, _) => 2
    case Persisted(_, _, _, _, _) => 1
    case Mapped(_, _, _, _) => 1
  }

  function NextOf(id: nat, w: Warm): Step {
    match w
    case Captured(_, _) => WarmCount(id)
    case Counted(_, _, _) => WarmIdentity(id)
    case Matched(_, _, _) => WarmStamp(id)
    case Stamped(_, _, _) => WarmScan(id)
    case Scanned(_, _, _, _) => WarmCheck(id)
    case Checked(_, _, _, _) => WarmPersist(id, None)
    case Persisted(_, _, _, _, _) => WarmInstall(id, false)
    case Mapped(_, _, _, _) => WarmInstall(id, false)
  }

  predicate Progress(s: System, t: System, id: nat) {
    && Ripe(s, id) && Ripe(t, id) && StepsLeft(t.warms[id]) < StepsLeft(s.warms[id])
    && t.db == s.db && t.run == s.run && t.handles == s.handles
  }

  lemma RipeReads(s: System, id: nat)
    requires Ripe(s, id)
    requires var w := s.warms[id]; w.Captured? || w.Counted? || w.Matched? || w.Stamped?
    ensures Enabled(s, NextOf(id, s.warms[id])) && Progress(s, NextWarm(s, NextOf(id, s.warms[id])), id)
  {
  }

  lemma RipePersists(s: System, id: nat)
    requires Ripe(s, id) && (s.warms[id].Scanned? || s.warms[id].Checked?)
    ensures Enabled(s, NextOf(id, s.warms[id])) && Progress(s, NextWarm(s, NextOf(id, s.warms[id])), id)
  {
  }

  lemma RipeGoesOn(s: System, id: nat)
    requires Ripe(s, id) && !Installs(s.warms[id])
    ensures Enabled(s, NextOf(id, s.warms[id])) && Progress(s, Next(s, NextOf(id, s.warms[id])), id)
  {
    if s.warms[id].Scanned? || s.warms[id].Checked? { RipePersists(s, id); } else { RipeReads(s, id); }
  }

  lemma RipeInstalls(s: System, id: nat)
    requires Ripe(s, id) && Installs(s.warms[id])
    ensures Enabled(s, WarmInstall(id, false))
    ensures var t := Next(s, WarmInstall(id, false));
            t.db == s.db && t.run == s.run && t.vi.live == Some(Shard(s.handles[id].rows, s.warms[id].key))
  {
  }

  lemma {:induction false} RipeFinishes(s: System, id: nat) returns (steps: seq<Step>, t: System)
    requires Ripe(s, id)
    ensures Leads(s, steps, t) && t.db == s.db && t.run == s.run
    ensures t.vi.live.Some? && t.vi.live.value.rows == s.handles[id].rows
    decreases StepsLeft(s.warms[id])
  {
    var step := NextOf(id, s.warms[id]);
    if Installs(s.warms[id]) {
      RipeInstalls(s, id);
      LeadsByOne(s, step);
      steps, t := [step], Next(s, step);
    } else {
      RipeGoesOn(s, id);
      steps, t := RipeFinishes(Next(s, step), id);
      LeadsFrom(s, step, steps, t);
      steps := [step] + steps;
    }
  }

  // ---------------------------------------------------------------------------------------
  // A shard file that validates again
  // ---------------------------------------------------------------------------------------

  function Filler(n: nat, v: int): (rows: Rows)
    ensures n > 0 ==> Chunk("f", 0, 0) in rows && rows[Chunk("f", 0, 0)] == [v]
    ensures forall c :: c in rows ==> c.lineStart < n
    ensures |rows| == n
  {
    if n == 0 then map[] else Filler(n - 1, v)[Chunk("f", n - 1, n - 1) := [v]]
  }

  /** Other rows of the same number. */
  lemma OtherRows(rows: Rows, n: nat) returns (other: Rows)
    requires n > 0
    ensures |other| == n && other != map[] && other != rows
  {
    other := Filler(n, 0);
    if other == rows { other := Filler(n, 1); }
    assert Chunk("f", 0, 0) in other;
  }

  /** Full runs of the same rows, until the index epoch is `epoch`. */
  lemma {:induction false} RunsTo(s: System, rows: Rows, key: string, epoch: nat) returns (steps: seq<Step>, t: System)
    requires s.run.NoRun? && s.db.epoch < epoch
    ensures Leads(s, steps, t) && t.db == Db(rows, Some(key), epoch) && !t.vi.mutating
    ensures t.run.NoRun? && t.files == s.files && t.current == s.current && t.warms == s.warms && t.handles == s.handles
    decreases epoch - s.db.epoch
  {
    steps := FullRun(s, rows, key);
    t := Rebuilt(s, rows, key);
    if t.db.epoch < epoch {
      var more: seq<Step>, u := RunsTo(t, rows, key, epoch);
      LeadsOn(s, steps, t, more, u);
      steps, t := steps + more, u;
    }
  }

  /** A warm that finds CURRENT validating installs the file's rows. */
  lemma OpensCurrent(s: System, key: string) returns (steps: seq<Step>, t: System)
    requires s.warms == map[] && s.handles == map[] && !s.vi.mutating
    requires s.db.rows != map[] && s.db.identity == Some(key)
    requires Usable(s, Stamp(key, |s.db.rows|, s.db.epoch)) && s.files[s.current.value].rows != map[]
    ensures Leads(s, steps, t) && t.db == s.db && t.run == s.run
    ensures t.vi.live.Some? && t.vi.live.value.rows == s.files[s.current.value].rows
  {
    var s1 := StampedWarm(s, 0, key);
    steps := WarmToStamp(s, 0, key);
    t := OpenAndInstall(s1, 0);
    LeadsByOne(s1, WarmOpen(0));
    var s2 := Next(s1, WarmOpen(0));
    LeadsByOne(s2, WarmInstall(0, false));
    LeadsOn(s1, [WarmOpen(0)], s2, [WarmInstall(0, false)], t);
    LeadsOn(s, steps, s1, [WarmOpen(0)] + [WarmInstall(0, false)], t);
    steps := steps + ([WarmOpen(0)] + [WarmInstall(0, false)]);
  }

  lemma OpenAndInstall(s: System, id: nat) returns (t: System)
    requires id in s.warms && s.warms[id].Stamped? && Usable(s, s.warms[id].stamp)
    requires Installable(s.vi, s.warms[id].scan) && s.files[s.current.value].rows != map[]
    ensures Enabled(s, WarmOpen(id)) && Enabled(Next(s, WarmOpen(id)), WarmInstall(id, false))
    ensures t == Next(Next(s, WarmOpen(id)), WarmInstall(id, false))
    ensures t.db == s.db && t.run == s.run && t.vi.live.Some? && t.vi.live.value.rows == s.files[s.current.value].rows
  {
    var s1 := Next(s, WarmOpen(id));
    t := Next(s1, WarmInstall(id, false));
  }

  /** After a restart on an empty database, an old shard file can be served for other rows: the runs
      that bring the epoch back to its stamp drop CURRENT at their best effort only, and a crash can
      come before. */
  lemma FileComesBack(s: System) returns (steps: seq<Step>, t: System)
    requires s.vi == FRESH && s.run.NoRun? && s.warms == map[] && s.handles == map[] && s.db == NEW_DB
    requires s.current.Some? && s.current.value in s.files
    requires var f := s.files[s.current.value]; f.rows != map[] && 0 < f.stamp.epoch && 0 < f.stamp.count
    ensures Leads(s, steps, t) && t.run.NoRun? && !LiveMatchesDb(t)
  {
    var f := s.files[s.current.value];
    var rows := OtherRows(f.rows, f.stamp.count);
    var first, s1 := RunsTo(s, rows, f.stamp.identity, f.stamp.epoch);
    var second: seq<Step>;
    second, t := OpensCurrent(s1, f.stamp.identity);
    LeadsOn(s, first, s1, second, t);
    steps := first + second;
  }

  // ---------------------------------------------------------------------------------------
  // The exact condition
  // ---------------------------------------------------------------------------------------

  lemma {:induction false} FreshGeneration(used: set<nat>) returns (g: nat)
    ensures g !in used && forall u :: u in used ==> u < g
  {
    if used == {} {
      g := 0;
    } else {
      var u :| u in used;
      g := FreshGeneration(used - {u});
      if g <= u { g := u + 1; }
      assert forall v :: v in used ==> v == u || v in used - {u};
    }
  }

  /** A warm that may install has read nothing but the rows the removal takes away. */
  lemma WarmsGoOn(s: System, id: nat) returns (steps: seq<Step>, t: System)
    requires Inv(s) && s.run.NoRun? && id in s.warms && MayInstall(s, id)
    ensures Leads(Removal(s), steps, t) && t.run.NoRun? && !LiveMatchesDb(t)
  {
    assert AnyWarmInv(s, id);
    steps, t := RipeFinishes(Removal(s), id);
  }

  /** What CURRENT names survives a crash, and the tables start over. */
  lemma CurrentSurvives(s: System) returns (steps: seq<Step>, t: System)
    requires s.run.NoRun? && s.db == NEW_DB && s.current.Some? && s.current.value in s.files
    requires var f := s.files[s.current.value]; f.rows != map[] && 0 < f.stamp.epoch && 0 < f.stamp.count
    ensures Leads(s, steps, t) && t.run.NoRun? && !LiveMatchesDb(t)
  {
    var s1 := Next(s, Crash);
    steps, t := FileComesBack(s1);
    LeadsFrom(s, Crash, steps, t);
    steps := [Crash] + steps;
  }

  /** A warm that has passed its check writes its file, whether or not it can still install. */
  lemma CheckedWarmPersists(s: System, id: nat) returns (steps: seq<Step>, t: System)
    requires Inv(s) && s.run.NoRun? && id in s.warms && s.warms[id].Checked?
    ensures Leads(Removal(s), steps, t) && t.run.NoRun? && !LiveMatchesDb(t)
  {
    assert AnyWarmInv(s, id);
    var g := FreshGeneration(s.files.Keys);
    var step := WarmPersist(id, Some(g));
    var s1 := Next(Removal(s), step);
    steps, t := CurrentSurvives(s1);
    LeadsFrom(Removal(s), step, steps, t);
    steps := [step] + steps;
  }

  /** A removal with something in its way: some orderly continuation makes rows searchable that are
      not in the table. */
  lemma UnquietRemovalBringsRowsBack(s: System) returns (steps: seq<Step>)
    requires Inv(s) && s.run.NoRun? && !Quiet(s)
    ensures Runs(Removal(s), steps) && OrderlyRun(Removal(s), steps)
    ensures After(Removal(s), steps).run.NoRun? && !LiveMatchesDb(After(Removal(s), steps))
  {
    var t: System;
    if id :| id in s.warms && s.warms[id].Checked? {
      steps, t := CheckedWarmPersists(s, id);
    } else if id :| id in s.warms && MayInstall(s, id) {
      steps, t := WarmsGoOn(s, id);
    } else {
      steps, t := CurrentSurvives(Removal(s));
    }
    LeadsIsARun(Removal(s), steps, t);
  }

  /** A removal with nothing in its way is harmless in every orderly continuation. */
  lemma QuietRemovalIsHarmless(s: System, steps: seq<Step>)
    requires Inv(s) && s.run.NoRun? && Quiet(s)
    requires Runs(Removal(s), steps) && OrderlyRun(Removal(s), steps)
    ensures !After(Removal(s), steps).run.Ignoring? ==> LiveMatchesDb(After(Removal(s), steps))
  {
    RemovalKeepsInv(s);
    LiveShardIsTheDatabase(Removal(s), steps);
  }
}
