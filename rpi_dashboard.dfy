/** Model of RPi_Dashboard.py: a one-minute log of system samples and the
    series a plotting callback draws from it.

    The log is a Python dict keyed by sample time; here it is the sequence
    of its (key, sample) pairs in insertion order, with distinct keys. Times
    are whole microseconds, the resolution of `datetime`. Sampling (psutil)
    and plotting (matplotlib, cartopy) are external: a sample is passed in,
    and the extracted series are returned instead of drawn. */
module RpiDashboard {

  // The two scripts share no code, so each module declares its own units.
  const MICROS_PER_SECOND: int := 1_000_000

  /** `sysStatsLogLengthInSecs = 60`. */
  const SYS_STATS_LOG_LENGTH: int := 60 * MICROS_PER_SECOND

  /** `timedelta(seconds=21)`: the globe's redraw period. */
  const GLOBE_UPDATE_INTERVAL: int := 21 * MICROS_PER_SECOND

  /** `updateAxes.__call__` draws one bar series per CPU for the first four
      CPUs (`zip(range(4), cpuColors)`). */
  const CPU_BARS: int := 4

  /** Why a step raises: `max` of no keys, a transpose of rows of different
      lengths (both in `extractSysStats`), or `cpuPercent[idx]` past the last
      CPU row when drawing the bars. */
  datatype Failure = EmptyLog | RaggedCpuRows | MissingCpuRow

  datatype Result<T> = Ok(value: T) | Err(error: Failure)

  /** The record `updateSysStats` stores: per-CPU load, memory use and the
      CPU temperature. */
  datatype Sample = Sample(cpuPercent: seq<int>, memPercent: int, cpuTempCel: int)

  /** A dict item: sample time and sample. */
  type Entry = (int, Sample)

  /** The `cpnt` argument of `extractSysStats`. */
  datatype Component = Time | CpuPercent | MemPercent | CpuTempCel

  /** What `extractSysStats` returns: one list, or the transposed CPU table. */
  datatype Extracted = Series(values: seq<int>) | Grid(rows: seq<seq<int>>)

  predicate HasKey(log: seq<Entry>, k: int)
  {
    exists i :: 0 <= i < |log| && log[i].0 == k
  }

  /** Dict keys are unique. */
  predicate DistinctKeys(log: seq<Entry>)
  {
    forall i, j :: 0 <= i < j < |log| ==> log[i].0 != log[j].0
  }

  /** Where key `k` stands. */
  function IndexOf(log: seq<Entry>, k: int): (i: nat)
    requires HasKey(log, k)
    ensures i < |log| && log[i].0 == k
    ensures forall j :: 0 <= j < i ==> log[j].0 != k
  {
    if log[0].0 == k then 0
    else
      assert HasKey(log[1..], k) by {
        var i :| 0 <= i < |log| && log[i].0 == k;
        assert log[1..][i - 1] == log[i];
      }
      var i := IndexOf(log[1..], k);
      assert log[i + 1] == log[1..][i];
      assert forall j :: 1 <= j < i + 1 ==> log[j] == log[1..][j - 1];
      i + 1
  }

  /** `sysStats[k] = v`: an existing key keeps its place and gets the new
      value, a new key goes at the end. */
  function Insert(log: seq<Entry>, k: int, v: Sample): (r: seq<Entry>)
    requires DistinctKeys(log)
    ensures DistinctKeys(r)
    ensures (k, v) in r
    ensures forall e :: e in r ==> e == (k, v) || (e in log && e.0 != k)
    ensures forall e :: e in log && e.0 != k ==> e in r
    ensures |r| == if HasKey(log, k) then |log| else |log| + 1
  {
    if HasKey(log, k) then
      var i := IndexOf(log, k);
      var r := log[i := (k, v)];
      assert r[i] == (k, v);
      assert forall e :: e in r ==> e == (k, v) || (e in log && e.0 != k) by {
        forall e | e in r ensures e == (k, v) || (e in log && e.0 != k) {
          var j :| 0 <= j < |r| && r[j] == e;
          if j != i {
            assert e == log[j];
          }
        }
      }
      assert forall e :: e in log && e.0 != k ==> e in r by {
        forall e | e in log && e.0 != k ensures e in r {
          var j :| 0 <= j < |log| && log[j] == e;
          assert r[j] == e;
        }
      }
      r
    else
      var r := log + [(k, v)];
      assert forall j :: 0 <= j < |log| ==> log[j].0 != k;
      assert r[|log|] == (k, v);
      r
  }

  /** The comprehension of line 27: keep the entries younger than the
      log length, in order. */
  function Prune(log: seq<Entry>, now: int): seq<Entry>
  {
    if log == [] then []
    else (if now - log[0].0 < SYS_STATS_LOG_LENGTH then [log[0]] else []) + Prune(log[1..], now)
  }

  /** An entry survives pruning iff it is younger than the log length, and
      nothing is added. */
  lemma {:induction false} PruneKeeps(log: seq<Entry>, now: int)
    ensures |Prune(log, now)| <= |log|
    ensures forall e :: e in Prune(log, now) <==> e in log && now - e.0 < SYS_STATS_LOG_LENGTH
  {
    if log != [] {
      var rest := Prune(log[1..], now);
      PruneKeeps(log[1..], now);
      assert forall e :: e in log <==> e == log[0] || e in log[1..];
      if now - log[0].0 < SYS_STATS_LOG_LENGTH {
        assert forall e :: e in [log[0]] + rest <==> e == log[0] || e in rest;
      }
    }
  }

  /** Pruning never duplicates a key. */
  lemma {:induction false} PruneKeepsDistinct(log: seq<Entry>, now: int)
    requires DistinctKeys(log)
    ensures DistinctKeys(Prune(log, now))
  {
    if log != [] {
      var rest := Prune(log[1..], now);
      PruneKeepsDistinct(log[1..], now);
      if now - log[0].0 < SYS_STATS_LOG_LENGTH {
        PruneKeeps(log[1..], now);
        var r := [log[0]] + rest;
        assert forall i :: 1 <= i < |r| ==> r[i] == rest[i - 1];
        forall e | e in rest ensures e.0 != log[0].0 {
          var i :| 0 <= i < |log[1..]| && log[1..][i] == e;
          assert log[i + 1] == e;
        }
      }
    }
  }

  /** `updateSysStats` with the sample `s` taken at `now`. */
  function UpdateSysStats(log: seq<Entry>, now: int, s: Sample): (r: seq<Entry>)
    requires DistinctKeys(log)
    ensures DistinctKeys(r)
    ensures (now, s) in r
    ensures forall j :: 0 <= j < |r| ==> now - r[j].0 < SYS_STATS_LOG_LENGTH
    ensures forall e :: e in log && e.0 != now ==> (e in r <==> now - e.0 < SYS_STATS_LOG_LENGTH)
    ensures forall e :: e in r ==> e == (now, s) || (e in log && e.0 != now)
    ensures |r| <= |log| + 1
  {
    var ins := Insert(log, now, s);
    PruneKeeps(ins, now);
    PruneKeepsDistinct(ins, now);
    var r := Prune(ins, now);
    assert forall j :: 0 <= j < |r| ==> r[j] in r;
    r
  }

  // ---------------------------------------------------------------------
  // Order: what `updateSysStats` keeps stays in insertion order.

  /** `xs` is `ys` with some elements deleted. */
  predicate Sublist<T(==)>(xs: seq<T>, ys: seq<T>)
    decreases |ys|
  {
    xs == [] ||
    (ys != [] && ((xs[0] == ys[0] && Sublist(xs[1..], ys[1..])) || Sublist(xs, ys[1..])))
  }

  lemma {:induction false} PruneIsSublist(log: seq<Entry>, now: int)
    ensures Sublist(Prune(log, now), log)
  {
    if log != [] {
      var rest := Prune(log[1..], now);
      PruneIsSublist(log[1..], now);
      if now - log[0].0 < SYS_STATS_LOG_LENGTH {
        var r := [log[0]] + rest;
        assert r[0] == log[0] && r[1..] == rest;
      } else {
        assert Prune(log, now) == [] + rest == rest;
      }
    }
  }

  lemma {:induction false} PruneAppend(a: seq<Entry>, b: seq<Entry>, now: int)
    ensures Prune(a + b, now) == Prune(a, now) + Prune(b, now)
  {
    if a == [] {
      assert a + b == b;
    } else {
      var ab := a + b;
      assert ab[0] == a[0] && ab[1..] == a[1..] + b;
      var head := if now - a[0].0 < SYS_STATS_LOG_LENGTH then [a[0]] else [];
      var restA, restB := Prune(a[1..], now), Prune(b, now);
      PruneAppend(a[1..], b, now);
      assert Prune(ab, now) == head + (restA + restB);
      assert head + (restA + restB) == (head + restA) + restB;
    }
  }

  /** A sample at a new time goes after every entry that is kept. */
  lemma UpdateAppendsNewest(log: seq<Entry>, now: int, s: Sample)
    requires DistinctKeys(log) && !HasKey(log, now)
    ensures UpdateSysStats(log, now, s) == Prune(log, now) + [(now, s)]
  {
    PruneAppend(log, [(now, s)], now);
    assert Prune([(now, s)], now) == [(now, s)];
  }

  /** A sample at a time already logged replaces that entry where it stands. */
  lemma UpdateReplacesInPlace(log: seq<Entry>, i: nat, s: Sample)
    requires i < |log| && DistinctKeys(log)
    ensures var now := log[i].0;
      UpdateSysStats(log, now, s) == Prune(log[..i], now) + [(now, s)] + Prune(log[i + 1..], now)
  {
    var now := log[i].0;
    assert HasKey(log, now);
    assert IndexOf(log, now) == i;
    assert log[i := (now, s)] == log[..i] + [(now, s)] + log[i + 1..];
    PruneAppend(log[..i] + [(now, s)], log[i + 1..], now);
    PruneAppend(log[..i], [(now, s)], now);
    assert Prune([(now, s)], now) == [(now, s)];
  }

  // ---------------------------------------------------------------------
  // `extractSysStats`.

  function Keys(log: seq<Entry>): seq<int>
  {
    seq(|log|, j requires 0 <= j < |log| => log[j].0)
  }

  /** `max` over a non-empty list of times. */
  function MaxKey(ks: seq<int>): (m: int)
    requires |ks| > 0
    ensures m in ks
    ensures forall j :: 0 <= j < |ks| ==> ks[j] <= m
  {
    if |ks| == 1 then ks[0]
    else
      var t := MaxKey(ks[1..]);
      assert forall j :: 1 <= j < |ks| ==> ks[j] == ks[1..][j - 1];
      if ks[0] >= t then ks[0] else t
  }

  /** `extractSysStats(m, 'time')`: each key's offset from the latest key. */
  function TimeOffsets(log: seq<Entry>): (r: Result<seq<int>>)
    ensures r.Err? <==> log == []
    ensures r.Err? ==> r.error == EmptyLog
    ensures r.Ok? ==> |r.value| == |log|
    ensures r.Ok? ==> forall j :: 0 <= j < |log| ==> r.value[j] == log[j].0 - MaxKey(Keys(log)) <= 0
    ensures r.Ok? ==> forall j :: 0 <= j < |log| ==>
      (r.value[j] == 0 <==> forall i :: 0 <= i < |log| ==> log[i].0 <= log[j].0)
    ensures r.Ok? ==> exists j :: 0 <= j < |log| && r.value[j] == 0
  {
    if log == [] then Err(EmptyLog)
    else
      var ks := Keys(log);
      var last := MaxKey(ks);
      var offsets := seq(|log|, j requires 0 <= j < |log| => log[j].0 - last);
      assert forall j :: 0 <= j < |log| ==> ks[j] == log[j].0;
      var w :| 0 <= w < |ks| && ks[w] == last;
      assert offsets[w] == 0;
      assert forall j :: 0 <= j < |log| ==> offsets[j] <= 0;
      assert forall j :: 0 <= j < |log| ==>
        (offsets[j] == 0 <==> forall i :: 0 <= i < |log| ==> log[i].0 <= log[j].0) by {
        forall j | 0 <= j < |log|
          ensures offsets[j] == 0 <==> forall i :: 0 <= i < |log| ==> log[i].0 <= log[j].0
        {
          assert log[w].0 == last;
        }
      }
      Ok(offsets)
  }

  /** `extractSysStats(m, 'memPercent')` and `extractSysStats(m, 'cpuTempCel')`. */
  function Column(log: seq<Entry>, c: Component): (r: seq<int>)
    requires c == MemPercent || c == CpuTempCel
    ensures |r| == |log|
    ensures forall j :: 0 <= j < |log| ==>
      r[j] == if c == MemPercent then log[j].1.memPercent else log[j].1.cpuTempCel
  {
    seq(|log|, j requires 0 <= j < |log| =>
      if c == MemPercent then log[j].1.memPercent else log[j].1.cpuTempCel)
  }

  /** The list `[v['cpuPercent'] for v in ...]` before the transpose. */
  function CpuRows(log: seq<Entry>): seq<seq<int>>
  {
    seq(|log|, j requires 0 <= j < |log| => log[j].1.cpuPercent)
  }

  predicate Rectangular(rows: seq<seq<int>>)
  {
    forall j :: 0 <= j < |rows| ==> |rows[j]| == |rows[0]|
  }

  /** `np.transpose` of a list of equally long rows. */
  function Transpose(rows: seq<seq<int>>): (r: Result<seq<seq<int>>>)
    ensures r.Ok? <==> Rectangular(rows)
    ensures r.Err? ==> r.error == RaggedCpuRows
    ensures r.Ok? && rows == [] ==> r.value == []
    ensures r.Ok? && rows != [] ==> |r.value| == |rows[0]|
    ensures r.Ok? ==> forall c :: 0 <= c < |r.value| ==>
      |r.value[c]| == |rows| && forall j :: 0 <= j < |rows| ==> r.value[c][j] == rows[j][c]
  {
    if !Rectangular(rows) then Err(RaggedCpuRows)
    else if rows == [] then Ok([])
    else
      Ok(seq(|rows[0]|, c requires 0 <= c < |rows[0]| =>
        seq(|rows|, j requires 0 <= j < |rows| => rows[j][c])))
  }

  /** Transposing a non-empty table twice gives it back. */
  lemma TransposeTwice(rows: seq<seq<int>>)
    requires Rectangular(rows) && |rows| > 0 && |rows[0]| > 0
    ensures Transpose(rows).Ok?
    ensures Transpose(Transpose(rows).value) == Ok(rows)
  {
    var t := Transpose(rows).value;
    assert Rectangular(t);
    var tt := Transpose(t).value;
    assert |tt| == |rows|;
    forall j | 0 <= j < |rows|
      ensures tt[j] == rows[j]
    {
      assert |tt[j]| == |rows[j]|;
      forall c | 0 <= c < |rows[j]|
        ensures tt[j][c] == rows[j][c]
      {
        assert tt[j][c] == t[c][j];
      }
    }
    assert tt == rows;
  }

  /** `extractSysStats(sysStats, cpnt)`. */
  function ExtractSysStats(log: seq<Entry>, c: Component): (r: Result<Extracted>)
    ensures r.Err? <==> (c == Time && log == []) || (c == CpuPercent && !Rectangular(CpuRows(log)))
    ensures r.Ok? && c != CpuPercent ==> r.value.Series? && |r.value.values| == |log|
    ensures r.Ok? && c == CpuPercent ==> r.value.Grid?
    ensures r.Err? ==> r.error == if c == Time then EmptyLog else RaggedCpuRows
    ensures c == Time && r.Ok? ==> r.value == Series(TimeOffsets(log).value)
    ensures c == MemPercent || c == CpuTempCel ==> r == Ok(Series(Column(log, c)))
    ensures c == CpuPercent && r.Ok? ==> r.value == Grid(Transpose(CpuRows(log)).value)
  {
    match c
    case Time =>
      (match TimeOffsets(log)
       case Ok(offsets) => Ok(Series(offsets))
       case Err(e) => Err(e))
    case CpuPercent =>
      (match Transpose(CpuRows(log))
       case Ok(t) => Ok(Grid(t))
       case Err(e) => Err(e))
    case _ => Ok(Series(Column(log, c)))
  }

  /** After an update with no sample from the future, the latest key is
      the new sample's time. */
  lemma UpdatedLatestIsNow(log: seq<Entry>, now: int, s: Sample)
    requires DistinctKeys(log)
    requires forall e :: e in log ==> e.0 <= now
    ensures var r := UpdateSysStats(log, now, s); |r| > 0 && MaxKey(Keys(r)) == now
  {
    var r := UpdateSysStats(log, now, s);
    var ks := Keys(r);
    var i :| 0 <= i < |r| && r[i] == (now, s);
    assert ks[i] == now;
    var m := MaxKey(ks);
    var w :| 0 <= w < |ks| && ks[w] == m;
    var e := r[w];
    assert e in r && ks[w] == e.0;
    assert e == (now, s) || e in log;
  }

  /** After an update with no sample from the future, every time offset lies
      in the plotted window (-60 s, 0]. */
  lemma UpdatedOffsetsInWindow(log: seq<Entry>, now: int, s: Sample)
    requires DistinctKeys(log)
    requires forall e :: e in log ==> e.0 <= now
    ensures var r := UpdateSysStats(log, now, s);
      TimeOffsets(r).Ok? &&
      forall j :: 0 <= j < |r| ==> -SYS_STATS_LOG_LENGTH < TimeOffsets(r).value[j] <= 0
  {
    UpdatedLatestIsNow(log, now, s);
  }

  /** A sample at a new time is the last point of every plotted series. */
  lemma NewestPlottedLast(log: seq<Entry>, now: int, s: Sample)
    requires DistinctKeys(log) && !HasKey(log, now)
    ensures var r := UpdateSysStats(log, now, s);
      |r| > 0 &&
      CpuRows(r)[|r| - 1] == s.cpuPercent &&
      Column(r, MemPercent)[|r| - 1] == s.memPercent &&
      Column(r, CpuTempCel)[|r| - 1] == s.cpuTempCel
  {
    UpdateAppendsNewest(log, now, s);
    var r := UpdateSysStats(log, now, s);
    assert r[|r| - 1] == (now, s);
  }

  // ---------------------------------------------------------------------
  // The globe gate of `updateAxes.__call__`.

  datatype GateStep = GateStep(fired: bool, deadline: int)

  /** Redraw when the latest sample is past the deadline; the deadline then
      moves on by the period from where it was, not from the sample time. */
  function GlobeGate(latest: int, deadline: int): (g: GateStep)
    ensures g.fired <==> latest > deadline
    ensures g.fired ==> g.deadline == deadline + GLOBE_UPDATE_INTERVAL
    ensures !g.fired ==> g.deadline == deadline
  {
    if latest > deadline then GateStep(true, deadline + GLOBE_UPDATE_INTERVAL)
    else GateStep(false, deadline)
  }

  /** Consecutive calls of the gate, `latests[i]` being the latest key in
      the log at the `i`-th frame (every frame first logs a new sample):
      where the deadline ends up and how many frames redrew the globe. */
  function GlobeFrames(latests: seq<int>, deadline: int): (GateStep, nat)
  {
    if latests == [] then (GateStep(false, deadline), 0)
    else
      var (prev, fires) := GlobeFrames(latests[..|latests| - 1], deadline);
      var g := GlobeGate(latests[|latests| - 1], prev.deadline);
      (g, fires + if g.fired then 1 else 0)
  }

  /** Every redraw moves the deadline by exactly one period, and nothing
      else moves it. */
  lemma {:induction false} GlobeDeadlineCounts(latests: seq<int>, deadline: int)
    ensures GlobeFrames(latests, deadline).0.deadline == deadline + GLOBE_UPDATE_INTERVAL * GlobeFrames(latests, deadline).1
  {
    if latests != [] {
      GlobeDeadlineCounts(latests[..|latests| - 1], deadline);
    }
  }

  /** After an idle gap the gate fires on every frame while the frame's
      latest key is past the deadline as it stands then: the deadline
      advances from the old deadline, so missed periods are redrawn one
      per frame. */
  lemma {:induction false} GlobeCatchesUp(latests: seq<int>, deadline: int)
    requires forall i :: 0 <= i < |latests| ==> latests[i] > deadline + GLOBE_UPDATE_INTERVAL * i
    ensures GlobeFrames(latests, deadline).0.deadline == deadline + GLOBE_UPDATE_INTERVAL * |latests|
    ensures GlobeFrames(latests, deadline).1 == |latests|
  {
    if latests != [] {
      var init := latests[..|latests| - 1];
      assert forall i :: 0 <= i < |init| ==> init[i] == latests[i];
      GlobeCatchesUp(init, deadline);
    }
  }

  /** While no frame's latest key passes the deadline, the gate stays shut. */
  lemma {:induction false} GlobeStaysShut(latests: seq<int>, deadline: int)
    requires forall i :: 0 <= i < |latests| ==> latests[i] <= deadline
    ensures GlobeFrames(latests, deadline).0.deadline == deadline
    ensures GlobeFrames(latests, deadline).1 == 0
  {
    if latests != [] {
      var init := latests[..|latests| - 1];
      assert forall i :: 0 <= i < |init| ==> init[i] == latests[i];
      GlobeStaysShut(init, deadline);
    }
  }

  /** The globe redraws at most once per period: when every frame's latest
      key is at most `last`, the frames before the final redraw had moved
      the deadline to below `last`. */
  lemma {:induction false} GlobeFiresBounded(latests: seq<int>, deadline: int, last: int)
    requires forall i :: 0 <= i < |latests| ==> latests[i] <= last
    ensures var fires := GlobeFrames(latests, deadline).1;
      fires == 0 || deadline + GLOBE_UPDATE_INTERVAL * (fires - 1) < last
  {
    if latests != [] {
      var init := latests[..|latests| - 1];
      assert forall i :: 0 <= i < |init| ==> init[i] == latests[i];
      GlobeFiresBounded(init, deadline, last);
      GlobeDeadlineCounts(init, deadline);
    }
  }

  /** What one animation frame plots, as `extractSysStats` returns it. */
  datatype Frame = Frame(
    times: seq<int>,
    cpuPercent: seq<seq<int>>,
    cpuTempCel: seq<int>,
    memPercent: seq<int>)

  /** The series one call of `updateAxes.__call__` extracts from the log
      (lines 81-94), or why it raises first: the CPU table is ragged, or has
      fewer rows than there are bar series. */
  function PlotFrame(log: seq<Entry>): (r: Result<Frame>)
    requires log != []
    ensures var cpu := ExtractSysStats(log, CpuPercent);
      (r.Ok? <==> cpu.Ok? && |cpu.value.rows| >= CPU_BARS) &&
      (cpu.Err? ==> r == Err(RaggedCpuRows)) &&
      (cpu.Ok? && r.Err? ==> r == Err(MissingCpuRow))
    ensures r.Ok? <==> Rectangular(CpuRows(log)) && |log[0].1.cpuPercent| >= CPU_BARS
    ensures r.Ok? ==>
      ExtractSysStats(log, Time) == Ok(Series(r.value.times)) &&
      ExtractSysStats(log, CpuPercent) == Ok(Grid(r.value.cpuPercent)) &&
      ExtractSysStats(log, CpuTempCel) == Ok(Series(r.value.cpuTempCel)) &&
      ExtractSysStats(log, MemPercent) == Ok(Series(r.value.memPercent))
  {
    assert CpuRows(log)[0] == log[0].1.cpuPercent;
    match ExtractSysStats(log, CpuPercent)
    case Err(e) => Err(e)
    case Ok(cpu) =>
      if |cpu.rows| < CPU_BARS then Err(MissingCpuRow)
      else
        Ok(Frame(ExtractSysStats(log, Time).value.values, cpu.rows,
          ExtractSysStats(log, CpuTempCel).value.values, ExtractSysStats(log, MemPercent).value.values))
  }

  /** The `updateAxes` callable: the sample log and the globe's deadline. */
  class UpdateAxes {
    var sysStats: seq<Entry>
    var ax4TimeToUpdate: int

    predicate Valid()
      reads this
    {
      DistinctKeys(sysStats) && sysStats != []
    }

    /** `__init__`: the deadline is the clock reading `start`; the log holds
        the first sample, taken at `sampleTime`. */
    constructor (start: int, sampleTime: int, first: Sample)
      ensures Valid()
      ensures ax4TimeToUpdate == start
      ensures sysStats == UpdateSysStats([], sampleTime, first) == [(sampleTime, first)]
    {
      ax4TimeToUpdate := start;
      sysStats := UpdateSysStats([], sampleTime, first);
      assert Prune([(sampleTime, first)], sampleTime) == [(sampleTime, first)];
    }

    /** `__call__`: log the sample `s` taken at `now`, extract the series,
        and redraw the globe when its deadline has passed. The call raises
        when the CPU table is ragged or has fewer than four rows; the log is
        already updated then, and the globe is left alone. */
    method Call(now: int, s: Sample) returns (frame: Result<Frame>, globeRedrawn: bool)
      requires Valid()
      modifies this
      ensures Valid()
      ensures sysStats == UpdateSysStats(old(sysStats), now, s)
      ensures ExtractSysStats(sysStats, Time).Ok?
      ensures frame == PlotFrame(sysStats)
      ensures frame.Err? ==> !globeRedrawn && ax4TimeToUpdate == old(ax4TimeToUpdate)
      ensures frame.Ok? ==>
        (globeRedrawn <==> MaxKey(Keys(sysStats)) > old(ax4TimeToUpdate)) &&
        ax4TimeToUpdate == GlobeGate(MaxKey(Keys(sysStats)), old(ax4TimeToUpdate)).deadline
    {
      sysStats := UpdateSysStats(sysStats, now, s);
      assert HasKey(sysStats, now);
      frame := PlotFrame(sysStats);
      if frame.Err? {
        globeRedrawn := false;
        return;
      }
      var latest := MaxKey(Keys(sysStats));
      globeRedrawn := latest > ax4TimeToUpdate;
      if globeRedrawn {
        ax4TimeToUpdate := ax4TimeToUpdate + GLOBE_UPDATE_INTERVAL;
      }
    }
  }
}
