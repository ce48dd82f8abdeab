/** `AnomalyDetector.run`: per-channel z-scores against a mature baseline,
    the multivariate IsolationForest flag, and the consensus of the two. */
module Detector {
  import opened Wrappers
  import opened Sequences
  import opened Welford
  import opened Baseline

  /** Observations a channel needs before its baseline is trusted. */
  const MaturityFloor: nat := 30

  /** A batch as read from CSV: the number of rows and, per column, its cells,
      a missing value (NaN) as None. */
  datatype Frame = Frame(rows: nat, columns: map<string, seq<Option<real>>>)

  /** Every column has one cell per row. */
  predicate WellFormed(f: Frame)
  {
    forall c :: c in f.columns ==> |f.columns[c]| == f.rows
  }

  /** `stats and stats["count"] >= 30` */
  predicate Mature(stats: Option<Entry>)
  {
    stats.Some? && stats.value.stat.count >= MaturityFloor
  }

  /** `baseline.get(col)` */
  function Lookup(baseline: map<string, Entry>, col: string): Option<Entry>
  {
    if col in baseline then Some(baseline[col]) else None
  }

  function Abs(x: real): real
  {
    if x < 0.0 then -x else x
  }

  /** `zscore_flag`: `|v - mean| / std` per cell, missing where the cell is;
      every cell 0.0 when `std` is zero. */
  function ZScores(values: seq<Option<real>>, mean: real, std: real): (r: seq<Option<real>>)
    ensures |r| == |values|
    ensures std == 0.0 ==> forall i :: 0 <= i < |r| ==> r[i] == Some(0.0)
    ensures std != 0.0 ==> forall i :: 0 <= i < |r| ==> (r[i].Some? <==> values[i].Some?)
    ensures std != 0.0 ==> forall i :: 0 <= i < |r| && values[i].Some? ==>
      r[i].value * std == Abs(values[i].value - mean)
  {
    if std == 0.0 then seq(|values|, _ => Some(0.0))
    else
      seq(|values|, i requires 0 <= i < |values| =>
        if values[i].Some? then Some(Abs(values[i].value - mean) / std) else None)
  }

  /** `z_scores > threshold`: a missing score compares false. */
  function Flags(z: seq<Option<real>>, threshold: real): seq<Option<bool>>
  {
    seq(|z|, i requires 0 <= i < |z| => Some(z[i].Some? && z[i].value > threshold))
  }

  /** The columns `<col>_zscore` and `<col>_zscore_flag`. */
  datatype ChannelColumns = ChannelColumns(zscore: seq<Option<real>>, flag: seq<Option<bool>>)

  /** The columns `if_label`, `if_score` and `if_flag`. */
  datatype IsolationColumns = IsolationColumns(ifLabel: seq<int>, ifScore: seq<real>, ifFlag: seq<bool>)

  /** The scored frame: the input's columns, the z-score columns per channel,
      the IsolationForest columns and the `anomaly` column, each present only
      when the mode computes it. */
  datatype Scored = Scored(
    input: Frame,
    channels: map<string, ChannelColumns>,
    isolation: Option<IsolationColumns>,
    anomaly: Option<seq<bool>>)

  /** The `KeyError`s `run` can raise. */
  datatype RunError =
    | MissingColumn(name: string)      // `df[col]` for a mature channel
    | MissingStd(channel: string)      // `stats["std"]` on an entry without it
    | MissingColumns(names: seq<string>) // `df[numeric_cols]` for IsolationForest

  /** Both columns null: not enough history to judge. */
  function Unknown(rows: nat): ChannelColumns
  {
    ChannelColumns(seq(rows, _ => None), seq(rows, _ => None))
  }

  /** One pass of the per-channel loop. */
  function ScoreChannel(frame: Frame, col: string, stats: Option<Entry>, threshold: real): Result<ChannelColumns, RunError>
  {
    if Mature(stats) then
      if col !in frame.columns then Failure(MissingColumn(col))
      else if stats.value.std.None? then Failure(MissingStd(col))
      else
        var z := ZScores(frame.columns[col], stats.value.stat.mean, stats.value.std.value);
        Success(ChannelColumns(z, Flags(z, threshold)))
    else Success(Unknown(frame.rows))
  }

  /** The per-channel loop over `cols`, stopping at the first error. */
  function ScoreChannels(frame: Frame, cols: seq<string>, baseline: map<string, Entry>, threshold: real): Result<map<string, ChannelColumns>, RunError>
    decreases |cols|
  {
    if cols == [] then Success(map[])
    else
      var col := cols[|cols| - 1];
      match ScoreChannels(frame, cols[..|cols| - 1], baseline, threshold)
      case Failure(e) => Failure(e)
      case Success(m) =>
        match ScoreChannel(frame, col, Lookup(baseline, col), threshold)
        case Failure(e) => Failure(e)
        case Success(cc) => Success(m[col := cc])
  }

  /** `isolation_forest_flag` is fitted by a library; its labels and scores
      are inputs here. The flag is `labels == -1`. */
  function Isolation(labels: seq<int>, scores: seq<real>): IsolationColumns
  {
    IsolationColumns(labels, scores, seq(|labels|, i requires 0 <= i < |labels| => labels[i] == -1))
  }

  /** `.notna().any()` */
  predicate HasValue(flags: seq<Option<bool>>)
  {
    exists i :: 0 <= i < |flags| && flags[i].Some?
  }

  /** The channels whose flag column exists and is not entirely null, in order. */
  function Contributing(cols: seq<string>, channels: map<string, ChannelColumns>): seq<string>
  {
    Filter(cols, c => c in channels && HasValue(channels[c].flag))
  }

  /** Row `i` is flagged by one of the listed channels. */
  predicate AnyFlag(listed: seq<string>, channels: map<string, ChannelColumns>, i: nat)
  {
    exists k :: 0 <= k < |listed| && listed[k] in channels
      && i < |channels[listed[k]].flag| && channels[listed[k]].flag[i] == Some(true)
  }

  /** The `anomaly` column: any contributing z-score flag or the forest's flag;
      the forest's flag alone when no channel contributes. */
  function Consensus(rows: nat, cols: seq<string>, channels: map<string, ChannelColumns>, ifFlag: seq<bool>): (r: seq<bool>)
    requires |ifFlag| == rows
    ensures |r| == rows
  {
    var contributing := Contributing(cols, channels);
    if contributing != [] then
      seq(rows, i requires 0 <= i < rows => AnyFlag(contributing, channels, i) || ifFlag[i])
    else ifFlag
  }

  /** The columns `df[numeric_cols]` asks for that the frame lacks. */
  function MissingFrom(frame: Frame, cols: seq<string>): seq<string>
  {
    Filter(cols, c => c !in frame.columns)
  }

  predicate ZscoreMode(mode: string) { mode == "zscore" || mode == "both" }
  predicate IsolationMode(mode: string) { mode == "isolation" || mode == "both" }

  /** What `run(df, cols, baseline, mode)` returns or raises. */
  function Score(frame: Frame, cols: seq<string>, baseline: map<string, Entry>, mode: string,
                 labels: seq<int>, scores: seq<real>, threshold: real): (r: Result<Scored, RunError>)
    requires |labels| == frame.rows
    ensures r.Success? ==> r.value.input == frame
    ensures r.Success? ==> (r.value.isolation.Some? <==> IsolationMode(mode))
    ensures r.Success? ==> (r.value.anomaly.Some? <==> mode == "both")
    ensures r.Success? && !ZscoreMode(mode) ==> r.value.channels == map[]
  {
    var zs := if ZscoreMode(mode) then ScoreChannels(frame, cols, baseline, threshold) else Success(map[]);
    if zs.Failure? then Failure(zs.error)
    else if IsolationMode(mode) && MissingFrom(frame, cols) != [] then Failure(MissingColumns(MissingFrom(frame, cols)))
    else
      var iso := if IsolationMode(mode) then Some(Isolation(labels, scores)) else None;
      var anomaly := if mode == "both" then Some(Consensus(frame.rows, cols, zs.value, iso.value.ifFlag)) else None;
      Success(Scored(frame, zs.value, iso, anomaly))
  }

  /** An error found within the first `j` channels is the loop's error. */
  lemma {:induction false} ScoreChannelsPrefixFailure(frame: Frame, cols: seq<string>, baseline: map<string, Entry>, threshold: real, j: nat)
    requires j <= |cols|
    requires ScoreChannels(frame, cols[..j], baseline, threshold).Failure?
    ensures ScoreChannels(frame, cols, baseline, threshold) == ScoreChannels(frame, cols[..j], baseline, threshold)
    decreases |cols| - j
  {
    if j < |cols| {
      var init := cols[..|cols| - 1];
      assert init[..j] == cols[..j];
      ScoreChannelsPrefixFailure(frame, init, baseline, threshold, j);
    } else {
      assert cols[..j] == cols;
    }
  }

  /** A channel raises exactly when it is mature and its column or its "std"
      is missing. */
  predicate ChannelRaises(frame: Frame, col: string, baseline: map<string, Entry>)
  {
    Mature(Lookup(baseline, col)) && (col !in frame.columns || baseline[col].std.None?)
  }

  /** The per-channel loop fails exactly when some channel raises; otherwise
      it holds one result per listed channel, each that channel's columns. */
  lemma {:induction false} ScoreChannelsOutcome(frame: Frame, cols: seq<string>, baseline: map<string, Entry>, threshold: real)
    ensures ScoreChannels(frame, cols, baseline, threshold).Failure?
        <==> exists k :: 0 <= k < |cols| && ChannelRaises(frame, cols[k], baseline)
    ensures ScoreChannels(frame, cols, baseline, threshold).Success? ==>
      var m := ScoreChannels(frame, cols, baseline, threshold).value;
      && (forall c :: c in m <==> c in cols)
      && forall c :: c in m ==> ScoreChannel(frame, c, Lookup(baseline, c), threshold) == Success(m[c])
    decreases |cols|
  {
    if cols != [] {
      var init := cols[..|cols| - 1];
      ScoreChannelsOutcome(frame, init, baseline, threshold);
      var r := ScoreChannels(frame, cols, baseline, threshold);
      var last := cols[|cols| - 1];
      if ScoreChannels(frame, init, baseline, threshold).Failure? {
        var k :| 0 <= k < |init| && ChannelRaises(frame, init[k], baseline);
        assert cols[k] == init[k];
      } else if r.Failure? {
        assert ChannelRaises(frame, cols[|cols| - 1], baseline);
      } else {
        forall k | 0 <= k < |cols| ensures !ChannelRaises(frame, cols[k], baseline) {
          if k < |init| { assert cols[k] == init[k]; }
        }
        var m := ScoreChannels(frame, init, baseline, threshold).value;
        forall c | c in cols ensures c in init || c == last {
          var k :| 0 <= k < |cols| && cols[k] == c;
          if k < |init| { assert init[k] == c; }
        }
      }
    }
  }

  /** A channel without enough history is never an error, whatever the
      frame holds, and every row of its two columns is null. */
  lemma ImmatureIsUnknown(frame: Frame, col: string, baseline: map<string, Entry>, threshold: real)
    requires !Mature(Lookup(baseline, col))
    ensures var r := ScoreChannel(frame, col, Lookup(baseline, col), threshold);
      && r.Success? && |r.value.zscore| == frame.rows && |r.value.flag| == frame.rows
      && (forall i :: 0 <= i < frame.rows ==> r.value.zscore[i].None? && r.value.flag[i].None?)
  {
  }

  /** A pass that succeeds yields one z-score and one flag per row. */
  lemma ChannelRows(frame: Frame, col: string, stats: Option<Entry>, threshold: real)
    requires WellFormed(frame)
    requires ScoreChannel(frame, col, stats, threshold).Success?
    ensures |ScoreChannel(frame, col, stats, threshold).value.zscore| == frame.rows
    ensures |ScoreChannel(frame, col, stats, threshold).value.flag| == frame.rows
  {
  }

  /** For a mature channel with a positive "std", a row is flagged exactly
      when its value is present and lies more than `threshold` standard
      deviations from the baseline mean; with "std" zero no row is flagged
      unless the threshold is negative. Every row gets a non-null flag. */
  lemma FlagMeansDeviation(frame: Frame, col: string, baseline: map<string, Entry>, threshold: real, i: nat)
    requires WellFormed(frame)
    requires Mature(Lookup(baseline, col)) && col in frame.columns && baseline[col].std.Some?
    requires i < frame.rows
    ensures var cc := ScoreChannel(frame, col, Lookup(baseline, col), threshold).value;
      var v := frame.columns[col][i];
      var e := baseline[col];
      && |cc.flag| == frame.rows && cc.flag[i].Some?
      && (e.std.value > 0.0 ==>
           (cc.flag[i].value <==> v.Some? && Abs(v.value - e.stat.mean) > threshold * e.std.value))
      && (e.std.value == 0.0 ==> (cc.flag[i].value <==> 0.0 > threshold))
  {
    var e := baseline[col];
    var values := frame.columns[col];
    var z := ZScores(values, e.stat.mean, e.std.value);
    if e.std.value > 0.0 && values[i].Some? {
      var d := Abs(values[i].value - e.stat.mean);
      var s := e.std.value;
      assert z[i].value * s == d;
      ScaleCompare(z[i].value, s, threshold);
    }
  }

  /** `z > t` exactly when `z * s > t * s`, for a positive `s`. */
  lemma ScaleCompare(z: real, s: real, t: real)
    requires s > 0.0
    ensures z > t <==> z * s > t * s
  {
    if z > t {
      assert (z - t) * s > 0.0;
    } else {
      assert (t - z) * s >= 0.0;
    }
  }

  /** The consensus flag: with both detectors run, a row is anomalous exactly
      when the forest flags it or some listed channel's z-score flag is true. */
  lemma ConsensusMeans(rows: nat, cols: seq<string>, channels: map<string, ChannelColumns>, ifFlag: seq<bool>, i: nat)
    requires |ifFlag| == rows && i < rows
    requires forall c :: c in channels ==> |channels[c].flag| == rows
    ensures Consensus(rows, cols, channels, ifFlag)[i]
        <==> ifFlag[i] || exists k :: 0 <= k < |cols| && cols[k] in channels && channels[cols[k]].flag[i] == Some(true)
  {
    var contributing := Contributing(cols, channels);
    if exists k :: 0 <= k < |cols| && cols[k] in channels && channels[cols[k]].flag[i] == Some(true) {
      var k :| 0 <= k < |cols| && cols[k] in channels && channels[cols[k]].flag[i] == Some(true);
      assert HasValue(channels[cols[k]].flag);
      assert cols[k] in contributing;
      var j :| 0 <= j < |contributing| && contributing[j] == cols[k];
      assert AnyFlag(contributing, channels, i);
    }
  }

  /** With no mature channel the consensus degrades to the forest's flag. */
  lemma NoMatureChannel(frame: Frame, cols: seq<string>, baseline: map<string, Entry>,
                        labels: seq<int>, scores: seq<real>, threshold: real)
    requires |labels| == frame.rows
    requires forall k :: 0 <= k < |cols| ==> !Mature(Lookup(baseline, cols[k]))
    requires MissingFrom(frame, cols) == []
    ensures var r := Score(frame, cols, baseline, "both", labels, scores, threshold);
      r.Success? && r.value.anomaly == Some(Isolation(labels, scores).ifFlag)
  {
    ScoreChannelsOutcome(frame, cols, baseline, threshold);
    var m := ScoreChannels(frame, cols, baseline, threshold).value;
    var iso := Isolation(labels, scores);
    forall c | c in m ensures |m[c].flag| == frame.rows && !HasValue(m[c].flag) {
      var k :| 0 <= k < |cols| && cols[k] == c;
      ImmatureIsUnknown(frame, c, baseline, threshold);
    }
    FilterNone(cols, c => c in m && HasValue(m[c].flag));
  }

  /** A pass over a mature channel that succeeds flags every row, true or
      false, never null. */
  lemma MatureFlagsEveryRow(frame: Frame, col: string, stats: Option<Entry>, threshold: real)
    requires WellFormed(frame)
    requires Mature(stats) && ScoreChannel(frame, col, stats, threshold).Success?
    ensures var cc := ScoreChannel(frame, col, stats, threshold).value;
      |cc.flag| == frame.rows && forall i :: 0 <= i < frame.rows ==> cc.flag[i].Some?
  {
  }

  /** A run in "both" mode that succeeds holds, for each listed channel, the
      columns of that channel's own pass against its baseline entry. */
  lemma ScoredChannel(frame: Frame, cols: seq<string>, baseline: map<string, Entry>,
                      labels: seq<int>, scores: seq<real>, threshold: real, c: string)
    requires |labels| == frame.rows && c in cols
    ensures var r := Score(frame, cols, baseline, "both", labels, scores, threshold);
      r.Success? ==>
        && c in r.value.channels
        && ScoreChannel(frame, c, Lookup(baseline, c), threshold).Success?
        && r.value.channels[c] == ScoreChannel(frame, c, Lookup(baseline, c), threshold).value
  {
    ScoreChannelsOutcome(frame, cols, baseline, threshold);
  }

  /** A run in "both" mode that succeeds: the forest flags a row exactly
      when its label is -1, and the row is anomalous exactly when the forest
      flags it or some listed channel's z-score flag is true. */
  lemma BothModeAnomaly(frame: Frame, cols: seq<string>, baseline: map<string, Entry>,
                        labels: seq<int>, scores: seq<real>, threshold: real, i: nat)
    requires WellFormed(frame)
    requires |labels| == frame.rows && i < frame.rows
    ensures var r := Score(frame, cols, baseline, "both", labels, scores, threshold);
      r.Success? ==>
        && r.value.isolation.value.ifLabel == labels && r.value.isolation.value.ifScore == scores
        && (r.value.isolation.value.ifFlag[i] <==> labels[i] == -1)
        && (forall c :: c in r.value.channels ==> |r.value.channels[c].flag| == frame.rows)
        && (r.value.anomaly.value[i] <==>
              (labels[i] == -1
               || exists k :: 0 <= k < |cols| && cols[k] in r.value.channels
                                && r.value.channels[cols[k]].flag[i] == Some(true)))
  {
    var r := Score(frame, cols, baseline, "both", labels, scores, threshold);
    if r.Success? {
      ScoreChannelsOutcome(frame, cols, baseline, threshold);
      var m := ScoreChannels(frame, cols, baseline, threshold).value;
      forall c | c in m ensures |m[c].flag| == frame.rows {
        ChannelRows(frame, c, Lookup(baseline, c), threshold);
      }
      var iso := Isolation(labels, scores);
      ConsensusMeans(frame.rows, cols, m, iso.ifFlag, i);
    }
  }

  /** The IsolationForest step raises exactly when a listed column is absent
      from the frame. */
  lemma MissingFromMeans(frame: Frame, cols: seq<string>)
    ensures MissingFrom(frame, cols) == [] <==> forall k :: 0 <= k < |cols| ==> cols[k] in frame.columns
  {
    if exists k :: 0 <= k < |cols| && cols[k] !in frame.columns {
      var k :| 0 <= k < |cols| && cols[k] !in frame.columns;
      assert cols[k] in MissingFrom(frame, cols);
    } else {
      FilterNone(cols, c => c !in frame.columns);
    }
  }

  /** `run`: the per-channel loop, then the forest, then the consensus. */
  method Run(frame: Frame, cols: seq<string>, baseline: map<string, Entry>, mode: string,
             labels: seq<int>, scores: seq<real>, threshold: real) returns (r: Result<Scored, RunError>)
    requires |labels| == frame.rows
    ensures r == Score(frame, cols, baseline, mode, labels, scores, threshold)
  {
    var channels: map<string, ChannelColumns> := map[];
    if ZscoreMode(mode) {
      var i := 0;
      while i < |cols|
        invariant 0 <= i <= |cols|
        invariant ScoreChannels(frame, cols[..i], baseline, threshold) == Success(channels)
      {
        var col := cols[i];
        assert cols[..i + 1][..i] == cols[..i];
        var stats := Lookup(baseline, col);
        var scored: ChannelColumns;
        if Mature(stats) {
          if col !in frame.columns {
            ScoreChannelsPrefixFailure(frame, cols, baseline, threshold, i + 1);
            return Failure(MissingColumn(col));
          }
          if stats.value.std.None? {
            ScoreChannelsPrefixFailure(frame, cols, baseline, threshold, i + 1);
            return Failure(MissingStd(col));
          }
          var z := ZScores(frame.columns[col], stats.value.stat.mean, stats.value.std.value);
          scored := ChannelColumns(z, Flags(z, threshold));
        } else {
          scored := Unknown(frame.rows);
        }
        channels := channels[col := scored];
        i := i + 1;
      }
      assert cols[..i] == cols;
    }
    var isolation: Option<IsolationColumns> := None;
    if IsolationMode(mode) {
      var missing := MissingFrom(frame, cols);
      if missing != [] {
        return Failure(MissingColumns(missing));
      }
      isolation := Some(Isolation(labels, scores));
    }
    var anomaly: Option<seq<bool>> := None;
    if mode == "both" {
      anomaly := Some(Consensus(frame.rows, cols, channels, isolation.value.ifFlag));
    }
    r := Success(Scored(frame, channels, isolation, anomaly));
  }
}
