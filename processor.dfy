/** `process_file`: fold a batch's values into the baseline, score the batch
    against the updated baseline, derive the output keys, and build the
    processing summary. */
module Processor {
  import opened Wrappers
  import opened Strings
  import opened Sequences
  import opened Welford
  import opened Baseline
  import opened Detector

  /** The channels the pipeline tracks. */
  const NumericCols: seq<string> := ["temperature", "humidity", "pressure", "wind_speed"]

  /** The z-score threshold the detector is built with. */
  const ZThreshold: real := 3.0

  /** No name is listed twice. */
  predicate Distinct(cols: seq<string>)
  {
    forall i, j :: 0 <= i < j < |cols| ==> cols[i] != cols[j]
  }

  /** `df[col].dropna().tolist()`: the present cells, in row order. */
  function Present(column: seq<Option<real>>): (r: seq<real>)
    ensures |r| <= |column|
    ensures forall i :: 0 <= i < |r| ==> Some(r[i]) in column
    ensures forall i :: 0 <= i < |column| && column[i].Some? ==> column[i].value in r
    decreases |column|
  {
    if column == [] then []
    else
      var last := column[|column| - 1];
      Present(column[..|column| - 1]) + (if last.Some? then [last.value] else [])
  }

  /** The cleaned values are empty exactly when every cell is missing. */
  lemma PresentEmpty(column: seq<Option<real>>)
    ensures Present(column) == [] <==> forall i :: 0 <= i < |column| ==> column[i].None?
  {
    if Present(column) != [] {
      assert Some(Present(column)[0]) in column;
    }
  }

  /** `dropna` keeps order and multiplicity: the present cells of two pieces
      are the present cells of the first followed by those of the second. */
  lemma {:induction false} PresentAppend(a: seq<Option<real>>, b: seq<Option<real>>)
    ensures Present(a + b) == Present(a) + Present(b)
    decreases |b|
  {
    if b == [] {
      assert a + b == a;
    } else {
      var b' := b[..|b| - 1];
      assert (a + b)[..|a + b| - 1] == a + b';
      PresentAppend(a, b');
    }
  }

  /** Whether the update loop touches `col`: present in the batch with at
      least one value. */
  predicate Updates(frame: Frame, col: string)
  {
    col in frame.columns && Present(frame.columns[col]) != []
  }

  /** Step 3, the update loop over `cols`. */
  function UpdateBatch(channels: map<string, Entry>, frame: Frame, cols: seq<string>, sqrt: real -> real): (r: map<string, Entry>)
    decreases |cols|
  {
    if cols == [] then channels
    else
      var before := UpdateBatch(channels, frame, cols[..|cols| - 1], sqrt);
      var col := cols[|cols| - 1];
      if Updates(frame, col) then UpdateChannel(before, col, Present(frame.columns[col]), sqrt)
      else before
  }

  /** After the update loop over distinct channels: a channel is in the table
      exactly when it was before or was updated; an updated channel holds its
      prior entry (or a fresh one) with exactly its present values folded in,
      in row order; every other entry is unchanged. */
  lemma {:induction false} UpdateBatchOutcome(channels: map<string, Entry>, frame: Frame, cols: seq<string>, sqrt: real -> real)
    requires Distinct(cols)
    ensures var r := UpdateBatch(channels, frame, cols, sqrt);
      && (forall c :: c in r <==> c in channels || (c in cols && Updates(frame, c)))
      && (forall c :: c in cols && Updates(frame, c) ==>
            r[c] == Updated(EntryOrFresh(channels, c), Present(frame.columns[c]), sqrt))
      && (forall c :: c in channels && !(c in cols && Updates(frame, c)) ==> r[c] == channels[c])
    decreases |cols|
  {
    if cols != [] {
      var init := cols[..|cols| - 1];
      var col := cols[|cols| - 1];
      assert Distinct(init);
      assert col !in init;
      UpdateBatchOutcome(channels, frame, init, sqrt);
      var before := UpdateBatch(channels, frame, init, sqrt);
      assert EntryOrFresh(before, col) == EntryOrFresh(channels, col);
      forall c | c in cols ensures c in init || c == col {
        var k :| 0 <= k < |cols| && cols[k] == c;
        if k < |init| { assert init[k] == c; }
      }
    }
  }

  /** An updated channel's count is its loaded count plus the batch's present
      values for it. */
  lemma UpdatedCount(channels: map<string, Entry>, frame: Frame, cols: seq<string>, sqrt: real -> real, c: string)
    requires Distinct(cols)
    requires c in cols && Updates(frame, c)
    ensures c in UpdateBatch(channels, frame, cols, sqrt)
    ensures UpdateBatch(channels, frame, cols, sqrt)[c].stat.count
         == EntryOrFresh(channels, c).stat.count + |Present(frame.columns[c])|
  {
    UpdateBatchOutcome(channels, frame, cols, sqrt);
  }

  /** `key.replace("raw/", "processed/")` */
  function OutputKey(key: string): string
  {
    ReplaceAll(key, "raw/", "processed/")
  }

  /** `output_key.replace(".csv", "_summary.json")` */
  function SummaryKey(outputKey: string): string
  {
    ReplaceAll(outputKey, ".csv", "_summary.json")
  }

  lemma RawReplacementIsClean()
    ensures CleanReplacement("raw/", "processed/")
  {
    var rep := "processed/";
    forall i: nat | i <= |rep| ensures !OccursAt(rep, "raw/", i) {
      if i + 4 <= |rep| {
        assert rep[i] != 'r' || rep[i + 1] != 'a';
        assert rep[i..i + 4][0] == rep[i];
        assert rep[i..i + 4][1] == rep[i + 1];
      }
    }
    assert rep[7] == 'e' && rep[8] == 'd' && rep[9] == '/';
    forall j | 7 <= j < |rep| ensures rep[j..] != "raw/"[..|rep| - j] {
      assert rep[j..][0] == rep[j];
    }
  }

  lemma CsvReplacementIsClean()
    ensures CleanReplacement(".csv", "_summary.json")
  {
    var rep := "_summary.json";
    forall i: nat | i <= |rep| ensures !OccursAt(rep, ".csv", i) {
      if i + 4 <= |rep| {
        assert rep[i] != '.' || rep[i + 1] != 'c';
        assert rep[i..i + 4][0] == rep[i];
        assert rep[i..i + 4][1] == rep[i + 1];
      }
    }
    assert rep[10] == 's' && rep[11] == 'o' && rep[12] == 'n';
    forall j | 10 <= j < |rep| ensures rep[j..] != ".csv"[..|rep| - j] {
      assert rep[j..][0] == rep[j];
    }
  }

  /** Every "raw/" is replaced: the output key contains none, a key without
      one is kept as it is, and a key under "raw/" lands under "processed/". */
  lemma OutputKeyProperties(key: string)
    ensures !Contains(OutputKey(key), "raw/")
    ensures !Contains(key, "raw/") ==> OutputKey(key) == key
    ensures StartsWith(key, "raw/") ==> StartsWith(OutputKey(key), "processed/")
  {
    RawReplacementIsClean();
    ReplaceAllRemovesAll(key, "raw/", "processed/");
    if !Contains(key, "raw/") {
      ReplaceAllAbsent(key, "raw/", "processed/");
    }
    if StartsWith(key, "raw/") {
      assert key == "raw/" + key[4..];
      ReplaceAllLeading("raw/", key[4..], "processed/");
    }
  }

  /** Every ".csv" is replaced, and a key without one is kept as it is. */
  lemma SummaryKeyProperties(outputKey: string)
    ensures !Contains(SummaryKey(outputKey), ".csv")
    ensures !Contains(outputKey, ".csv") ==> SummaryKey(outputKey) == outputKey
  {
    CsvReplacementIsClean();
    ReplaceAllRemovesAll(outputKey, ".csv", "_summary.json");
    if !Contains(outputKey, ".csv") {
      ReplaceAllAbsent(outputKey, ".csv", "_summary.json");
    }
  }

  /** A file uploaded under "raw/" whose name holds no other "raw/" is written
      under "processed/" with the same name. */
  lemma OutputKeyOfRaw(name: string)
    requires !Contains(name, "raw/")
    ensures OutputKey("raw/" + name) == "processed/" + name
  {
    ReplaceAllLeading("raw/", name, "processed/");
    ReplaceAllAbsent(name, "raw/", "processed/");
  }

  /** The output key derived for a typical upload. */
  lemma OutputKeyExample()
    ensures OutputKey("raw/x.csv") == "processed/x.csv"
  {
    var name := "x.csv";
    AbsentFirstChar(name, "raw/");
    OutputKeyOfRaw(name);
    assert "raw/" + name == "raw/x.csv";
    assert "processed/" + name == "processed/x.csv";
  }

  /** The summary key of a scored file whose name has no other dot: the
      trailing ".csv" becomes "_summary.json" and nothing else changes. */
  lemma SummaryKeyOfCsv(stem: string)
    requires '.' !in stem
    ensures SummaryKey(stem + ".csv") == stem + "_summary.json"
  {
    ReplaceAllBeforePattern(stem, ".csv", "_summary.json");
  }

  /** The summary key derived from that output key. */
  lemma SummaryKeyExample()
    ensures SummaryKey("processed/x.csv") == "processed/x_summary.json"
  {
    var u := "processed/x";
    SummaryKeyOfCsv(u);
    assert u + ".csv" == "processed/x.csv";
    assert u + "_summary.json" == "processed/x_summary.json";
  }

  /** Occurrences of true. */
  function CountTrue(s: seq<bool>): (r: nat)
    ensures r <= |s|
    ensures r == 0 <==> forall i :: 0 <= i < |s| ==> !s[i]
    decreases |s|
  {
    if s == [] then 0 else CountTrue(s[..|s| - 1]) + (if s[|s| - 1] then 1 else 0)
  }

  /** The rows that hold true. */
  function TrueRows(s: seq<bool>): set<nat>
  {
    set i: nat | i < |s| && s[i]
  }

  /** `CountTrue` is the number of rows that hold true. */
  lemma {:induction false} CountTrueIsCount(s: seq<bool>)
    ensures CountTrue(s) == |TrueRows(s)|
    decreases |s|
  {
    if s != [] {
      var n := |s| - 1;
      var init := s[..n];
      CountTrueIsCount(init);
      assert forall i: nat | i < n :: init[i] == s[i];
      if s[n] {
        assert TrueRows(s) == TrueRows(init) + {n};
        assert n !in TrueRows(init);
      } else {
        assert TrueRows(s) == TrueRows(init);
      }
    }
  }

  /** `anomaly_count`: true rows of the `anomaly` column, 0 without one. */
  function AnomalyCount(scored: Scored): nat
  {
    if scored.anomaly.Some? then CountTrue(scored.anomaly.value) else 0
  }

  /** `anomaly_rate`, guarded against an empty batch. */
  function AnomalyRate(count: nat, rows: nat): (r: real)
    ensures rows == 0 ==> r == 0.0
    ensures rows > 0 ==> r * (rows as real) == count as real
    ensures count <= rows ==> 0.0 <= r <= 1.0
  {
    if rows > 0 then (count as real) / (rows as real) else 0.0
  }

  /** `baseline_observation_counts`: one entry per listed channel, its count or 0. */
  function ObservationCounts(channels: map<string, Entry>, cols: seq<string>): map<string, nat>
  {
    map c | c in cols :: if c in channels then channels[c].stat.count else 0
  }

  /** The summary record written next to the scored file. */
  datatype Summary = Summary(
    sourceKey: string,
    outputKey: string,
    processedAt: string,
    totalRows: nat,
    anomalyCount: nat,
    anomalyRate: real,
    observationCounts: map<string, nat>)

  /** What is written to the bucket. */
  datatype Body = ScoredCsv(scored: Scored) | BaselineJson(snapshot: Snapshot) | SummaryJson(summary: Summary)
  datatype Put = Put(key: string, body: Body)

  /** The writes, in order, and the returned summary. */
  datatype Outcome = Outcome(puts: seq<Put>, summary: Summary)

  /** The loaded baseline's channels: the stored ones, or none. */
  function Loaded(stored: Option<Snapshot>): map<string, Entry>
  {
    if stored.Some? then stored.value.channels else map[]
  }

  /** What `process_file(bucket, key)` writes and returns, or the error it
      raises before writing anything. The frame is the parsed upload, the
      labels and scores the forest's output, and the two times the clock
      readings taken by `save` and for the summary. */
  function Process(key: string, frame: Frame, stored: Option<Snapshot>, labels: seq<int>, scores: seq<real>,
                   savedAt: string, processedAt: string, sqrt: real -> real): Result<Outcome, RunError>
    requires |labels| == frame.rows
  {
    var channels := UpdateBatch(Loaded(stored), frame, NumericCols, sqrt);
    match Score(frame, NumericCols, channels, "both", labels, scores, ZThreshold)
    case Failure(e) => Failure(e)
    case Success(scored) =>
      var out := OutputKey(key);
      var count := AnomalyCount(scored);
      var summary := Summary(key, out, processedAt, frame.rows, count, AnomalyRate(count, frame.rows),
                             ObservationCounts(channels, NumericCols));
      Success(Outcome([Put(out, ScoredCsv(scored)),
                       Put(BaselineKey, BaselineJson(Snapshot(channels, Some(savedAt)))),
                       Put(SummaryKey(out), SummaryJson(summary))], summary))
  }

  /** `process_file` raises exactly when a tracked column is missing from the
      upload (the forest needs every one) or a mature channel of the updated
      baseline lacks "std" or its column. */
  lemma ProcessFails(key: string, frame: Frame, stored: Option<Snapshot>, labels: seq<int>, scores: seq<real>,
                     savedAt: string, processedAt: string, sqrt: real -> real)
    requires |labels| == frame.rows
    ensures var channels := UpdateBatch(Loaded(stored), frame, NumericCols, sqrt);
      Process(key, frame, stored, labels, scores, savedAt, processedAt, sqrt).Failure?
      <==> ((exists k :: 0 <= k < |NumericCols| && NumericCols[k] !in frame.columns)
            || (exists k :: 0 <= k < |NumericCols| && ChannelRaises(frame, NumericCols[k], channels)))
  {
    var channels := UpdateBatch(Loaded(stored), frame, NumericCols, sqrt);
    ScoreChannelsOutcome(frame, NumericCols, channels, ZThreshold);
    MissingFromMeans(frame, NumericCols);
  }

  /** The summary of a processed upload: its keys and time, the rows and
      the anomalies counted, and the rate, which lies in [0, 1] and is zero
      for an empty upload. */
  lemma ProcessSummary(key: string, frame: Frame, stored: Option<Snapshot>, labels: seq<int>, scores: seq<real>,
                       savedAt: string, processedAt: string, sqrt: real -> real)
    requires |labels| == frame.rows
    ensures var r := Process(key, frame, stored, labels, scores, savedAt, processedAt, sqrt);
      r.Success? ==>
        var s := r.value.summary;
        && s.sourceKey == key && s.outputKey == OutputKey(key) && s.processedAt == processedAt
        && s.totalRows == frame.rows
        && s.anomalyCount <= s.totalRows
        && (s.totalRows == 0 ==> s.anomalyRate == 0.0)
        && 0.0 <= s.anomalyRate <= 1.0
  {
    var channels := UpdateBatch(Loaded(stored), frame, NumericCols, sqrt);
    var sc := Score(frame, NumericCols, channels, "both", labels, scores, ZThreshold);
    if sc.Success? {
      assert |sc.value.anomaly.value| == frame.rows;
    }
  }

  /** The summary's observation counts: one per tracked channel, its loaded
      count (0 when unseen) plus this upload's present values when the update
      loop touched it, and its loaded count otherwise. */
  lemma ProcessObservationCounts(key: string, frame: Frame, stored: Option<Snapshot>, labels: seq<int>, scores: seq<real>,
                                 savedAt: string, processedAt: string, sqrt: real -> real)
    requires |labels| == frame.rows
    ensures var r := Process(key, frame, stored, labels, scores, savedAt, processedAt, sqrt);
      r.Success? ==>
        var counts := r.value.summary.observationCounts;
        && (forall c :: c in counts <==> c in NumericCols)
        && (forall c :: c in NumericCols && Updates(frame, c) ==>
              counts[c] == EntryOrFresh(Loaded(stored), c).stat.count + |Present(frame.columns[c])|)
        && (forall c :: c in NumericCols && !Updates(frame, c) ==>
              counts[c] == EntryOrFresh(Loaded(stored), c).stat.count)
  {
    var channels := UpdateBatch(Loaded(stored), frame, NumericCols, sqrt);
    assert Distinct(NumericCols);
    UpdateBatchOutcome(Loaded(stored), frame, NumericCols, sqrt);
    ObservationsFrom(Loaded(stored), channels, frame, sqrt);
  }

  /** Step 3 happens before step 4: a tracked column with values in the upload
      is scored against its entry with this upload folded in, so a channel
      whose loaded count and present values together reach 30 is judged in
      the same upload, every row getting a non-null flag. */
  lemma UpdateBeforeScore(key: string, frame: Frame, stored: Option<Snapshot>, labels: seq<int>, scores: seq<real>,
                          savedAt: string, processedAt: string, sqrt: real -> real, c: string)
    requires WellFormed(frame)
    requires |labels| == frame.rows
    requires c in NumericCols && Updates(frame, c)
    ensures var r := Process(key, frame, stored, labels, scores, savedAt, processedAt, sqrt);
      var e := Updated(EntryOrFresh(Loaded(stored), c), Present(frame.columns[c]), sqrt);
      r.Success? ==>
        && c in r.value.puts[0].body.scored.channels
        && r.value.puts[0].body.scored.channels[c] == ScoreChannel(frame, c, Some(e), ZThreshold).value
        && (EntryOrFresh(Loaded(stored), c).stat.count + |Present(frame.columns[c])| >= MaturityFloor ==>
              && |r.value.puts[0].body.scored.channels[c].flag| == frame.rows
              && forall i :: 0 <= i < frame.rows ==> r.value.puts[0].body.scored.channels[c].flag[i].Some?)
  {
    var channels := UpdateBatch(Loaded(stored), frame, NumericCols, sqrt);
    var e := Updated(EntryOrFresh(Loaded(stored), c), Present(frame.columns[c]), sqrt);
    assert channels[c] == e by {
      assert Distinct(NumericCols);
      UpdateBatchOutcome(Loaded(stored), frame, NumericCols, sqrt);
    }
    assert Lookup(channels, c) == Some(e);
    var sc := Score(frame, NumericCols, channels, "both", labels, scores, ZThreshold);
    ScoredChannel(frame, NumericCols, channels, labels, scores, ZThreshold, c);
    var r := Process(key, frame, stored, labels, scores, savedAt, processedAt, sqrt);
    if r.Success? {
      assert r.value.puts[0].body.scored == sc.value;
      if Mature(Some(e)) {
        MatureFlagsEveryRow(frame, c, Some(e), ZThreshold);
      }
    }
  }

  /** The observation counts of the updated table, read per channel. */
  lemma ObservationsFrom(loaded: map<string, Entry>, channels: map<string, Entry>, frame: Frame, sqrt: real -> real)
    requires channels == UpdateBatch(loaded, frame, NumericCols, sqrt)
    requires forall c :: c in channels <==> c in loaded || (c in NumericCols && Updates(frame, c))
    requires forall c :: c in NumericCols && Updates(frame, c) ==>
      channels[c] == Updated(EntryOrFresh(loaded, c), Present(frame.columns[c]), sqrt)
    requires forall c :: c in loaded && !(c in NumericCols && Updates(frame, c)) ==> channels[c] == loaded[c]
    ensures var counts := ObservationCounts(channels, NumericCols);
      && (forall c :: c in NumericCols && Updates(frame, c) ==>
            counts[c] == EntryOrFresh(loaded, c).stat.count + |Present(frame.columns[c])|)
      && (forall c :: c in NumericCols && !Updates(frame, c) ==>
            counts[c] == EntryOrFresh(loaded, c).stat.count)
  {
  }

  /** A processed upload writes three objects, in order: the scored frame at
      the output key, the updated baseline stamped with the save time at the
      baseline key, and the summary at the summary key. */
  lemma ProcessWrites(key: string, frame: Frame, stored: Option<Snapshot>, labels: seq<int>, scores: seq<real>,
                      savedAt: string, processedAt: string, sqrt: real -> real)
    requires |labels| == frame.rows
    ensures var r := Process(key, frame, stored, labels, scores, savedAt, processedAt, sqrt);
      r.Success? ==>
        && |r.value.puts| == 3
        && r.value.puts[0].key == OutputKey(key) && r.value.puts[0].body.ScoredCsv?
        && r.value.puts[0].body.scored.input == frame
        && r.value.puts[0].body.scored.anomaly.Some?
        && r.value.puts[1] == Put(BaselineKey, BaselineJson(Snapshot(UpdateBatch(Loaded(stored), frame, NumericCols, sqrt), Some(savedAt))))
        && r.value.puts[2] == Put(SummaryKey(OutputKey(key)), SummaryJson(r.value.summary))
  {
  }

  /** `process_file`: load, update every listed channel, score, write. */
  method ProcessFile(key: string, frame: Frame, stored: Option<Snapshot>, labels: seq<int>, scores: seq<real>,
                     savedAt: string, processedAt: string, sqrt: real -> real) returns (r: Result<Outcome, RunError>)
    requires |labels| == frame.rows
    ensures r == Process(key, frame, stored, labels, scores, savedAt, processedAt, sqrt)
  {
    var table := new BaselineTable.Load(stored);
    var i := 0;
    while i < |NumericCols|
      invariant 0 <= i <= |NumericCols|
      invariant table.channels == UpdateBatch(Loaded(stored), frame, NumericCols[..i], sqrt)
      modifies table
    {
      var col := NumericCols[i];
      assert NumericCols[..i + 1][..i] == NumericCols[..i];
      if col in frame.columns {
        var cleanValues := Present(frame.columns[col]);
        if cleanValues != [] {
          table.Update(col, cleanValues, sqrt);
        }
      }
      i := i + 1;
    }
    assert NumericCols[..i] == NumericCols;
    var scored := Run(frame, NumericCols, table.channels, "both", labels, scores, ZThreshold);
    if scored.Failure? {
      return Failure(scored.error);
    }
    var outputKey := OutputKey(key);
    var written := table.Save(savedAt);
    var anomalyCount := if scored.value.anomaly.Some? then CountTrue(scored.value.anomaly.value) else 0;
    var summary := Summary(key, outputKey, processedAt, frame.rows, anomalyCount,
                           if frame.rows > 0 then (anomalyCount as real) / (frame.rows as real) else 0.0,
                           ObservationCounts(table.channels, NumericCols));
    var summaryKey := SummaryKey(outputKey);
    r := Success(Outcome([Put(outputKey, ScoredCsv(scored.value)),
                          Put(BaselineKey, BaselineJson(written)),
                          Put(summaryKey, SummaryJson(summary))], summary));
  }
}
