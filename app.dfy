/** The HTTP handlers of the service: the SNS notification hook that
    schedules uploads for processing, and the query endpoints over processed
    files, their summaries and the baseline. Each takes the objects it would
    read from the bucket as an argument. */
module App {
  import opened Wrappers
  import opened Strings
  import opened Sequences
  import opened Welford
  import opened Baseline
  import opened Detector
  import opened Processor

  // ---------------------------------------------------------------- /notify

  /** The S3 event carried by a notification: its "Records", each reduced to
      its object key; None when the event has no "Records". */
  datatype S3Event = S3Event(records: Option<seq<string>>)

  /** The fields of the POST body the handler reads; None when absent. */
  datatype SnsBody = SnsBody(subscribeUrl: Option<string>, message: Option<S3Event>)

  /** The response status, the confirmation URL visited, and the keys handed
      to `process_file` in the background, in order. */
  datatype SnsReply = SnsReply(status: string, visited: Option<string>, scheduled: seq<string>)

  /** `body["SubscribeURL"]` or `body["Message"]` missing: a `KeyError`. */
  datatype SnsError = MissingField(name: string)

  /** Uploads the pipeline processes. */
  predicate IsRawCsv(key: string)
  {
    StartsWith(key, "raw/") && EndsWith(key, ".csv")
  }

  /** What `handle_sns` answers for a message of type `msgType` (the
      `x-amz-sns-message-type` header). */
  function Sns(msgType: Option<string>, body: SnsBody): Result<SnsReply, SnsError>
  {
    if msgType == Some("SubscriptionConfirmation") then
      if body.subscribeUrl.None? then Failure(MissingField("SubscribeURL"))
      else Success(SnsReply("confirmed", body.subscribeUrl, []))
    else if msgType == Some("Notification") then
      if body.message.None? then Failure(MissingField("Message"))
      else Success(SnsReply("ok", None, Filter(body.message.value.records.GetOr([]), IsRawCsv)))
    else Success(SnsReply("ok", None, []))
  }

  /** A confirmation visits its URL and schedules nothing; a notification
      schedules exactly the raw CSV keys among its records, each of which
      will be written under "processed/"; anything else is acknowledged and
      ignored. */
  lemma SnsOutcome(msgType: Option<string>, body: SnsBody)
    ensures msgType == Some("SubscriptionConfirmation") && body.subscribeUrl.Some? ==>
      Sns(msgType, body) == Success(SnsReply("confirmed", body.subscribeUrl, []))
    ensures msgType == Some("Notification") && body.message.Some? ==>
      var r := Sns(msgType, body).value;
      var records := body.message.value.records.GetOr([]);
      && r.status == "ok" && r.visited == None
      && (forall k :: k in r.scheduled <==> k in records && IsRawCsv(k))
      && (forall k :: k in r.scheduled ==> StartsWith(OutputKey(k), "processed/"))
    ensures msgType == Some("SubscriptionConfirmation") && body.subscribeUrl.None? ==>
      Sns(msgType, body) == Failure(MissingField("SubscribeURL"))
    ensures msgType == Some("Notification") && body.message.None? ==>
      Sns(msgType, body) == Failure(MissingField("Message"))
    ensures msgType != Some("SubscriptionConfirmation") && msgType != Some("Notification") ==>
      Sns(msgType, body) == Success(SnsReply("ok", None, []))
  {
    if msgType == Some("Notification") && body.message.Some? {
      var r := Sns(msgType, body).value;
      forall k | k in r.scheduled ensures StartsWith(OutputKey(k), "processed/") {
        OutputKeyProperties(k);
      }
    }
  }

  /** `handle_sns`. */
  method HandleSns(msgType: Option<string>, body: SnsBody) returns (r: Result<SnsReply, SnsError>)
    ensures r == Sns(msgType, body)
  {
    if msgType == Some("SubscriptionConfirmation") {
      if body.subscribeUrl.None? {
        return Failure(MissingField("SubscribeURL"));
      }
      return Success(SnsReply("confirmed", body.subscribeUrl, []));
    }
    if msgType == Some("Notification") {
      if body.message.None? {
        return Failure(MissingField("Message"));
      }
      var records := body.message.value.records.GetOr([]);
      var scheduled: seq<string> := [];
      var i := 0;
      while i < |records|
        invariant 0 <= i <= |records|
        invariant scheduled == Filter(records[..i], IsRawCsv)
      {
        assert records[..i + 1][..i] == records[..i];
        var key := records[i];
        if StartsWith(key, "raw/") && EndsWith(key, ".csv") {
          scheduled := scheduled + [key];
        }
        i := i + 1;
      }
      assert records[..i] == records;
      return Success(SnsReply("ok", None, scheduled));
    }
    return Success(SnsReply("ok", None, []));
  }

  // ------------------------------------------------------ /anomalies/recent

  /** A listed object and, if it were read as CSV, its `anomaly` column
      (None when it has none). */
  datatype CsvObject = CsvObject(key: string, anomaly: Option<seq<bool>>)

  /** A returned row: the file it came from (`source_file`) and its position. */
  datatype FlaggedRow = FlaggedRow(sourceFile: string, row: nat)

  /** The response: `count` and `anomalies`. */
  datatype AnomalyList = AnomalyList(count: nat, anomalies: seq<FlaggedRow>)

  /** How many of the latest processed files are read. */
  const RecentFileLimit: nat := 10

  /** A scored file: listed under "processed/" and ending in ".csv". */
  predicate IsProcessedCsv(o: CsvObject)
  {
    StartsWith(o.key, "processed/") && EndsWith(o.key, ".csv")
  }

  function CsvKey(o: CsvObject): string { o.key }

  /** The ten scored files with the largest keys, largest first. */
  function RecentFiles(listing: seq<CsvObject>): seq<CsvObject>
  {
    Prefix(SortDesc(Filter(listing, IsProcessedCsv), CsvKey), RecentFileLimit)
  }

  /** `df[df["anomaly"] == True]` with `source_file` set, in row order. */
  function FlaggedRows(key: string, anomaly: seq<bool>): (r: seq<FlaggedRow>)
    ensures |r| == CountTrue(anomaly)
    ensures forall j :: 0 <= j < |r| ==> r[j].sourceFile == key && r[j].row < |anomaly| && anomaly[r[j].row]
    ensures forall i :: 0 <= i < |anomaly| && anomaly[i] ==> FlaggedRow(key, i) in r
    ensures forall j, k :: 0 <= j < k < |r| ==> r[j].row < r[k].row
    decreases |anomaly|
  {
    if anomaly == [] then []
    else
      FlaggedRows(key, anomaly[..|anomaly| - 1])
        + (if anomaly[|anomaly| - 1] then [FlaggedRow(key, |anomaly| - 1)] else [])
  }

  /** `"anomaly" in df.columns` */
  predicate HasAnomalyColumn(o: CsvObject)
  {
    o.anomaly.Some?
  }

  /** `all_anomalies`: the flagged rows of each file that has an `anomaly`
      column, one entry per such file. */
  function Collected(files: seq<CsvObject>): (r: seq<seq<FlaggedRow>>)
    ensures |r| <= |files|
    ensures |r| == |Filter(files, HasAnomalyColumn)|
    decreases |files|
  {
    if files == [] then []
    else
      var o := files[|files| - 1];
      Collected(files[..|files| - 1]) + (if o.anomaly.Some? then [FlaggedRows(o.key, o.anomaly.value)] else [])
  }

  /** `pd.concat` of the collected frames. */
  function Concat(parts: seq<seq<FlaggedRow>>): seq<FlaggedRow>
    decreases |parts|
  {
    if parts == [] then [] else Concat(parts[..|parts| - 1]) + parts[|parts| - 1]
  }

  /** What `get_recent_anomalies(limit)` returns. */
  function Recent(listing: seq<CsvObject>, limit: int): AnomalyList
  {
    var parts := Collected(RecentFiles(listing));
    if parts == [] then AnomalyList(0, [])
    else
      var combined := Prefix(Concat(parts), limit);
      AnomalyList(|combined|, combined)
  }

  /** The files read are the ten scored files of the listing with the
      largest keys (all of them when there are fewer), largest key first:
      each is read no more often than it is listed, and no scored file left
      out has a larger key than one read. */
  lemma RecentFilesProperties(listing: seq<CsvObject>)
    ensures var n := |Filter(listing, IsProcessedCsv)|;
      |RecentFiles(listing)| == if n < RecentFileLimit then n else RecentFileLimit
    ensures multiset(RecentFiles(listing)) <= multiset(Filter(listing, IsProcessedCsv))
    ensures SortedDesc(RecentFiles(listing), CsvKey)
    ensures forall j :: 0 <= j < |RecentFiles(listing)| ==>
      RecentFiles(listing)[j] in listing && IsProcessedCsv(RecentFiles(listing)[j])
    ensures forall o, p :: o in listing && IsProcessedCsv(o) && o !in RecentFiles(listing) && p in RecentFiles(listing) ==>
      StrLe(o.key, p.key)
  {
    var candidates := Filter(listing, IsProcessedCsv);
    var r := RecentFiles(listing);
    assert |r| == (if |candidates| < RecentFileLimit then |candidates| else RecentFileLimit)
        && multiset(r) <= multiset(candidates) by {
      TopCount(candidates, CsvKey, RecentFileLimit);
    }
    assert SortedDesc(r, CsvKey) by {
      TopByKey(candidates, CsvKey, RecentFileLimit);
    }
    assert forall j :: 0 <= j < |r| ==> r[j] in listing && IsProcessedCsv(r[j]) by {
      TopOfFiltered(listing, IsProcessedCsv, CsvKey, RecentFileLimit);
      forall j | 0 <= j < |r| ensures r[j] in listing && IsProcessedCsv(r[j]) {
        assert r[j] in r;
      }
    }
    forall o, p | o in listing && IsProcessedCsv(o) && o !in r && p in r ensures StrLe(o.key, p.key) {
      TopOfFiltered(listing, IsProcessedCsv, CsvKey, RecentFileLimit);
      assert StrLe(CsvKey(o), CsvKey(p));
    }
  }

  /** `x` is a row that file `o` flags as an anomaly. */
  predicate FlaggedBy(o: CsvObject, x: FlaggedRow)
  {
    o.key == x.sourceFile && o.anomaly.Some? && x.row < |o.anomaly.value| && o.anomaly.value[x.row]
  }

  /** Rows gathered from the files read are flagged rows of those files. */
  lemma {:induction false} CollectedRows(files: seq<CsvObject>, x: FlaggedRow)
    requires x in Concat(Collected(files))
    ensures exists j :: 0 <= j < |files| && FlaggedBy(files[j], x)
    decreases |files|
  {
    var init := files[..|files| - 1];
    var o := files[|files| - 1];
    var last := if o.anomaly.Some? then [FlaggedRows(o.key, o.anomaly.value)] else [];
    assert Collected(files) == Collected(init) + last;
    ConcatAppend(Collected(init), last);
    if x in Concat(Collected(init)) {
      CollectedRows(init, x);
      var j :| 0 <= j < |init| && FlaggedBy(init[j], x);
      assert files[j] == init[j];
    } else {
      assert last != [];
      assert Concat(last) == FlaggedRows(o.key, o.anomaly.value);
      assert FlaggedBy(files[|files| - 1], x);
    }
  }

  lemma ConcatAppend(a: seq<seq<FlaggedRow>>, b: seq<seq<FlaggedRow>>)
    requires |b| <= 1
    ensures Concat(a + b) == Concat(a) + Concat(b)
  {
    if b == [] {
      assert a + b == a;
    } else {
      assert (a + b)[..|a + b| - 1] == a;
      assert Concat(b) == Concat([]) + b[0];
    }
  }

  /** The number of rows the files flag as anomalies. */
  function FlaggedTotal(files: seq<CsvObject>): nat
    decreases |files|
  {
    if files == [] then 0
    else
      var o := files[|files| - 1];
      FlaggedTotal(files[..|files| - 1]) + (if o.anomaly.Some? then CountTrue(o.anomaly.value) else 0)
  }

  /** Together the collected frames hold every flagged row of every file. */
  lemma {:induction false} CollectedLength(files: seq<CsvObject>)
    ensures |Concat(Collected(files))| == FlaggedTotal(files)
    decreases |files|
  {
    if files != [] {
      var init := files[..|files| - 1];
      var o := files[|files| - 1];
      var last := if o.anomaly.Some? then [FlaggedRows(o.key, o.anomaly.value)] else [];
      assert Collected(files) == Collected(init) + last;
      ConcatAppend(Collected(init), last);
      CollectedLength(init);
      if o.anomaly.Some? {
        assert Concat(last) == FlaggedRows(o.key, o.anomaly.value);
      }
    }
  }

  /** A row that one of the files flags is among the collected rows. */
  lemma {:induction false} CollectedHas(files: seq<CsvObject>, j: nat, x: FlaggedRow)
    requires j < |files| && FlaggedBy(files[j], x)
    ensures x in Concat(Collected(files))
    decreases |files|
  {
    var init := files[..|files| - 1];
    var o := files[|files| - 1];
    var last := if o.anomaly.Some? then [FlaggedRows(o.key, o.anomaly.value)] else [];
    assert Collected(files) == Collected(init) + last;
    ConcatAppend(Collected(init), last);
    if j < |init| {
      assert init[j] == files[j];
      CollectedHas(init, j, x);
    } else {
      assert x == FlaggedRow(o.key, x.row);
      assert Concat(last) == FlaggedRows(o.key, o.anomaly.value);
    }
  }

  /** The response is `head(limit)` of all collected rows, also when no file
      has an `anomaly` column. */
  lemma RecentIsHead(listing: seq<CsvObject>, limit: int)
    ensures Recent(listing, limit).anomalies == Prefix(Concat(Collected(RecentFiles(listing))), limit)
  {
  }

  /** The response: `count` is the number of rows returned; for a
      non-negative `limit` it is `min(limit, rows flagged in the files read)`;
      every row returned is one its file flags as an anomaly, from one of the
      files read; and when `limit` is at least the number flagged, every
      flagged row of every file read is returned. */
  lemma RecentProperties(listing: seq<CsvObject>, limit: int)
    ensures Recent(listing, limit).count == |Recent(listing, limit).anomalies|
    ensures var total := FlaggedTotal(RecentFiles(listing));
      limit >= 0 ==> Recent(listing, limit).count == if limit <= total then limit else total
    ensures forall x :: x in Recent(listing, limit).anomalies ==>
      exists j :: 0 <= j < |RecentFiles(listing)| && FlaggedBy(RecentFiles(listing)[j], x)
    ensures limit >= FlaggedTotal(RecentFiles(listing)) ==>
      forall j, x :: 0 <= j < |RecentFiles(listing)| && FlaggedBy(RecentFiles(listing)[j], x) ==>
        x in Recent(listing, limit).anomalies
  {
    var files := RecentFiles(listing);
    var parts := Collected(files);
    RecentIsHead(listing, limit);
    CollectedLength(files);
    if limit >= FlaggedTotal(files) {
      forall j, x | 0 <= j < |files| && FlaggedBy(files[j], x) ensures x in Recent(listing, limit).anomalies {
        CollectedHas(files, j, x);
      }
    }
    if parts != [] {
      var combined := Prefix(Concat(parts), limit);
      forall x | x in combined ensures exists j :: 0 <= j < |files| && FlaggedBy(files[j], x) {
        var k :| 0 <= k < |combined| && combined[k] == x;
        assert Concat(parts)[k] == x;
        CollectedRows(files, x);
      }
    }
  }

  /** `get_recent_anomalies`. */
  method RecentAnomalies(listing: seq<CsvObject>, limit: int) returns (r: AnomalyList)
    ensures r == Recent(listing, limit)
  {
    var keys := RecentFiles(listing);
    var allAnomalies: seq<seq<FlaggedRow>> := [];
    var i := 0;
    while i < |keys|
      invariant 0 <= i <= |keys|
      invariant allAnomalies == Collected(keys[..i])
    {
      assert keys[..i + 1][..i] == keys[..i];
      var file := keys[i];
      if file.anomaly.Some? {
        allAnomalies := allAnomalies + [FlaggedRows(file.key, file.anomaly.value)];
      }
      i := i + 1;
    }
    assert keys[..i] == keys;
    if allAnomalies == [] {
      return AnomalyList(0, []);
    }
    var combined := Prefix(Concat(allAnomalies), limit);
    r := AnomalyList(|combined|, combined);
  }

  // ----------------------------------------------------- /anomalies/summary

  /** A listed object and, if it were read as JSON, the summary it holds. */
  datatype SummaryObject = SummaryObject(key: string, summary: Summary)

  /** The response: a message when nothing is processed yet, the aggregate
      otherwise. */
  datatype SummaryReply =
    | NoProcessedFiles
    | Aggregate(filesProcessed: nat, totalRowsScored: nat, totalAnomalies: nat,
                overallAnomalyRate: real, mostRecent: seq<Summary>)

  /** How many summaries `most_recent` shows. */
  const MostRecentLimit: nat := 5

  /** A summary file: listed under "processed/" and ending in "_summary.json". */
  predicate IsSummaryFile(o: SummaryObject)
  {
    StartsWith(o.key, "processed/") && EndsWith(o.key, "_summary.json")
  }

  /** The summaries read, in listing order. */
  function Summaries(listing: seq<SummaryObject>): (r: seq<Summary>)
    ensures |r| <= |listing|
    ensures r == [] <==> forall j :: 0 <= j < |listing| ==> !IsSummaryFile(listing[j])
    ensures forall i :: 0 <= i < |r| ==> exists j :: 0 <= j < |listing| && IsSummaryFile(listing[j]) && listing[j].summary == r[i]
    decreases |listing|
  {
    if listing == [] then []
    else
      var o := listing[|listing| - 1];
      var before := Summaries(listing[..|listing| - 1]);
      assert forall i :: 0 <= i < |before| ==> exists j :: 0 <= j < |listing| - 1 && IsSummaryFile(listing[j]) && listing[j].summary == before[i];
      before + (if IsSummaryFile(o) then [o.summary] else [])
  }

  /** The summaries read are those of the listed summary files, one per
      listed file, in listing order. */
  lemma {:induction false} SummariesMatchFilter(listing: seq<SummaryObject>)
    ensures |Summaries(listing)| == |Filter(listing, IsSummaryFile)|
    ensures forall i :: 0 <= i < |Summaries(listing)| ==>
      Summaries(listing)[i] == Filter(listing, IsSummaryFile)[i].summary
    decreases |listing|
  {
    if listing != [] {
      var init := listing[..|listing| - 1];
      var o := listing[|listing| - 1];
      SummariesMatchFilter(init);
      var ss, f := Summaries(init), Filter(init, IsSummaryFile);
      assert Summaries(listing) == ss + (if IsSummaryFile(o) then [o.summary] else []);
      assert Filter(listing, IsSummaryFile) == f + (if IsSummaryFile(o) then [o] else []);
      forall i | 0 <= i < |Summaries(listing)|
        ensures Summaries(listing)[i] == Filter(listing, IsSummaryFile)[i].summary
      {
        if i < |ss| {
          assert Summaries(listing)[i] == ss[i];
          assert Filter(listing, IsSummaryFile)[i] == f[i];
        }
      }
    }
  }

  /** Every summary file of the listing is read. */
  lemma SummariesRead(listing: seq<SummaryObject>)
    ensures |Summaries(listing)| == |Filter(listing, IsSummaryFile)|
    ensures forall j :: 0 <= j < |listing| && IsSummaryFile(listing[j]) ==> listing[j].summary in Summaries(listing)
  {
    SummariesMatchFilter(listing);
    var f := Filter(listing, IsSummaryFile);
    forall j | 0 <= j < |listing| && IsSummaryFile(listing[j]) ensures listing[j].summary in Summaries(listing) {
      assert listing[j] in f;
      var k :| 0 <= k < |f| && f[k] == listing[j];
      assert Summaries(listing)[k] == listing[j].summary;
    }
  }

  function TotalRows(ss: seq<Summary>): nat
    decreases |ss|
  {
    if ss == [] then 0 else TotalRows(ss[..|ss| - 1]) + ss[|ss| - 1].totalRows
  }

  function TotalAnomalies(ss: seq<Summary>): nat
    decreases |ss|
  {
    if ss == [] then 0 else TotalAnomalies(ss[..|ss| - 1]) + ss[|ss| - 1].anomalyCount
  }

  function ProcessedAt(s: Summary): string { s.processedAt }

  /** What `get_anomaly_summary()` returns. */
  function SummaryOf(listing: seq<SummaryObject>): SummaryReply
  {
    var ss := Summaries(listing);
    if ss == [] then NoProcessedFiles
    else
      var rows := TotalRows(ss);
      var anomalies := TotalAnomalies(ss);
      Aggregate(|ss|, rows, anomalies,
                if rows > 0 then (anomalies as real) / (rows as real) else 0.0,
                MostRecent(ss))
  }

  /** Totals over a longer list add up. */
  lemma {:induction false} TotalsAppend(a: seq<Summary>, b: seq<Summary>)
    ensures TotalRows(a + b) == TotalRows(a) + TotalRows(b)
    ensures TotalAnomalies(a + b) == TotalAnomalies(a) + TotalAnomalies(b)
    decreases |b|
  {
    if b == [] {
      assert a + b == a;
    } else {
      assert (a + b)[..|a + b| - 1] == a + b[..|b| - 1];
      TotalsAppend(a, b[..|b| - 1]);
    }
  }

  /** Summaries whose own counts are consistent total to consistent counts. */
  lemma {:induction false} TotalsBounded(ss: seq<Summary>)
    requires forall i :: 0 <= i < |ss| ==> ss[i].anomalyCount <= ss[i].totalRows
    ensures TotalAnomalies(ss) <= TotalRows(ss)
    decreases |ss|
  {
    if ss != [] {
      TotalsBounded(ss[..|ss| - 1]);
    }
  }

  /** The aggregate: no summary file means the message; otherwise one entry
      per summary file, a zero rate when no rows were scored, and a rate in
      [0, 1] when every summary counts no more anomalies than rows (as every
      summary `process_file` writes does). */
  lemma SummaryTotals(listing: seq<SummaryObject>)
    ensures SummaryOf(listing).NoProcessedFiles? <==> forall j :: 0 <= j < |listing| ==> !IsSummaryFile(listing[j])
    ensures SummaryOf(listing).Aggregate? ==>
      var a := SummaryOf(listing);
      var ss := Summaries(listing);
      && a.filesProcessed == |ss|
      && a.totalRowsScored == TotalRows(ss) && a.totalAnomalies == TotalAnomalies(ss)
      && (a.totalRowsScored == 0 ==> a.overallAnomalyRate == 0.0)
      && ((forall i :: 0 <= i < |ss| ==> ss[i].anomalyCount <= ss[i].totalRows) ==>
            0.0 <= a.overallAnomalyRate <= 1.0)
  {
    var ss := Summaries(listing);
    if ss != [] && forall i :: 0 <= i < |ss| ==> ss[i].anomalyCount <= ss[i].totalRows {
      TotalsBounded(ss);
      var rows := TotalRows(ss);
      var anomalies := TotalAnomalies(ss);
      if rows > 0 {
        RateBounded(anomalies, rows);
      }
    }
  }

  lemma RateBounded(count: nat, rows: nat)
    requires 0 < rows && count <= rows
    ensures 0.0 <= (count as real) / (rows as real) <= 1.0
  {
    assert (count as real) <= (rows as real);
  }

  /** `most_recent`: five of the summaries (all of them when there are
      fewer), latest `processed_at` first, none left out later than one
      shown. */
  function MostRecent(ss: seq<Summary>): (r: seq<Summary>)
    ensures |r| == if |ss| < MostRecentLimit then |ss| else MostRecentLimit
    ensures multiset(r) <= multiset(ss)
    ensures SortedDesc(r, ProcessedAt)
    ensures forall s :: s in r ==> s in ss
    ensures forall s, t :: s in ss && s !in r && t in r ==> StrLe(s.processedAt, t.processedAt)
  {
    var r := Prefix(SortDesc(ss, ProcessedAt), MostRecentLimit);
    assert |r| == (if |ss| < MostRecentLimit then |ss| else MostRecentLimit)
        && multiset(r) <= multiset(ss) by {
      TopCount(ss, ProcessedAt, MostRecentLimit);
    }
    TopByKey(ss, ProcessedAt, MostRecentLimit);
    r
  }

  /** `get_anomaly_summary`. */
  method AnomalySummary(listing: seq<SummaryObject>) returns (r: SummaryReply)
    ensures r == SummaryOf(listing)
  {
    var summaries: seq<Summary> := [];
    var i := 0;
    while i < |listing|
      invariant 0 <= i <= |listing|
      invariant summaries == Summaries(listing[..i])
    {
      var obj := listing[i];
      assert Summaries(listing[..i + 1]) == summaries + (if IsSummaryFile(obj) then [obj.summary] else []) by {
        assert listing[..i + 1][..i] == listing[..i];
      }
      if IsSummaryFile(obj) {
        summaries := summaries + [obj.summary];
      }
      i := i + 1;
    }
    assert listing[..i] == listing;
    if summaries == [] {
      return NoProcessedFiles;
    }
    var totalRows := TotalRows(summaries);
    var totalAnomalies := TotalAnomalies(summaries);
    r := Aggregate(|summaries|, totalRows, totalAnomalies,
                   if totalRows > 0 then (totalAnomalies as real) / (totalRows as real) else 0.0,
                   MostRecent(summaries));
  }

  // ------------------------------------------------------- /baseline/current

  /** One channel as the endpoint shows it. */
  datatype ChannelView = ChannelView(observations: nat, mean: real, std: real, baselineMature: bool)

  /** The response: the last save time and a view per channel. */
  datatype BaselineView = BaselineView(lastUpdated: Option<string>, channels: map<string, ChannelView>)

  /** The view of one entry: mature exactly when the detector would score the
      channel, and a missing "std" shown as 0.0. */
  function View(e: Entry): (v: ChannelView)
    ensures v.observations == e.stat.count && v.mean == e.stat.mean
    ensures v.baselineMature <==> Mature(Some(e))
    ensures v.std == (if e.std.Some? then e.std.value else 0.0)
  {
    ChannelView(e.stat.count, e.stat.mean, e.std.GetOr(0.0), e.stat.count >= 30)
  }

  /** `get_current_baseline`: every channel of the stored baseline (its
      "last_updated" stamp is kept apart, not shown as a channel), and the
      stamp itself. */
  method CurrentBaseline(stored: Option<Snapshot>) returns (r: BaselineView)
    ensures r.lastUpdated == (if stored.Some? then stored.value.lastUpdated else None)
    ensures r.channels.Keys == Loaded(stored).Keys
    ensures forall c :: c in r.channels ==> r.channels[c] == View(Loaded(stored)[c])
  {
    var table := new BaselineTable.Load(stored);
    var channels: map<string, ChannelView> := map[];
    var remaining := table.channels.Keys;
    while remaining != {}
      invariant remaining <= table.channels.Keys
      invariant channels.Keys == table.channels.Keys - remaining
      invariant forall c :: c in channels ==> channels[c] == View(table.channels[c])
      decreases remaining
    {
      var channel :| channel in remaining;
      channels := channels[channel := View(table.channels[channel])];
      remaining := remaining - {channel};
    }
    r := BaselineView(table.lastUpdated, channels);
  }
}
