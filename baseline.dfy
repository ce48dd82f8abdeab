/** The stored per-channel baseline (`BaselineManager`): loading it, folding a
    batch of values into one channel with Welford's algorithm, deriving the
    standard deviation, and saving it with a timestamp. */
module Baseline {
  import opened Wrappers
  import opened Welford

  /** Where the baseline document lives in the bucket. */
  const BaselineKey: string := "state/baseline.json"

  /** One channel's stored entry: the Welford accumulator ("count", "mean",
      "M2") and "std", which a freshly created entry lacks until the update
      that created it finishes. */
  datatype Entry = Entry(stat: Stat, std: Option<real>)

  /** The entry created for a channel seen for the first time. */
  const FreshEntry: Entry := Entry(Fresh, None)

  /** The stored baseline document: an entry per channel, and the time of the
      last save (absent until the first save). */
  datatype Snapshot = Snapshot(channels: map<string, Entry>, lastUpdated: Option<string>)

  /** The entry the update works on: the stored one, or a fresh one. */
  function EntryOrFresh(channels: map<string, Entry>, c: string): Entry
  {
    if c in channels then channels[c] else FreshEntry
  }

  /** "std" after an update: the population standard deviation `sqrt(M2 / count)`
      once there are two observations, and 0.0 before. */
  function StdOf(s: Stat, sqrt: real -> real): real
  {
    if s.count >= 2 then sqrt(s.m2 / (s.count as real)) else 0.0
  }

  /** The entry after folding in a batch and recomputing "std". */
  function Updated(prior: Entry, xs: seq<real>, sqrt: real -> real): (r: Entry)
    ensures r.stat.count == prior.stat.count + |xs|
    ensures r.std == Some(StdOf(r.stat, sqrt))
  {
    FoldCount(prior.stat, xs);
    var t := Fold(prior.stat, xs);
    Entry(t, Some(StdOf(t, sqrt)))
  }

  /** The whole table after `update(baseline, c, xs)`. */
  function UpdateChannel(channels: map<string, Entry>, c: string, xs: seq<real>, sqrt: real -> real): (r: map<string, Entry>)
    ensures r.Keys == channels.Keys + {c}
    ensures forall k :: k in channels && k != c ==> r[k] == channels[k]
    ensures r[c].stat.count == EntryOrFresh(channels, c).stat.count + |xs|
  {
    channels[c := Updated(EntryOrFresh(channels, c), xs, sqrt)]
  }

  /** Every stored M2 is non-negative. */
  ghost predicate NonNegativeM2(channels: map<string, Entry>)
  {
    forall c :: c in channels ==> channels[c].stat.m2 >= 0.0
  }

  /** An update keeps every M2 non-negative, and with a correct square root
      the updated channel's "std" is non-negative too. */
  lemma UpdateKeepsNonNegative(channels: map<string, Entry>, c: string, xs: seq<real>, sqrt: real -> real)
    requires NonNegativeM2(channels)
    ensures NonNegativeM2(UpdateChannel(channels, c, xs, sqrt))
    ensures IsSqrt(sqrt) ==> UpdateChannel(channels, c, xs, sqrt)[c].std.value >= 0.0
  {
    var prior := EntryOrFresh(channels, c).stat;
    FoldM2Monotone(prior, xs);
    var t := Fold(prior, xs);
    if t.count >= 2 {
      assert t.m2 / (t.count as real) >= 0.0;
    }
  }

  /** Two updates of one channel are one update with the concatenated batch:
      the baseline depends only on the values seen, not on how they were split
      into files. */
  lemma UpdateTwice(channels: map<string, Entry>, c: string, xs: seq<real>, ys: seq<real>, sqrt: real -> real)
    ensures UpdateChannel(UpdateChannel(channels, c, xs, sqrt), c, ys, sqrt)
         == UpdateChannel(channels, c, xs + ys, sqrt)
  {
    FoldSplit(EntryOrFresh(channels, c).stat, xs, ys);
  }

  /** The variance behind "std" is the two-pass one: with a correct square
      root, "std" squared times the count is the sum of squared deviations of
      the values from their mean. */
  lemma StdSquared(t: Stat, xs: seq<real>, sqrt: real -> real)
    requires IsSqrt(sqrt)
    requires t.count == |xs| >= 2
    requires t.m2 == SumSqDev(xs, t.mean)
    ensures StdOf(t, sqrt) >= 0.0
    ensures StdOf(t, sqrt) * StdOf(t, sqrt) * (|xs| as real) == SumSqDev(xs, t.mean)
  {
    var n := |xs| as real;
    var v := t.m2 / n;
    SumSqDevNonNegative(xs, t.mean);
    assert v >= 0.0;
    assert v * n == t.m2;
  }

  /** A channel first seen in this batch: its mean is the batch mean, its
      "std" is 0.0 below two values, and from two values on, with a correct
      square root, "std" squared times the count is the two-pass sum of
      squared deviations from that mean. */
  lemma FreshChannel(xs: seq<real>, sqrt: real -> real)
    requires |xs| > 0
    ensures Updated(FreshEntry, xs, sqrt).stat.mean == Sum(xs) / (|xs| as real)
    ensures |xs| < 2 ==> Updated(FreshEntry, xs, sqrt).std == Some(0.0)
    ensures IsSqrt(sqrt) && |xs| >= 2 ==>
      var r := Updated(FreshEntry, xs, sqrt);
      r.std.value >= 0.0 && r.std.value * r.std.value * (|xs| as real) == SumSqDev(xs, r.stat.mean)
  {
    FreshMean(xs);
    FoldCount(Fresh, xs);
    TwoPass(Fresh, xs);
    if IsSqrt(sqrt) && |xs| >= 2 {
      StdSquared(Fold(Fresh, xs), xs, sqrt);
    }
  }

  /** The baseline document held in memory while a file is processed. */
  class BaselineTable {
    var channels: map<string, Entry>
    var lastUpdated: Option<string>

    /** `load()`: the stored document, or an empty one when none exists yet. */
    constructor Load(stored: Option<Snapshot>)
      ensures stored.None? ==> channels == map[] && lastUpdated == None
      ensures stored.Some? ==> channels == stored.value.channels && lastUpdated == stored.value.lastUpdated
    {
      if stored.Some? {
        channels := stored.value.channels;
        lastUpdated := stored.value.lastUpdated;
      } else {
        channels := map[];
        lastUpdated := None;
      }
    }

    /** `save(baseline)`: stamp the document with `now` and return what is
        written to `BaselineKey`. */
    method Save(now: string) returns (written: Snapshot)
      modifies this
      ensures channels == old(channels) && lastUpdated == Some(now)
      ensures written == Snapshot(channels, lastUpdated)
    {
      lastUpdated := Some(now);
      written := Snapshot(channels, lastUpdated);
    }

    /** `update(baseline, channel, new_values)`: create the entry if missing,
        run Welford's step per value, then set "std". */
    method Update(channel: string, newValues: seq<real>, sqrt: real -> real)
      modifies this
      ensures channels == UpdateChannel(old(channels), channel, newValues, sqrt)
      ensures lastUpdated == old(lastUpdated)
    {
      if channel !in channels {
        channels := channels[channel := FreshEntry];
      }
      var prior := channels[channel];
      var state := prior.stat;
      var i := 0;
      while i < |newValues|
        invariant 0 <= i <= |newValues|
        invariant state == Fold(prior.stat, newValues[..i])
        invariant channels == old(channels)[channel := prior]
        invariant lastUpdated == old(lastUpdated)
      {
        FoldExtend(prior.stat, newValues, i);
        // count, delta, mean, delta2, M2, in that order: `Welford.Step`
        state := Step(state, newValues[i]);
        i := i + 1;
      }
      assert newValues[..i] == newValues;
      var std: real;
      if state.count >= 2 {
        var variance := state.m2 / (state.count as real);
        std := sqrt(variance);
      } else {
        std := 0.0;
      }
      channels := channels[channel := Entry(state, Some(std))];
    }
  }
}
