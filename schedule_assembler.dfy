/** The schedule assembler of parser.js: per-rider row extraction
    (`extractRiderSchedule`) and the run of `parseRiders`, with every fetch
    replaced by its outcome given as an input. */
module ScheduleAssembler {
  import opened Wrappers
  import opened TextNormalizers
  import opened ClassResolver
  import opened RiderMatcher

  /** One element of `riderPageData`; an absent `test` is the empty string,
      which the code treats the same way. */
  datatype RawEntry = RawEntry(classText: string, test: string, ring: string, day: string, rideTime: string)

  /** A rider's schedule payload; `riderPageData` is `None` when the key is
      missing or not an array (including a body that was not JSON). */
  datatype RiderPage = RiderPage(riderPageData: Option<seq<RawEntry>>)

  /** One output row, the JSON object `{rider_name, rider_id, class, ring, day, time}`. */
  datatype ScheduleRow = ScheduleRow(riderName: string, riderId: int, classLabel: string, ring: string, day: string, time: string)

  /** The date computations the code delegates to JavaScript's `Date` in the
      local time zone: the English long weekday name of a date string, and
      the `HH:MM` prefix of `toTimeString()` of a date-time string. */
  datatype DateRendering = DateRendering(weekdayName: string -> string, hourMinute: string -> string)

  /** The row pushed for `entry`. */
  function RowOf(riderInfo: MatchedRider, entry: RawEntry, lookup: ClassLookup, mapping: ClassMapping, dates: DateRendering): ScheduleRow
  {
    ScheduleRow(
      riderInfo.originalName,
      riderInfo.riderID,
      FormatClass(ExtractClassNumber(entry.classText), entry.test, lookup, mapping),
      NormalizeRingName(entry.ring),
      FrenchDay(dates.weekdayName(entry.day)),
      dates.hourMinute(entry.rideTime))
  }

  /** `f` applied to each element of `xs`, built from the end as a loop of
      `push` calls builds it. */
  function MapSeq<A, B>(f: A -> B, xs: seq<A>): seq<B>
  {
    if xs == [] then []
    else MapSeq(f, xs[..|xs| - 1]) + [f(xs[|xs| - 1])]
  }

  /** One output per input, in order. */
  lemma {:induction false} MapSeqSpec<A, B>(f: A -> B, xs: seq<A>)
    ensures |MapSeq(f, xs)| == |xs|
    ensures forall i :: 0 <= i < |xs| ==> MapSeq(f, xs)[i] == f(xs[i])
  {
    if xs != [] {
      var n := |xs| - 1;
      MapSeqSpec(f, xs[..n]);
      assert forall i :: 0 <= i < n ==> xs[..n][i] == xs[i];
    }
  }

  /** The rows pushed for `entries`, in order. */
  function RowsOf(riderInfo: MatchedRider, entries: seq<RawEntry>, lookup: ClassLookup, mapping: ClassMapping, dates: DateRendering): seq<ScheduleRow>
  {
    MapSeq((e: RawEntry) => RowOf(riderInfo, e, lookup, mapping, dates), entries)
  }

  /** The rows of one rider's page; none without a `riderPageData` array. */
  function RidersRows(riderInfo: MatchedRider, page: RiderPage, lookup: ClassLookup, mapping: ClassMapping, dates: DateRendering): seq<ScheduleRow>
  {
    match page.riderPageData
    case None => []
    case Some(entries) => RowsOf(riderInfo, entries, lookup, mapping, dates)
  }

  /** parser.js `extractRiderSchedule`. */
  method ExtractRiderSchedule(riderInfo: MatchedRider, rawData: RiderPage, classLookup: ClassLookup,
                              classMapping: ClassMapping, dates: DateRendering)
    returns (schedule: seq<ScheduleRow>)
    ensures schedule == RidersRows(riderInfo, rawData, classLookup, classMapping, dates)
  {
    schedule := [];
    if rawData.riderPageData.Some? {
      var entries := rawData.riderPageData.value;
      for i := 0 to |entries|
        invariant schedule == RowsOf(riderInfo, entries[..i], classLookup, classMapping, dates)
      {
        assert entries[..i + 1][..i] == entries[..i];
        var entry := entries[i];
        var classId := ExtractClassNumber(entry.classText);
        var formattedClass := FormatClassString(classId, entry.test, classLookup, classMapping);
        schedule := schedule + [ScheduleRow(
          riderInfo.originalName,
          riderInfo.riderID,
          formattedClass,
          NormalizeRingName(entry.ring),
          FrenchDay(dates.weekdayName(entry.day)),
          dates.hourMinute(entry.rideTime))];
      }
      assert entries[..|entries|] == entries;
    }
  }

  /** One row per raw entry, in source order: row `i` is the row of entry `i`. */
  lemma RowsOfSpec(riderInfo: MatchedRider, entries: seq<RawEntry>, lookup: ClassLookup,
                   mapping: ClassMapping, dates: DateRendering)
    ensures |RowsOf(riderInfo, entries, lookup, mapping, dates)| == |entries|
    ensures forall i :: 0 <= i < |entries| ==>
      RowsOf(riderInfo, entries, lookup, mapping, dates)[i] == RowOf(riderInfo, entries[i], lookup, mapping, dates)
  {
    MapSeqSpec((e: RawEntry) => RowOf(riderInfo, e, lookup, mapping, dates), entries);
  }

  /** A page without a `riderPageData` array gives no rows; otherwise row `i`
      carries the rider's target name and ID, the label of entry `i`'s class
      number and test, its normalised ring, its French weekday and its time. */
  lemma RidersRowsSpec(riderInfo: MatchedRider, page: RiderPage, lookup: ClassLookup,
                       mapping: ClassMapping, dates: DateRendering)
    ensures page.riderPageData.None? ==> RidersRows(riderInfo, page, lookup, mapping, dates) == []
    ensures page.riderPageData.Some? ==>
      var entries, rows := page.riderPageData.value, RidersRows(riderInfo, page, lookup, mapping, dates);
      && |rows| == |entries|
      && forall i :: 0 <= i < |entries| ==>
        && rows[i].riderName == riderInfo.originalName
        && rows[i].riderId == riderInfo.riderID
        && rows[i].classLabel == FormatClass(ExtractClassNumber(entries[i].classText), entries[i].test, lookup, mapping)
        && rows[i].ring == NormalizeRingName(entries[i].ring)
        && rows[i].day == FrenchDay(dates.weekdayName(entries[i].day))
        && rows[i].time == dates.hourMinute(entries[i].rideTime)
  {
    if page.riderPageData.Some? {
      RowsOfSpec(riderInfo, page.riderPageData.value, lookup, mapping, dates);
    }
  }

  /** What one rider adds to `allSchedules`: its rows when its fetch
      succeeded, nothing when the fetch threw. */
  function Contribution(riderInfo: MatchedRider, scheduleData: Option<RiderPage>, lookup: ClassLookup,
                        mapping: ClassMapping, dates: DateRendering): seq<ScheduleRow>
  {
    match scheduleData
    case None => []
    case Some(page) => RidersRows(riderInfo, page, lookup, mapping, dates)
  }

  /** The concatenation of `groups`, as repeated `push(...group)` produces it. */
  function Flatten<T>(groups: seq<seq<T>>): seq<T>
  {
    if groups == [] then []
    else Flatten(groups[..|groups| - 1]) + groups[|groups| - 1]
  }

  /** Concatenation distributes over appending groups. */
  lemma {:induction false} FlattenAppend<T>(a: seq<seq<T>>, b: seq<seq<T>>)
    ensures Flatten(a + b) == Flatten(a) + Flatten(b)
    decreases |b|
  {
    if b == [] {
      assert a + b == a;
    } else {
      var n := |b| - 1;
      assert (a + b)[..|a + b| - 1] == a + b[..n];
      FlattenAppend(a, b[..n]);
    }
  }

  /** An element of the concatenation comes from one of the groups. */
  lemma {:induction false} FlattenMember<T>(groups: seq<seq<T>>, x: T)
    requires x in Flatten(groups)
    ensures exists i :: 0 <= i < |groups| && x in groups[i]
  {
    var n := |groups| - 1;
    if x !in groups[n] {
      FlattenMember(groups[..n], x);
      var i :| 0 <= i < n && x in groups[..n][i];
      assert groups[..n][i] == groups[i];
    }
  }

  /** The rows each rider adds, in rider order. */
  function Contributions(riders: seq<MatchedRider>, fetched: seq<Option<RiderPage>>, lookup: ClassLookup,
                         mapping: ClassMapping, dates: DateRendering): (groups: seq<seq<ScheduleRow>>)
    requires |fetched| == |riders|
    ensures |groups| == |riders|
    ensures forall i :: 0 <= i < |riders| ==> groups[i] == Contribution(riders[i], fetched[i], lookup, mapping, dates)
  {
    seq(|riders|, i requires 0 <= i < |riders| => Contribution(riders[i], fetched[i], lookup, mapping, dates))
  }

  /** `allSchedules` after the loop has visited `riders`, whose fetches had
      the outcomes `fetched` (`None` for a fetch that threw). */
  function Assembled(riders: seq<MatchedRider>, fetched: seq<Option<RiderPage>>, lookup: ClassLookup,
                     mapping: ClassMapping, dates: DateRendering): seq<ScheduleRow>
    requires |fetched| == |riders|
  {
    Flatten(Contributions(riders, fetched, lookup, mapping, dates))
  }

  /** The contributions of two consecutive groups of riders. */
  lemma ContributionsAppend(r1: seq<MatchedRider>, f1: seq<Option<RiderPage>>,
                            r2: seq<MatchedRider>, f2: seq<Option<RiderPage>>,
                            lookup: ClassLookup, mapping: ClassMapping, dates: DateRendering)
    requires |f1| == |r1| && |f2| == |r2|
    ensures Contributions(r1 + r2, f1 + f2, lookup, mapping, dates)
         == Contributions(r1, f1, lookup, mapping, dates) + Contributions(r2, f2, lookup, mapping, dates)
  {
    var c := Contributions(r1 + r2, f1 + f2, lookup, mapping, dates);
    var c1 := Contributions(r1, f1, lookup, mapping, dates);
    var c2 := Contributions(r2, f2, lookup, mapping, dates);
    forall i | 0 <= i < |c| ensures c[i] == (c1 + c2)[i] {
      if i < |r1| {
        assert (r1 + r2)[i] == r1[i] && (f1 + f2)[i] == f1[i];
      } else {
        assert (r1 + r2)[i] == r2[i - |r1|] && (f1 + f2)[i] == f2[i - |r1|];
      }
    }
  }

  /** The accumulation loop of parser.js `parseRiders`: each rider's rows in
      rider order; a failed fetch contributes nothing and the loop goes on. */
  method AssembleSchedules(foundRiders: seq<MatchedRider>, fetched: seq<Option<RiderPage>>, classLookup: ClassLookup,
                           classMapping: ClassMapping, dates: DateRendering)
    returns (allSchedules: seq<ScheduleRow>)
    requires |fetched| == |foundRiders|
    ensures allSchedules == Assembled(foundRiders, fetched, classLookup, classMapping, dates)
  {
    allSchedules := [];
    for i := 0 to |foundRiders|
      invariant allSchedules == Assembled(foundRiders[..i], fetched[..i], classLookup, classMapping, dates)
    {
      var riderInfo := foundRiders[i];
      var scheduleData := fetched[i];
      var riderSchedule := [];
      if scheduleData.Some? {
        riderSchedule := ExtractRiderSchedule(riderInfo, scheduleData.value, classLookup, classMapping, dates);
      }
      AssembledStep(foundRiders, fetched, i, classLookup, classMapping, dates);
      allSchedules := allSchedules + riderSchedule;
    }
    assert foundRiders[..|foundRiders|] == foundRiders;
    assert fetched[..|fetched|] == fetched;
  }

  /** One iteration of the loop appends the contribution of rider `i`. */
  lemma AssembledStep(riders: seq<MatchedRider>, fetched: seq<Option<RiderPage>>, i: nat,
                      lookup: ClassLookup, mapping: ClassMapping, dates: DateRendering)
    requires |fetched| == |riders| && i < |riders|
    ensures Assembled(riders[..i + 1], fetched[..i + 1], lookup, mapping, dates)
         == Assembled(riders[..i], fetched[..i], lookup, mapping, dates)
          + Contribution(riders[i], fetched[i], lookup, mapping, dates)
  {
    assert riders[..i + 1] == riders[..i] + [riders[i]];
    assert fetched[..i + 1] == fetched[..i] + [fetched[i]];
    ContributionsAppend(riders[..i], fetched[..i], [riders[i]], [fetched[i]], lookup, mapping, dates);
    var c := Contributions(riders[..i], fetched[..i], lookup, mapping, dates);
    var last := Contributions([riders[i]], [fetched[i]], lookup, mapping, dates);
    FlattenAppend(c, last);
    assert Flatten(last) == Flatten(last[..0]) + last[0];
  }

  /** The rows of two consecutive groups of riders are the rows of the first
      followed by the rows of the second. */
  lemma AssembledAppend(r1: seq<MatchedRider>, f1: seq<Option<RiderPage>>,
                        r2: seq<MatchedRider>, f2: seq<Option<RiderPage>>,
                        lookup: ClassLookup, mapping: ClassMapping, dates: DateRendering)
    requires |f1| == |r1| && |f2| == |r2|
    ensures Assembled(r1 + r2, f1 + f2, lookup, mapping, dates)
         == Assembled(r1, f1, lookup, mapping, dates) + Assembled(r2, f2, lookup, mapping, dates)
  {
    ContributionsAppend(r1, f1, r2, f2, lookup, mapping, dates);
    FlattenAppend(Contributions(r1, f1, lookup, mapping, dates), Contributions(r2, f2, lookup, mapping, dates));
  }

  /** Failure isolation: a rider whose fetch failed adds no rows, and the
      riders before and after it contribute exactly as they would alone. */
  lemma FailureIsolation(riders: seq<MatchedRider>, fetched: seq<Option<RiderPage>>, i: nat,
                         lookup: ClassLookup, mapping: ClassMapping, dates: DateRendering)
    requires |fetched| == |riders| && i < |riders| && fetched[i].None?
    ensures Assembled(riders, fetched, lookup, mapping, dates)
         == Assembled(riders[..i], fetched[..i], lookup, mapping, dates)
          + Assembled(riders[i + 1..], fetched[i + 1..], lookup, mapping, dates)
  {
    assert riders == riders[..i + 1] + riders[i + 1..];
    assert fetched == fetched[..i + 1] + fetched[i + 1..];
    AssembledAppend(riders[..i + 1], fetched[..i + 1], riders[i + 1..], fetched[i + 1..], lookup, mapping, dates);
    AssembledStep(riders, fetched, i, lookup, mapping, dates);
  }

  /** Every output row carries the target name and ID of a rider whose fetch
      succeeded. */
  lemma AssembledRowsFromSucceededRiders(riders: seq<MatchedRider>, fetched: seq<Option<RiderPage>>,
                                         lookup: ClassLookup, mapping: ClassMapping, dates: DateRendering)
    requires |fetched| == |riders|
    ensures forall row :: row in Assembled(riders, fetched, lookup, mapping, dates) ==>
      exists i :: (0 <= i < |riders| && fetched[i].Some?
        && row.riderName == riders[i].originalName && row.riderId == riders[i].riderID)
  {
    var groups := Contributions(riders, fetched, lookup, mapping, dates);
    forall row: ScheduleRow | row in Flatten(groups)
      ensures exists i :: (0 <= i < |riders| && fetched[i].Some?
        && row.riderName == riders[i].originalName && row.riderId == riders[i].riderID)
    {
      FlattenMember(groups, row);
      var i :| 0 <= i < |groups| && row in groups[i];
      var entries := fetched[i].value.riderPageData.value;
      RowsOfSpec(riders[i], entries, lookup, mapping, dates);
      var rows := RowsOf(riders[i], entries, lookup, mapping, dates);
      var j :| 0 <= j < |rows| && row == rows[j];
    }
  }

  /** The configuration the run uses: `riderNames` and `classMapping`
      (`showId` only parameterises fetches, which are inputs here). */
  datatype Config = Config(riderNames: seq<string>, classMapping: ClassMapping)

  /** The roster fetch: it fails (a rejected request, or a `null` body whose
      `riderData` cannot be read) or yields a payload whose `riderData` array
      may be missing. */
  datatype RosterResponse = RosterFailed | RosterFetched(riderData: Option<seq<RosterEntry>>)

  /** The outcome of a run: the schedule, or the error rethrown to the caller. */
  datatype RunOutcome = Completed(schedule: seq<ScheduleRow>) | Aborted

  /** The riders matched by a successful roster fetch. */
  function MatchedRiders(riderData: Option<seq<RosterEntry>>, riderNames: seq<string>): seq<MatchedRider>
  {
    match riderData
    case None => []
    case Some(roster) => Matches(roster, riderNames)
  }

  /** parser.js `parseRiders`, from the loaded configuration on: no names or
      no matches give `[]`, a failed roster fetch aborts, a failed class
      fetch gives an empty lookup, and the loop assembles the rows. */
  method ParseRiders(config: Config, roster: RosterResponse, classData: Option<seq<ClassRecord>>,
                     fetched: seq<Option<RiderPage>>, dates: DateRendering)
    returns (outcome: RunOutcome)
    requires roster.RosterFetched? ==> |fetched| == |MatchedRiders(roster.riderData, config.riderNames)|
    ensures config.riderNames == [] ==> outcome == Completed([])
    ensures config.riderNames != [] && roster.RosterFailed? ==> outcome == Aborted
    ensures config.riderNames != [] && roster.RosterFetched? ==>
      outcome == Completed(Assembled(MatchedRiders(roster.riderData, config.riderNames), fetched,
                                     LookupFrom(classData), config.classMapping, dates))
  {
    if config.riderNames == [] {
      return Completed([]);
    }
    if roster.RosterFailed? {
      return Aborted;
    }
    var foundRiders := FindRidersByNames(roster.riderData, config.riderNames);
    if foundRiders == [] {
      return Completed([]);
    }
    var classLookup := BuildClassLookup(classData);
    var allSchedules := AssembleSchedules(foundRiders, fetched, classLookup, config.classMapping, dates);
    return Completed(allSchedules);
  }

}
