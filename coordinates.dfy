/** Resolves where each manipulator was at a reference time from the NewScale movement log:
    the latest movement of each device strictly before that time, at most six devices,
    z corrected when the log is judged inverted, labelled by probe and sorted by label. */
module Coordinates {
  import opened Outcomes
  import opened Text
  import opened Registry
  import opened ZInversion

  const SecondsPerDay: int := 86400

  /** No rig has more than six manipulators. */
  const MaxManipulators: nat := 6

  /** One row of the movement log: the time of the movement (missing when the log
      could not parse it), the serial number as logged, and the positions. */
  datatype LogEntry = LogEntry(
    lastMovement: Option<int>,
    deviceName: string,
    x: int, y: int, z: int,
    xVirtual: int, yVirtual: int, zVirtual: int)

  /** A log row once its time is known and its virtual columns are dropped. */
  datatype Movement = Movement(lastMovement: int, deviceName: string, x: int, y: int, z: int)

  /** One row of the resolved table. */
  datatype Position = Position(
    electrodeGroupName: string,
    lastMovement: int,
    deviceName: string,
    x: int, y: int, z: int,
    lastMovementTime: int)

  function Day(t: int): (day: int) { t / SecondsPerDay }

  function Min(a: int, b: int): (m: int) { if a <= b then a else b }

  // ---------------------------------------------------------------------------
  // Date coverage and the sample used for the inversion heuristic

  predicate MovedOn(e: LogEntry, day: int) {
    e.lastMovement.Some? && Day(e.lastMovement.value) == day
  }

  /** The dates of the timed log rows. */
  function LoggedDates(log: seq<LogEntry>): (days: set<int>) {
    set e | e in log && e.lastMovement.Some? :: Day(e.lastMovement.value)
  }

  /** Whether the day is among the dates of the log: some row moved on that day. */
  predicate HasMovementOn(log: seq<LogEntry>, day: int): (covered: bool)
    ensures covered <==> exists e :: e in log && MovedOn(e, day)
    ensures covered ==> log != []
  {
    day in LoggedDates(log)
  }

  /** The date of the entry is later than the day before the start date. */
  predicate IsRecent(e: LogEntry, start: int) {
    e.lastMovement.Some? && Day(e.lastMovement.value) > Day(start) - 1
  }

  /** The "recent" window opens at midnight of the start date (not 24 hours
      before the start) and has no upper end. */
  lemma RecentMeansFromStartDay(e: LogEntry, start: int)
    ensures IsRecent(e, start) <==>
              e.lastMovement.Some? && e.lastMovement.value >= Day(start) * SecondsPerDay
  {
    if e.lastMovement.Some? {
      var t := e.lastMovement.value;
      assert t == Day(t) * SecondsPerDay + t % SecondsPerDay;
      assert start == Day(start) * SecondsPerDay + start % SecondsPerDay;
    }
  }

  /** The z readings of the recent entries, in log order. */
  function RecentZ(log: seq<LogEntry>, start: int): (zs: seq<int>)
    ensures |zs| <= |log|
    ensures forall z :: z in zs ==> exists e :: e in log && IsRecent(e, start) && e.z == z
  {
    if log == [] then []
    else (if IsRecent(log[0], start) then [log[0].z] else []) + RecentZ(log[1..], start)
  }

  /** The recent sample of a log split in two is the two samples one after the other. */
  lemma {:induction false} RecentZAppend(a: seq<LogEntry>, b: seq<LogEntry>, start: int)
    ensures RecentZ(a + b, start) == RecentZ(a, start) + RecentZ(b, start)
  {
    if a != [] {
      assert (a + b)[0] == a[0];
      assert (a + b)[1..] == a[1..] + b;
      RecentZAppend(a[1..], b, start);
      var head := if IsRecent(a[0], start) then [a[0].z] else [];
      calc {
        RecentZ(a + b, start);
        head + RecentZ(a[1..] + b, start);
        head + (RecentZ(a[1..], start) + RecentZ(b, start));
        (head + RecentZ(a[1..], start)) + RecentZ(b, start);
        RecentZ(a, start) + RecentZ(b, start);
      }
    } else {
      assert a + b == b;
    }
  }

  /** Entries dated before the start date have no say in the inversion heuristic. */
  lemma {:induction false} OlderEntriesIgnored(older: seq<LogEntry>, log: seq<LogEntry>, start: int)
    requires forall e :: e in older ==> !IsRecent(e, start)
    ensures RecentZ(older + log, start) == RecentZ(log, start)
    ensures IsZInverted(RecentZ(older + log, start)) == IsZInverted(RecentZ(log, start))
  {
    RecentZAppend(older, log, start);
    NoRecentEntries(older, start);
  }

  lemma {:induction false} NoRecentEntries(log: seq<LogEntry>, start: int)
    requires forall e :: e in log ==> !IsRecent(e, start)
    ensures RecentZ(log, start) == []
  {
    if log != [] { NoRecentEntries(log[1..], start); }
  }

  // ---------------------------------------------------------------------------
  // Movements strictly before the reference time

  predicate IsPrior(e: LogEntry, start: int) {
    e.lastMovement.Some? && e.lastMovement.value < start
  }

  /** Keeps the first five columns of a timed row. */
  function Select(e: LogEntry): (m: Movement)
    requires e.lastMovement.Some?
  {
    Movement(e.lastMovement.value, e.deviceName, e.x, e.y, e.z)
  }

  /** The log rows timed strictly before `start`, without their virtual columns. */
  function PriorMovements(log: seq<LogEntry>, start: int): (prior: seq<Movement>)
    ensures forall m :: m in prior ==> m.lastMovement < start
    ensures forall e :: e in log && IsPrior(e, start) ==> Select(e) in prior
    ensures forall m :: m in prior ==> exists e :: e in log && IsPrior(e, start) && Select(e) == m
  {
    if log == [] then []
    else
      var rest := PriorMovements(log[1..], start);
      assert forall e :: e in log ==> e == log[0] || e in log[1..];
      if IsPrior(log[0], start) then [Select(log[0])] + rest else rest
  }

  /** The raw serial numbers (as logged, unstripped) that have a movement. */
  function DeviceNames(ms: seq<Movement>): (names: set<string>) {
    set m | m in ms :: m.deviceName
  }

  /** The stripped serial numbers that have a movement. */
  function StrippedSerials(ms: seq<Movement>): (serials: set<string>) {
    set m | m in ms :: Strip(m.deviceName)
  }

  // ---------------------------------------------------------------------------
  // Latest movement per device, and the six most recently moved devices

  /** `m` is a movement of `ms` and no movement of the same device in `ms` is later. */
  ghost predicate IsLatest(ms: seq<Movement>, m: Movement) {
    m in ms && forall e :: e in ms && e.deviceName == m.deviceName ==> e.lastMovement <= m.lastMovement
  }

  /** `latest` maps every device of `ms` to one of its latest movements. */
  ghost predicate IsLatestMap(ms: seq<Movement>, latest: map<string, Movement>) {
    && latest.Keys == DeviceNames(ms)
    && forall d :: d in latest ==> latest[d].deviceName == d && IsLatest(ms, latest[d])
  }

  /** Groups the movements by raw serial number and keeps the latest of each group. */
  method LatestPerDevice(ms: seq<Movement>) returns (latest: map<string, Movement>)
    ensures IsLatestMap(ms, latest)
  {
    latest := map[];
    for i := 0 to |ms|
      invariant latest.Keys == DeviceNames(ms[..i])
      invariant forall d :: d in latest ==> latest[d].deviceName == d && IsLatest(ms[..i], latest[d])
    {
      var m := ms[i];
      assert ms[..i + 1] == ms[..i] + [m];
      DeviceNamesSnoc(ms[..i], m);
      if m.deviceName !in latest || latest[m.deviceName].lastMovement <= m.lastMovement {
        latest := latest[m.deviceName := m];
      }
    }
    assert ms[..|ms|] == ms;
  }

  /** One more movement adds exactly its device to the devices moved. */
  lemma DeviceNamesSnoc(ms: seq<Movement>, m: Movement)
    ensures DeviceNames(ms + [m]) == DeviceNames(ms) + {m.deviceName}
  {
    assert forall e :: e in ms + [m] <==> e in ms || e == m;
  }

  /** `kept` holds the latest movements of the `k` (or, when there are fewer, all)
      devices of `latest` moved most recently, one movement per device. */
  ghost predicate IsTopK(latest: map<string, Movement>, k: nat, kept: seq<Movement>) {
    && |kept| == Min(k, |latest.Keys|)
    && (forall i :: 0 <= i < |kept| ==> kept[i].deviceName in latest && latest[kept[i].deviceName] == kept[i])
    && (forall i, j :: 0 <= i < j < |kept| ==> kept[i].deviceName != kept[j].deviceName)
    && (forall d, i :: d in latest && d !in DeviceNames(kept) && 0 <= i < |kept| ==>
          latest[d].lastMovement <= kept[i].lastMovement)
  }

  /** The state of `TopK` after some rounds: `kept` holds the latest movements of the
      devices taken so far, `rest` the devices not taken, none moved later than a taken one. */
  ghost predicate TopKInvariant(latest: map<string, Movement>, k: nat, kept: seq<Movement>, rest: set<string>) {
    && rest == latest.Keys - DeviceNames(kept)
    && |kept| + |rest| == |latest.Keys|
    && |kept| <= k
    && (forall i :: 0 <= i < |kept| ==> kept[i].deviceName in latest && latest[kept[i].deviceName] == kept[i])
    && (forall i, j :: 0 <= i < j < |kept| ==> kept[i].deviceName != kept[j].deviceName)
    && (forall d, i :: d in rest && 0 <= i < |kept| ==> latest[d].lastMovement <= kept[i].lastMovement)
  }

  /** Taking the most recently moved device left keeps the invariant of `TopK`. */
  lemma TopKStep(latest: map<string, Movement>, k: nat, kept: seq<Movement>, rest: set<string>, best: string)
    requires forall d :: d in latest ==> latest[d].deviceName == d
    requires TopKInvariant(latest, k, kept, rest) && |kept| < k
    requires best in rest
    requires forall d :: d in rest ==> latest[d].lastMovement <= latest[best].lastMovement
    ensures TopKInvariant(latest, k, kept + [latest[best]], rest - {best})
  {
    var m := latest[best];
    DeviceNamesSnoc(kept, m);
    TakenAreLatest(latest, kept, rest, best);
    TakenAreDistinct(kept, m);
  }

  lemma TakenAreLatest(latest: map<string, Movement>, kept: seq<Movement>, rest: set<string>, best: string)
    requires best in latest
    requires forall i :: 0 <= i < |kept| ==> kept[i].deviceName in latest && latest[kept[i].deviceName] == kept[i]
    requires latest[best].deviceName == best
    ensures var next := kept + [latest[best]];
      forall i :: 0 <= i < |next| ==> next[i].deviceName in latest && latest[next[i].deviceName] == next[i]
  {
    var next := kept + [latest[best]];
    forall i | 0 <= i < |next|
      ensures next[i].deviceName in latest && latest[next[i].deviceName] == next[i]
    {
      if i < |kept| { assert next[i] == kept[i]; }
    }
  }

  lemma TakenAreDistinct(kept: seq<Movement>, m: Movement)
    requires forall i, j :: 0 <= i < j < |kept| ==> kept[i].deviceName != kept[j].deviceName
    requires m.deviceName !in DeviceNames(kept)
    ensures var next := kept + [m];
      forall i, j :: 0 <= i < j < |next| ==> next[i].deviceName != next[j].deviceName
  {
    var next := kept + [m];
    forall i, j | 0 <= i < j < |next|
      ensures next[i].deviceName != next[j].deviceName
    {
      if j == |kept| {
        assert next[i] == kept[i];
        assert kept[i].deviceName in DeviceNames(kept);
      } else {
        assert next[i] == kept[i] && next[j] == kept[j];
      }
    }
  }

  /** Picks the `k` groups with the latest movements, by repeatedly taking the
      most recently moved device that is left. */
  method TopK(latest: map<string, Movement>, k: nat) returns (kept: seq<Movement>)
    requires forall d :: d in latest ==> latest[d].deviceName == d
    ensures IsTopK(latest, k, kept)
  {
    kept := [];
    var rest := latest.Keys;
    assert DeviceNames(kept) == {};
    while |kept| < k && rest != {}
      invariant TopKInvariant(latest, k, kept, rest)
      decreases |rest|
    {
      var best := MostRecentlyMoved(latest, rest);
      TopKStep(latest, k, kept, rest, best);
      kept, rest := kept + [latest[best]], rest - {best};
    }
    TopKDone(latest, k, kept, rest);
  }

  /** Once `k` devices are taken or none is left, the invariant is the top-k property. */
  lemma TopKDone(latest: map<string, Movement>, k: nat, kept: seq<Movement>, rest: set<string>)
    requires TopKInvariant(latest, k, kept, rest)
    requires |kept| == k || rest == {}
    ensures IsTopK(latest, k, kept)
  {
  }

  /** A device of `rest` whose latest movement is no earlier than that of any other device of `rest`. */
  method MostRecentlyMoved(latest: map<string, Movement>, rest: set<string>) returns (best: string)
    requires rest != {} && rest <= latest.Keys
    ensures best in rest
    ensures forall d :: d in rest ==> latest[d].lastMovement <= latest[best].lastMovement
  {
    best :| best in rest;
    var todo := rest - {best};
    while todo != {}
      invariant todo <= rest && best in rest && best !in todo
      invariant forall d :: d in rest && d !in todo ==> latest[d].lastMovement <= latest[best].lastMovement
      decreases |todo|
    {
      var d :| d in todo;
      if latest[d].lastMovement > latest[best].lastMovement {
        best := d;
      }
      todo := todo - {d};
    }
  }

  /** `kept` holds, one per device, the latest movements of the at most `k` devices of
      `ms` whose latest movements are the most recent: every other device moved no later. */
  ghost predicate IsTopLatest(ms: seq<Movement>, k: nat, kept: seq<Movement>) {
    && |kept| == Min(k, |DeviceNames(ms)|)
    && (forall i :: 0 <= i < |kept| ==> IsLatest(ms, kept[i]))
    && (forall i, j :: 0 <= i < j < |kept| ==> kept[i].deviceName != kept[j].deviceName)
    && (forall e, i :: e in ms && e.deviceName !in DeviceNames(kept) && 0 <= i < |kept| ==>
          e.lastMovement <= kept[i].lastMovement)
  }

  /** Taking the top `k` of the latest-per-device map selects the top `k` devices of the movements. */
  lemma TopOfLatestMap(ms: seq<Movement>, latest: map<string, Movement>, k: nat, kept: seq<Movement>)
    requires IsLatestMap(ms, latest)
    requires IsTopK(latest, k, kept)
    ensures IsTopLatest(ms, k, kept)
  {
    forall e, i | e in ms && e.deviceName !in DeviceNames(kept) && 0 <= i < |kept|
      ensures e.lastMovement <= kept[i].lastMovement
    {
      assert e.deviceName in DeviceNames(ms);
      assert IsLatest(ms, latest[e.deviceName]);
    }
  }

  // ---------------------------------------------------------------------------
  // Labelling, z correction and relative time

  /** "probe" and the probe letter for a registered serial number; any other serial
      number is left as it is. */
  function ElectrodeGroupName(registry: DeviceRegistry, serial: string): (name: string)
    ensures IsKnown(registry, serial) ==> name == "probe" + [registry.probeLetter[serial]]
    ensures !IsKnown(registry, serial) ==> name == serial
  {
    if IsKnown(registry, serial) then "probe" + [registry.probeLetter[serial]] else serial
  }

  /** Probe labels sort in the order of their letters, so a table sorted by
      electrode group name lists probes A to F in that order. */
  lemma ProbeLabelOrder(c: char, d: char)
    ensures LexLe("probe" + [c], "probe" + [d]) <==> c <= d
  {
    LexLeCommonPrefix("probe", [c], [d]);
  }

  lemma {:induction false} LexLeCommonPrefix(x: string, a: string, b: string)
    ensures LexLe(x + a, x + b) <==> LexLe(a, b)
  {
    if x != [] {
      assert (x + a)[0] == x[0] == (x + b)[0];
      assert (x + a)[1..] == x[1..] + a;
      assert (x + b)[1..] == x[1..] + b;
      LexLeCommonPrefix(x[1..], a, b);
    } else {
      assert x + a == a && x + b == b;
    }
  }

  /** The correction can be applied to `m`: when z is inverted, its stripped serial is registered. */
  predicate CanCorrect(registry: DeviceRegistry, m: Movement, inverted: bool) {
    inverted ==> IsKnown(registry, Strip(m.deviceName))
  }

  predicate Correctable(registry: DeviceRegistry, kept: seq<Movement>, inverted: bool) {
    forall i :: 0 <= i < |kept| ==> CanCorrect(registry, kept[i], inverted)
  }

  /** The table row for one selected movement: serial stripped, probe label attached,
      z mirrored about the device's travel when the log is inverted, and the time of
      the movement relative to `start`. */
  function Resolved(registry: DeviceRegistry, m: Movement, start: int, inverted: bool): (p: Position)
    requires CanCorrect(registry, m, inverted)
    ensures p.deviceName == Strip(m.deviceName)
    ensures p.electrodeGroupName == ElectrodeGroupName(registry, p.deviceName)
    ensures p.lastMovement == m.lastMovement && p.x == m.x && p.y == m.y
    ensures !inverted ==> p.z == m.z
    ensures inverted ==> p.z + m.z == ZTravel(registry, p.deviceName).value
    ensures p.lastMovementTime + start == p.lastMovement
  {
    var serial := Strip(m.deviceName);
    var z := if inverted then ZTravel(registry, serial).value - m.z else m.z;
    Position(ElectrodeGroupName(registry, serial), m.lastMovement, serial, m.x, m.y, z, m.lastMovement - start)
  }

  /** The rows for the selected movements, in their order. */
  function Tabulate(registry: DeviceRegistry, kept: seq<Movement>, start: int, inverted: bool): (rows: seq<Position>)
    requires Correctable(registry, kept, inverted)
    ensures |rows| == |kept|
    ensures forall i :: 0 <= i < |kept| ==> rows[i] == Resolved(registry, kept[i], start, inverted)
  {
    seq(|kept|, i requires 0 <= i < |kept| => Resolved(registry, kept[i], start, inverted))
  }

  // ---------------------------------------------------------------------------
  // Sorting by electrode group name

  ghost predicate SortedByLabel(rows: seq<Position>) {
    forall i, j :: 0 <= i < j < |rows| ==> LexLe(rows[i].electrodeGroupName, rows[j].electrodeGroupName)
  }

  function InsertByLabel(p: Position, rows: seq<Position>): (r: seq<Position>)
    requires SortedByLabel(rows)
    ensures SortedByLabel(r)
    ensures multiset(r) == multiset(rows) + multiset{p}
  {
    if rows == [] then [p]
    else if LexLe(p.electrodeGroupName, rows[0].electrodeGroupName) then
      SortedCons(p, rows);
      [p] + rows
    else
      var tail := InsertByLabel(p, rows[1..]);
      assert rows == [rows[0]] + rows[1..];
      LexLeTotal(p.electrodeGroupName, rows[0].electrodeGroupName);
      SortedConsInserted(rows, p, tail);
      [rows[0]] + tail
  }

  /** A row no greater than the first of a sorted table can go in front of it. */
  lemma SortedCons(p: Position, rows: seq<Position>)
    requires SortedByLabel(rows) && rows != []
    requires LexLe(p.electrodeGroupName, rows[0].electrodeGroupName)
    ensures SortedByLabel([p] + rows)
  {
    var r := [p] + rows;
    forall i, j | 0 <= i < j < |r|
      ensures LexLe(r[i].electrodeGroupName, r[j].electrodeGroupName)
    {
      if i == 0 {
        assert r[j] == rows[j - 1];
        if j > 1 {
          LexLeTransitive(p.electrodeGroupName, rows[0].electrodeGroupName, rows[j - 1].electrodeGroupName);
        }
      } else {
        assert r[i] == rows[i - 1] && r[j] == rows[j - 1];
      }
    }
  }

  /** The first row of a sorted table stays in front of the rest with `p` inserted,
      when `p` is no smaller than it. */
  lemma SortedConsInserted(rows: seq<Position>, p: Position, tail: seq<Position>)
    requires SortedByLabel(rows) && rows != []
    requires LexLe(rows[0].electrodeGroupName, p.electrodeGroupName)
    requires SortedByLabel(tail) && multiset(tail) == multiset(rows[1..]) + multiset{p}
    ensures SortedByLabel([rows[0]] + tail)
  {
    var r := [rows[0]] + tail;
    forall i, j | 0 <= i < j < |r|
      ensures LexLe(r[i].electrodeGroupName, r[j].electrodeGroupName)
    {
      if i == 0 {
        var q := tail[j - 1];
        assert r[j] == q;
        assert q in multiset(tail);
        if q != p {
          assert q in multiset(rows[1..]);
          var k :| 0 <= k < |rows[1..]| && rows[1..][k] == q;
          assert rows[k + 1] == q;
        }
      } else {
        assert r[i] == tail[i - 1] && r[j] == tail[j - 1];
      }
    }
  }

  /** The rows in ascending order of electrode group name, a permutation of the input. */
  function SortByLabel(rows: seq<Position>): (r: seq<Position>)
    ensures SortedByLabel(r)
    ensures multiset(r) == multiset(rows)
  {
    if rows == [] then []
    else
      assert rows == [rows[0]] + rows[1..];
      InsertByLabel(rows[0], SortByLabel(rows[1..]))
  }

  // ---------------------------------------------------------------------------
  // The resolver

  /** `p` is the corrected row of the latest movement, among `ms`, of some device. */
  ghost predicate IsResolvedRow(registry: DeviceRegistry, ms: seq<Movement>, start: int, inverted: bool, p: Position) {
    exists m :: IsLatest(ms, m) && CanCorrect(registry, m, inverted) && p == Resolved(registry, m, start, inverted)
  }

  /** A device that has no movement before `start` has no row: every resolved row
      comes from a logged movement strictly before `start` of a device whose stripped
      serial number is the row's. */
  lemma ResolvedRowHasPriorMovement(registry: DeviceRegistry, log: seq<LogEntry>, start: int, inverted: bool, p: Position)
    requires IsResolvedRow(registry, PriorMovements(log, start), start, inverted, p)
    ensures exists e :: e in log && IsPrior(e, start) && Strip(e.deviceName) == p.deviceName
    ensures p.lastMovement < start
  {
    var m :| IsLatest(PriorMovements(log, start), m) && CanCorrect(registry, m, inverted) && p == Resolved(registry, m, start, inverted);
    var e :| e in log && IsPrior(e, start) && Select(e) == m;
  }

  /** Two movements of two different devices are both kept. */
  lemma TwoDevicesBothKept(a: Movement, b: Movement)
    requires a.deviceName != b.deviceName
    ensures IsTopLatest([a, b], MaxManipulators, [a, b])
  {
    var ms := [a, b];
    assert DeviceNames(ms) == {a.deviceName, b.deviceName};
    assert DeviceNames(ms) == {a.deviceName, b.deviceName} by {
      assert ms[0] == a && ms[1] == b;
    }
  }

  /** The labels of a resolved table need not be distinct: SN32149 and SN24272 both
      carry probe D, so a log that has both before the start yields two "probeD" rows. */
  lemma SharedProbeLetterGivesDuplicateLabels(start: int)
    ensures var ms := [Movement(start - 10, "SN32149", 0, 0, 0), Movement(start - 5, "SN24272", 0, 0, 0)];
      var rows := Tabulate(NewScale, ms, start, false);
      && IsTopLatest(ms, MaxManipulators, ms)
      && rows[0].electrodeGroupName == rows[1].electrodeGroupName == "probeD"
      && rows[0].deviceName != rows[1].deviceName
  {
    var m0, m1 := Movement(start - 10, "SN32149", 0, 0, 0), Movement(start - 5, "SN24272", 0, 0, 0);
    TwoDevicesBothKept(m0, m1);
    StripTrimmed("SN32149");
    StripTrimmed("SN24272");
    SharedLetterD();
  }

  /** Grouping is on the serial number as logged, so a serial logged once with a leading
      space and once without forms two groups that strip to the same serial number. */
  lemma PaddedSerialFormsItsOwnGroup(start: int)
    ensures var ms := [Movement(start - 10, " SN40906", 0, 0, 0), Movement(start - 5, "SN40906", 0, 0, 0)];
      var rows := Tabulate(NewScale, ms, start, false);
      && IsTopLatest(ms, MaxManipulators, ms)
      && rows[0].deviceName == rows[1].deviceName == "SN40906"
      && rows[0].electrodeGroupName == rows[1].electrodeGroupName == "probeA"
  {
    var m0, m1 := Movement(start - 10, " SN40906", 0, 0, 0), Movement(start - 5, "SN40906", 0, 0, 0);
    assert m0.deviceName != m1.deviceName by { assert m0.deviceName[0] != m1.deviceName[0]; }
    TwoDevicesBothKept(m0, m1);
    StripPadded("SN40906", ' ');
    assert [' '] + "SN40906" == " SN40906";
    StripTrimmed("SN40906");
    LetterA();
  }

  /** `rows` is a table the resolver may give for the movements `ms` before `start`: the
      top devices' latest movements, corrected, labelled and sorted. */
  ghost predicate IsResolution(registry: DeviceRegistry, ms: seq<Movement>, start: int, inverted: bool, rows: seq<Position>) {
    exists kept ::
      && IsTopLatest(ms, MaxManipulators, kept)
      && Correctable(registry, kept, inverted)
      && rows == SortByLabel(Tabulate(registry, kept, start, inverted))
  }

  /** Strips the serial numbers, labels the rows and, when the log is inverted,
      mirrors each z about its device's travel in place; fails on the first row whose
      serial number the registry does not know. */
  method CorrectAndLabel(registry: DeviceRegistry, kept: seq<Movement>, start: int, inverted: bool) returns (r: Result<seq<Position>>)
    ensures r.Ok? <==> Correctable(registry, kept, inverted)
    ensures r.Ok? ==> r.value == Tabulate(registry, kept, start, inverted)
    ensures r.Err? ==> inverted && r.error.UnknownSerial? && !IsKnown(registry, r.error.serial)
    ensures r.Err? ==> exists i :: 0 <= i < |kept| && r.error == UnknownSerial(Strip(kept[i].deviceName))
  {
    var n := |kept|;
    var serials := seq(n, i requires 0 <= i < n => Strip(kept[i].deviceName));
    var z := new int[n](i requires 0 <= i < n => kept[i].z);
    for idx := 0 to n
      invariant inverted ==> forall j :: 0 <= j < idx ==> IsKnown(registry, serials[j])
      invariant forall j :: 0 <= j < n ==>
                  z[j] == if j < idx && inverted then ZTravel(registry, serials[j]).value - kept[j].z else kept[j].z
    {
      if inverted {
        var travel := ZTravel(registry, serials[idx]);
        if travel.Err? {
          return Err(travel.error);
        }
        z[idx] := travel.value - z[idx];
      }
    }
    var rows := seq(n, i requires 0 <= i < n reads z =>
      Position(ElectrodeGroupName(registry, serials[i]), kept[i].lastMovement, serials[i],
               kept[i].x, kept[i].y, z[i], kept[i].lastMovement - start));
    assert rows == Tabulate(registry, kept, start, inverted);
    r := Ok(rows);
  }

  /** What every resolved table satisfies: as many rows as devices kept, sorted by label,
      each row the corrected latest movement of its device, strictly before `start`. */
  lemma ResolutionProperties(registry: DeviceRegistry, ms: seq<Movement>, start: int, inverted: bool, kept: seq<Movement>)
    requires forall m :: m in ms ==> m.lastMovement < start
    requires IsTopLatest(ms, MaxManipulators, kept)
    requires Correctable(registry, kept, inverted)
    ensures var rows := SortByLabel(Tabulate(registry, kept, start, inverted));
      && IsResolution(registry, ms, start, inverted, rows)
      && SortedByLabel(rows)
      && |rows| == Min(MaxManipulators, |DeviceNames(ms)|)
      && (forall p :: p in rows ==> p.lastMovementTime < 0 && p.lastMovementTime == p.lastMovement - start)
      && (forall p :: p in rows ==> IsResolvedRow(registry, ms, start, inverted, p))
  {
    var table := Tabulate(registry, kept, start, inverted);
    var rows := SortByLabel(table);
    assert |rows| == |multiset(rows)| == |table|;
    forall p | p in rows
      ensures p.lastMovementTime < 0 && p.lastMovementTime == p.lastMovement - start
      ensures IsResolvedRow(registry, ms, start, inverted, p)
    {
      assert p in multiset(table);
      var i :| 0 <= i < |table| && table[i] == p;
      assert IsLatest(ms, kept[i]) && CanCorrect(registry, kept[i], inverted);
      assert p == Resolved(registry, kept[i], start, inverted);
    }
  }

  lemma KeptSerialsArePrior(ms: seq<Movement>, kept: seq<Movement>)
    requires forall i :: 0 <= i < |kept| ==> kept[i] in ms
    ensures forall i :: 0 <= i < |kept| ==> Strip(kept[i].deviceName) in StrippedSerials(ms)
  {
    forall i | 0 <= i < |kept| ensures Strip(kept[i].deviceName) in StrippedSerials(ms) {
      assert kept[i] in ms;
    }
  }

  /** What the resolver gives for `log` and `start`, given the rows `kept` it selects:
      no movement on the start date is the only cause of `NoMovementData`; otherwise
      `kept` holds the latest movements of the (at most six) devices moved most recently
      before `start`, and the call succeeds exactly when each of them can be corrected,
      giving their rows sorted by label; the only other failure is an unregistered
      serial number of a kept row, and only when the sample is judged inverted. */
  ghost predicate ResolverOutcome(registry: DeviceRegistry, log: seq<LogEntry>, start: int, kept: seq<Movement>, r: Result<seq<Position>>) {
    var prior := PriorMovements(log, start);
    var inverted := IsZInverted(RecentZ(log, start));
    var covered := HasMovementOn(log, Day(start));
    && ((r.Err? && r.error.NoMovementData?) <==> !covered)
    && (r.Err? && r.error.NoMovementData? ==> r.error.day == Day(start))
    && (r.Err? ==> r.error.NoMovementData? || r.error.UnknownSerial?)
    && (covered ==> IsTopLatest(prior, MaxManipulators, kept))
    && (r.Ok? <==> covered && Correctable(registry, kept, inverted))
    && (r.Ok? ==> Correctable(registry, kept, inverted) && r.value == SortByLabel(Tabulate(registry, kept, start, inverted)))
    && (r.Err? && r.error.UnknownSerial? ==>
          && inverted
          && !IsKnown(registry, r.error.serial)
          && exists i :: 0 <= i < |kept| && r.error.serial == Strip(kept[i].deviceName))
  }

  /** The consequences of a resolver outcome: a covered log whose serial numbers before
      `start` are all registered (or is not judged inverted) always resolves, an unknown
      serial is one of a device moved before `start`, and a resolved table is a
      resolution: sorted by label, min(6, devices) rows, each the corrected latest
      movement of its device, timed before `start`. */
  lemma ResolverOutcomeProperties(registry: DeviceRegistry, log: seq<LogEntry>, start: int, kept: seq<Movement>, r: Result<seq<Position>>)
    requires ResolverOutcome(registry, log, start, kept, r)
    ensures HasMovementOn(log, Day(start))
            && (IsZInverted(RecentZ(log, start)) ==> StrippedSerials(PriorMovements(log, start)) <= registry.probeLetter.Keys)
            ==> r.Ok?
    ensures r.Err? && r.error.UnknownSerial? ==> r.error.serial in StrippedSerials(PriorMovements(log, start))
    ensures r.Ok? ==> IsResolution(registry, PriorMovements(log, start), start, IsZInverted(RecentZ(log, start)), r.value)
    ensures r.Ok? ==> |r.value| == Min(MaxManipulators, |DeviceNames(PriorMovements(log, start))|)
    ensures r.Ok? ==> SortedByLabel(r.value)
    ensures r.Ok? ==> forall p :: p in r.value ==> p.lastMovementTime < 0 && p.lastMovementTime == p.lastMovement - start
    ensures r.Ok? ==> forall p :: p in r.value ==>
              IsResolvedRow(registry, PriorMovements(log, start), start, IsZInverted(RecentZ(log, start)), p)
  {
    var prior := PriorMovements(log, start);
    var inverted := IsZInverted(RecentZ(log, start));
    if HasMovementOn(log, Day(start)) {
      KeptSerialsArePrior(prior, kept);
      if r.Ok? {
        ResolutionProperties(registry, prior, start, inverted, kept);
      }
    }
  }

  /** Where each manipulator was at `start`, from its latest movement strictly before it;
      `kept` is the selection of latest movements the table is made of. */
  method ResolveCoordinates(registry: DeviceRegistry, log: seq<LogEntry>, start: int) returns (r: Result<seq<Position>>, ghost kept: seq<Movement>)
    ensures ResolverOutcome(registry, log, start, kept, r)
    ensures HasMovementOn(log, Day(start))
            && (IsZInverted(RecentZ(log, start)) ==> StrippedSerials(PriorMovements(log, start)) <= registry.probeLetter.Keys)
            ==> r.Ok?
    ensures r.Ok? ==> IsResolution(registry, PriorMovements(log, start), start, IsZInverted(RecentZ(log, start)), r.value)
    ensures r.Ok? ==> |r.value| == Min(MaxManipulators, |DeviceNames(PriorMovements(log, start))|)
    ensures r.Ok? ==> SortedByLabel(r.value)
    ensures r.Ok? ==> forall p :: p in r.value ==> p.lastMovementTime < 0 && p.lastMovementTime == p.lastMovement - start
  {
    kept := [];
    var day := Day(start);
    if !HasMovementOn(log, day) {
      r := Err(NoMovementData(day));
    } else {
      var inverted := IsZInverted(RecentZ(log, start));
      var prior := PriorMovements(log, start);
      var latest := LatestPerDevice(prior);
      var top := TopK(latest, MaxManipulators);
      TopOfLatestMap(prior, latest, MaxManipulators, top);
      kept := top;
      var table := CorrectAndLabel(registry, top, start, inverted);
      if table.Err? {
        r := Err(table.error);
      } else {
        r := Ok(SortByLabel(table.value));
      }
    }
    ResolverOutcomeProperties(registry, log, start, kept, r);
  }

  /** The resolver with its reference time, which may be missing, over the rigs' registry. */
  method GetNewscaleCoordinates(log: seq<LogEntry>, recordingStart: Option<int>) returns (r: Result<seq<Position>>, ghost kept: seq<Movement>)
    ensures recordingStart.None? <==> r == Err(MissingStartTime)
    ensures recordingStart.Some? ==> ResolverOutcome(NewScale, log, recordingStart.value, kept, r)
    ensures log == [] ==> r.Err?
    ensures recordingStart.Some? && HasMovementOn(log, Day(recordingStart.value))
            && (IsZInverted(RecentZ(log, recordingStart.value)) ==>
                  StrippedSerials(PriorMovements(log, recordingStart.value)) <= NewScale.probeLetter.Keys)
            ==> r.Ok?
    ensures r.Err? && r.error.UnknownSerial? ==>
              && IsZInverted(RecentZ(log, recordingStart.value))
              && !IsKnown(NewScale, r.error.serial)
    ensures r.Ok? ==> recordingStart.Some?
    ensures r.Ok? ==> |r.value| == Min(MaxManipulators, |DeviceNames(PriorMovements(log, recordingStart.value))|)
    ensures r.Ok? ==> SortedByLabel(r.value)
    ensures r.Ok? ==> forall p :: p in r.value ==>
              p.lastMovementTime < 0 && p.lastMovementTime == p.lastMovement - recordingStart.value
  {
    if recordingStart.None? {
      r, kept := Err(MissingStartTime), [];
    } else {
      r, kept := ResolveCoordinates(NewScale, log, recordingStart.value);
    }
  }
}
