/** The retention decision of essnapshot: parsing a retention time such as
    "30", "5m" or "7D" into seconds, detecting a snapshot operation that is
    still running, and choosing the snapshots old enough to be deleted. */
module Helpers {
  import opened Decimal

  datatype Option<T> = None | Some(value: T)

  datatype Result<T, E> = Ok(value: T) | Err(error: E)

  /** The two ValueErrors time_in_seconds raises, told apart by message. */
  datatype TimeError =
    | UnableToParse(timeString: string)
    | UnsupportedTimeUnit(unit: char)

  // ---------------------------------------------------------------------
  // time_in_seconds
  // ---------------------------------------------------------------------

  predicate IsLetter(c: char) {
    'a' <= c <= 'z' || 'A' <= c <= 'Z'
  }

  /** str.upper() on a character the pattern admits as a unit. */
  function Upper(c: char): (u: char)
    ensures IsLetter(c) ==> 'A' <= u <= 'Z'
    ensures 'A' <= c <= 'Z' ==> u == c
    ensures 'a' <= c <= 'z' ==> u as int - 'A' as int == c as int - 'a' as int
  {
    if 'a' <= c <= 'z' then (c as int - 'a' as int + 'A' as int) as char else c
  }

  /** The pattern ^(?P<value>\d+)(?P<unit>[a-zA-Z])?$ over ASCII digits,
      stated declaratively: a non-empty run of digits followed by at most one
      letter. */
  ghost predicate MatchesTimePattern(s: string) {
    exists k :: 1 <= k <= |s| <= k + 1 && AllDigits(s[..k]) && (k < |s| ==> IsLetter(s[k]))
  }

  /** The groups of a successful match. */
  datatype TimeMatch = TimeMatch(value: string, unit: Option<char>)

  function UnitText(unit: Option<char>): string {
    if unit.Some? then [unit.value] else []
  }

  /** pattern.match(time_string): the groups, or None when nothing matches. */
  function MatchTime(s: string): (m: Option<TimeMatch>)
    ensures m.Some? ==> s == m.value.value + UnitText(m.value.unit)
    ensures m.Some? ==> |m.value.value| >= 1 && AllDigits(m.value.value)
    ensures m.Some? && m.value.unit.Some? ==> IsLetter(m.value.unit.value)
  {
    var n := |s|;
    if n >= 2 && IsLetter(s[n - 1]) && AllDigits(s[..n - 1]) then
      Some(TimeMatch(s[..n - 1], Some(s[n - 1])))
    else if n >= 1 && AllDigits(s) then
      Some(TimeMatch(s, None))
    else
      None
  }

  /** MatchTime succeeds on exactly the strings the pattern describes. */
  lemma MatchTimeIsPattern(s: string)
    ensures MatchTime(s).Some? <==> MatchesTimePattern(s)
  {
    var n := |s|;
    if MatchTime(s).Some? {
      if n >= 2 && IsLetter(s[n - 1]) && AllDigits(s[..n - 1]) {
        assert 1 <= n - 1 && AllDigits(s[..n - 1]) && IsLetter(s[n - 1]);
      } else {
        assert s[..n] == s;
      }
    } else if MatchesTimePattern(s) {
      var k :| 1 <= k <= n <= k + 1 && AllDigits(s[..k]) && (k < n ==> IsLetter(s[k]));
      assert false;
    }
  }

  /** The multiplier table of time_in_seconds, keyed by upper-case unit. */
  const Multipliers: map<char, nat> := map['S' := 1, 'M' := 60, 'H' := 3600, 'D' := 86400]

  /** time_in_seconds: a retention time such as "30", "5m" or "7D" in
      seconds, or the error the source raises. A rejected string is reported
      as unparseable exactly when it does not match the pattern; otherwise it
      ended in a letter outside the table. */
  function TimeInSeconds(timeString: string): (r: Result<nat, TimeError>)
    ensures r == Err(UnableToParse(timeString)) <==> !MatchesTimePattern(timeString)
    ensures r.Err? && r.error.UnsupportedTimeUnit? ==>
      |timeString| >= 2 && IsLetter(timeString[|timeString| - 1]) &&
      r.error.unit == Upper(timeString[|timeString| - 1]) && r.error.unit !in Multipliers
  {
    MatchTimeIsPattern(timeString);
    match MatchTime(timeString)
    case None => Err(UnableToParse(timeString))
    case Some(m) =>
      var unit := if m.unit.Some? then Upper(m.unit.value) else 'S';
      if unit in Multipliers then Ok(Value(m.value) * Multipliers[unit])
      else Err(UnsupportedTimeUnit(unit))
  }

  /** Digits followed by a recognised unit, in either case, give the digits'
      value times the unit's multiplier. */
  lemma TimeInSecondsWithUnit(digits: string, u: char)
    requires |digits| >= 1 && AllDigits(digits)
    requires IsLetter(u) && Upper(u) in Multipliers
    ensures TimeInSeconds(digits + [u]) == Ok(Value(digits) * Multipliers[Upper(u)])
  {}

  /** The round trip with str(): for every natural v and every unit letter,
      upper or lower case, str(v) + unit reads back as v seconds times 1, 60,
      3600 or 86400. */
  lemma UnitRoundTrip(v: nat, u: char)
    requires u in "SsMmHhDd"
    ensures TimeInSeconds(Render(v) + [u]) ==
      Ok(v * (if u in "Ss" then 1 else if u in "Mm" then 60 else if u in "Hh" then 3600 else 86400))
  {
    var digits := Render(v);
    var unit := Upper(u);
    assert unit == 'S' || unit == 'M' || unit == 'H' || unit == 'D';
    var m := Multipliers[unit];
    assert m == (if u in "Ss" then 1 else if u in "Mm" then 60 else if u in "Hh" then 3600 else 86400);
    ValueOfRender(v);
    TimeInSecondsWithUnit(digits, u);
  }

  /** A bare run of digits means seconds. */
  lemma BareDigitsAreSeconds(digits: string)
    requires |digits| >= 1 && AllDigits(digits)
    ensures TimeInSeconds(digits) == Ok(Value(digits))
  {
    assert !IsLetter(digits[|digits| - 1]);
    assert MatchTime(digits) == Some(TimeMatch(digits, None));
  }

  /** str(v) alone reads back as v seconds. */
  lemma BareRoundTrip(v: nat)
    ensures TimeInSeconds(Render(v)) == Ok(v)
  {
    ValueOfRender(v);
    BareDigitsAreSeconds(Render(v));
  }

  /** Digits followed by a letter outside S, M, H, D (after upper-casing)
      fail with the unsupported-unit error, not the parse error. */
  lemma UnsupportedUnit(digits: string, u: char)
    requires |digits| >= 1 && AllDigits(digits)
    requires IsLetter(u) && Upper(u) !in Multipliers
    ensures TimeInSeconds(digits + [u]) == Err(UnsupportedTimeUnit(Upper(u)))
  {}

  /** time_in_seconds succeeds exactly on strings of the pattern whose unit,
      if any, is in the table. */
  lemma TimeInSecondsSucceeds(s: string)
    ensures TimeInSeconds(s).Ok? <==>
      MatchesTimePattern(s) && (IsLetter(s[|s| - 1]) ==> Upper(s[|s| - 1]) in Multipliers)
  {}

  /** Worked example: a bare "30" is 30 seconds. */
  lemma TimeInSecondsBareExample()
    ensures TimeInSeconds("30") == Ok(30)
  {
    assert "30"[..1] == "3" && Value("30") == 30;
    BareDigitsAreSeconds("30");
  }

  /** Worked example of case-insensitivity: "5M" and "5m" are both 300
      seconds. */
  lemma TimeInSecondsCaseExample()
    ensures TimeInSeconds("5M") == Ok(300)
    ensures TimeInSeconds("5m") == Ok(300)
  {
    assert "5M" == "5" + ['M'] && Value("5") == 5;
    TimeInSecondsWithUnit("5", 'M');
    assert "5m" == "5" + ['m'];
    TimeInSecondsWithUnit("5", 'm');
  }

  /** Worked examples of the larger units: "2H" is 7200 and "1D" is 86400
      seconds. */
  lemma TimeInSecondsUnitExamples()
    ensures TimeInSeconds("2H") == Ok(7200)
    ensures TimeInSeconds("1D") == Ok(86400)
  {
    assert "2H" == "2" + ['H'] && Value("2") == 2;
    TimeInSecondsWithUnit("2", 'H');
    assert "1D" == "1" + ['D'] && Value("1") == 1;
    TimeInSecondsWithUnit("1", 'D');
  }

  /** The worked examples that fail: "5X" has an unsupported unit, while
      "5 M", "-5M", "", "1.5" and "5MM" do not parse. */
  lemma TimeInSecondsErrorExamples()
    ensures TimeInSeconds("5X") == Err(UnsupportedTimeUnit('X'))
    ensures TimeInSeconds("5 M") == Err(UnableToParse("5 M"))
    ensures TimeInSeconds("-5M") == Err(UnableToParse("-5M"))
    ensures TimeInSeconds("") == Err(UnableToParse(""))
    ensures TimeInSeconds("1.5") == Err(UnableToParse("1.5"))
    ensures TimeInSeconds("5MM") == Err(UnableToParse("5MM"))
  {
    UnsupportedUnit("5", 'X');
    RejectsNonDigitBeforeLast("5 M", 1);
    RejectsNonDigitBeforeLast("-5M", 0);
    RejectsNonDigitBeforeLast("1.5", 1);
    RejectsNonDigitBeforeLast("5MM", 1);
    RejectsBadLastChar("");
  }

  /** A character other than a digit anywhere before the last position
      makes the string unparseable: signs, spaces, decimal points and a
      second unit letter are all rejected this way. */
  lemma RejectsNonDigitBeforeLast(s: string, i: nat)
    requires i + 1 < |s| && !IsDigit(s[i])
    ensures TimeInSeconds(s) == Err(UnableToParse(s))
  {}

  /** A string that ends in neither a digit nor a letter (a trailing space,
      sign or point) is unparseable, and so is the empty string. */
  lemma RejectsBadLastChar(s: string)
    requires |s| >= 1 ==> !IsDigit(s[|s| - 1]) && !IsLetter(s[|s| - 1])
    ensures TimeInSeconds(s) == Err(UnableToParse(s))
  {}

  // ---------------------------------------------------------------------
  // Snapshot records
  // ---------------------------------------------------------------------

  /** One entry of the snapshot listing: its id, its status as the storage
      API spells it, and end_epoch, the second (since the Unix epoch, UTC)
      at which it finished. */
  datatype Snapshot = Snapshot(id: string, status: string, endEpoch: int)

  const InProgressStatus: string := "IN_PROGRESS"

  // ---------------------------------------------------------------------
  // check_snapshots_in_progress
  // ---------------------------------------------------------------------

  predicate IsInProgress(snapshot: Snapshot) {
    snapshot.status == InProgressStatus
  }

  /** The comprehension [s['id'] for s in snapshots if s['status'] == 'IN_PROGRESS']:
      in order, the id of every snapshot whose status is IN_PROGRESS. */
  function InProgressIds(snapshots: seq<Snapshot>): (ids: seq<string>)
    ensures |ids| <= |snapshots|
    ensures forall x :: x in ids <==>
      exists i :: 0 <= i < |snapshots| && IsInProgress(snapshots[i]) && snapshots[i].id == x
  {
    if snapshots == [] then []
    else
      var rest := InProgressIds(snapshots[1..]);
      assert forall i :: 1 <= i < |snapshots| ==> snapshots[1..][i - 1] == snapshots[i];
      (if IsInProgress(snapshots[0]) then [snapshots[0].id] else []) + rest
  }

  /** check_snapshots_in_progress: true exactly when some snapshot has status
      IN_PROGRESS. */
  function CheckSnapshotsInProgress(snapshots: seq<Snapshot>): (r: bool)
    ensures r <==> exists i :: 0 <= i < |snapshots| && IsInProgress(snapshots[i])
  {
    var ids := InProgressIds(snapshots);
    assert |ids| > 0 ==> ids[0] in ids;
    assert forall i :: 0 <= i < |snapshots| && IsInProgress(snapshots[i]) ==> snapshots[i].id in ids;
    |ids| > 0
  }

  /** Only the status field decides the guard: two listings whose statuses
      agree position by position get the same answer. */
  lemma InProgressDependsOnlyOnStatus(a: seq<Snapshot>, b: seq<Snapshot>)
    requires |a| == |b|
    requires forall i :: 0 <= i < |a| ==> a[i].status == b[i].status
    ensures CheckSnapshotsInProgress(a) == CheckSnapshotsInProgress(b)
  {}

  /** The worked examples: an empty listing and a listing of finished
      snapshots give false, a listing with a running one gives true. */
  lemma CheckSnapshotsInProgressExamples(id: string, endEpoch: int)
    ensures !CheckSnapshotsInProgress([])
    ensures CheckSnapshotsInProgress([Snapshot(id, InProgressStatus, endEpoch)])
    ensures !CheckSnapshotsInProgress([Snapshot(id, "SUCCESS", endEpoch), Snapshot(id, "FAILED", endEpoch)])
  {}

  // ---------------------------------------------------------------------
  // find_delete_eligible_snapshots
  // ---------------------------------------------------------------------

  const MicrosPerSecond: nat := 1_000_000

  /** int() of a duration's total_seconds(): a span of microseconds in whole
      seconds, truncated toward zero. */
  function WholeSeconds(micros: int): (s: int)
    ensures micros >= 0 ==> 0 <= s && s * MicrosPerSecond <= micros < (s + 1) * MicrosPerSecond
    ensures micros < 0 ==> s <= 0 && (s - 1) * MicrosPerSecond < micros <= s * MicrosPerSecond
  {
    if micros >= 0 then micros / MicrosPerSecond else -((-micros) / MicrosPerSecond)
  }

  /** The age in whole seconds of a snapshot at the reference instant
      fromTime, given in microseconds since the Unix epoch, UTC. */
  function SnapshotAgeSeconds(snapshot: Snapshot, fromTime: int): (age: int)
    ensures fromTime >= snapshot.endEpoch * MicrosPerSecond ==>
      age >= 0 &&
      (snapshot.endEpoch + age) * MicrosPerSecond <= fromTime < (snapshot.endEpoch + age + 1) * MicrosPerSecond
    ensures fromTime < snapshot.endEpoch * MicrosPerSecond ==>
      age <= 0 &&
      (snapshot.endEpoch + age - 1) * MicrosPerSecond < fromTime <= (snapshot.endEpoch + age) * MicrosPerSecond
  {
    WholeSeconds(fromTime - snapshot.endEpoch * MicrosPerSecond)
  }

  /** A snapshot may be deleted when its whole-second age is strictly
      greater than the retention. */
  predicate IsDeleteEligible(snapshot: Snapshot, retention: nat, fromTime: int) {
    SnapshotAgeSeconds(snapshot, fromTime) > retention
  }

  /** In input order, the id of every snapshot that may be deleted. */
  function DeleteEligibleIds(snapshots: seq<Snapshot>, retention: nat, fromTime: int): (ids: seq<string>)
    ensures |ids| <= |snapshots|
  {
    if snapshots == [] then []
    else
      var n := |snapshots| - 1;
      DeleteEligibleIds(snapshots[..n], retention, fromTime) +
        (if IsDeleteEligible(snapshots[n], retention, fromTime) then [snapshots[n].id] else [])
  }

  /** find_delete_eligible_snapshots. The retention time is parsed inside
      the loop, once per snapshot, so a bad retention time is reported only
      for a non-empty listing; an empty listing yields no ids whatever the
      retention time says. */
  method FindDeleteEligibleSnapshots(snapshots: seq<Snapshot>, retentionTime: string, fromTime: int)
    returns (r: Result<seq<string>, TimeError>)
    ensures snapshots == [] ==> r == Ok([])
    ensures snapshots != [] && TimeInSeconds(retentionTime).Err? ==>
      r == Err(TimeInSeconds(retentionTime).error)
    ensures snapshots != [] && TimeInSeconds(retentionTime).Ok? ==>
      r == Ok(DeleteEligibleIds(snapshots, TimeInSeconds(retentionTime).value, fromTime))
  {
    var deleteEligible: seq<string> := [];
    for i := 0 to |snapshots|
      invariant i == 0 ==> deleteEligible == []
      invariant i > 0 ==> TimeInSeconds(retentionTime).Ok?
      invariant i > 0 ==>
        deleteEligible == DeleteEligibleIds(snapshots[..i], TimeInSeconds(retentionTime).value, fromTime)
    {
      var snapshot := snapshots[i];
      var ageSeconds := SnapshotAgeSeconds(snapshot, fromTime);
      var retention := TimeInSeconds(retentionTime);
      if retention.Err? {
        return Err(retention.error);
      }
      if ageSeconds > retention.value {
        deleteEligible := deleteEligible + [snapshot.id];
      }
      assert snapshots[..i + 1][..i] == snapshots[..i];
    }
    assert snapshots[..|snapshots|] == snapshots;
    return Ok(deleteEligible);
  }

  /** The strict boundary: a snapshot is eligible exactly when the reference
      instant is at least retention + 1 whole seconds after its end. */
  lemma EligibleBoundary(snapshot: Snapshot, retention: nat, fromTime: int)
    ensures IsDeleteEligible(snapshot, retention, fromTime) <==>
      fromTime >= (snapshot.endEpoch + retention + 1) * MicrosPerSecond
  {}

  /** With a one-hour retention, a snapshot that ended exactly an hour
      before the reference instant is kept and one that ended a second
      earlier is eligible. */
  lemma EligibleBoundaryExample(now: int, id: string, status: string)
    ensures !IsDeleteEligible(Snapshot(id, status, now - 3600), 3600, now * MicrosPerSecond)
    ensures IsDeleteEligible(Snapshot(id, status, now - 3601), 3600, now * MicrosPerSecond)
  {}

  /** Order preservation: the ids chosen from a listing split in two are
      those chosen from the first part followed by those from the second. */
  lemma {:induction false} DeleteEligibleIdsAppend(a: seq<Snapshot>, b: seq<Snapshot>, retention: nat, fromTime: int)
    ensures DeleteEligibleIds(a + b, retention, fromTime) ==
      DeleteEligibleIds(a, retention, fromTime) + DeleteEligibleIds(b, retention, fromTime)
  {
    if b == [] {
      assert a + b == a;
    } else {
      var n := |b| - 1;
      assert (a + b)[..|a + b| - 1] == a + b[..n];
      DeleteEligibleIdsAppend(a, b[..n], retention, fromTime);
    }
  }

  /** Positions, in increasing order, of the snapshots that may be deleted. */
  ghost function EligiblePositions(snapshots: seq<Snapshot>, retention: nat, fromTime: int): seq<nat> {
    if snapshots == [] then []
    else
      var n := |snapshots| - 1;
      EligiblePositions(snapshots[..n], retention, fromTime) +
        (if IsDeleteEligible(snapshots[n], retention, fromTime) then [n] else [])
  }

  /** The result is exactly the subsequence of eligible ids: the k-th id is
      that of the k-th eligible position, the positions increase, and a
      position is chosen exactly when its snapshot is eligible. */
  lemma {:induction false} DeleteEligibleIdsExact(snapshots: seq<Snapshot>, retention: nat, fromTime: int)
    ensures var ids := DeleteEligibleIds(snapshots, retention, fromTime);
      var ps := EligiblePositions(snapshots, retention, fromTime);
      && |ps| == |ids|
      && (forall k :: 0 <= k < |ps| ==> ps[k] < |snapshots| && ids[k] == snapshots[ps[k]].id)
      && (forall k, l :: 0 <= k < l < |ps| ==> ps[k] < ps[l])
      && (forall i :: 0 <= i < |snapshots| ==> (i in ps <==> IsDeleteEligible(snapshots[i], retention, fromTime)))
  {
    if snapshots != [] {
      var n := |snapshots| - 1;
      var prefix := snapshots[..n];
      DeleteEligibleIdsExact(prefix, retention, fromTime);
      assert forall i :: 0 <= i < n ==> prefix[i] == snapshots[i];
    }
  }

  /** Exact membership: an id is returned exactly when some snapshot with
      that id may be deleted; so nothing outside the listing is returned. */
  lemma {:induction false} DeleteEligibleIdsMembership(snapshots: seq<Snapshot>, retention: nat, fromTime: int, x: string)
    ensures x in DeleteEligibleIds(snapshots, retention, fromTime) <==>
      exists i :: 0 <= i < |snapshots| && snapshots[i].id == x && IsDeleteEligible(snapshots[i], retention, fromTime)
  {
    DeleteEligibleIdsExact(snapshots, retention, fromTime);
    var ids := DeleteEligibleIds(snapshots, retention, fromTime);
    var ps := EligiblePositions(snapshots, retention, fromTime);
    if x in ids {
      var k :| 0 <= k < |ids| && ids[k] == x;
      assert ps[k] in ps;
    } else {
      forall i | 0 <= i < |snapshots| && IsDeleteEligible(snapshots[i], retention, fromTime)
        ensures snapshots[i].id != x
      {
        assert i in ps;
        var k :| 0 <= k < |ps| && ps[k] == i;
        assert ids[k] in ids;
      }
    }
  }
}
