/**
 * Reading a Postgres-outage trace: recorded timestamps stand for the half-open intervals of
 * instants they could have been taken at. Recorded times are in microseconds, instants are real.
 */
module OutageStamps {
  import opened Numbers
  import opened Wrappers

  datatype Stamp = Stamp(at: int, resolution: int) {
    function Until(): (t: int) {
      at + resolution
    }

    ghost predicate Valid() {
      resolution > 0
    }

    /** An instant this stamp could record. */
    ghost predicate Covers(t: real) {
      at as real <= t < Until() as real
    }
  }

  // ----- Recorded precision

  function Pow10(n: nat): (p: nat)
    ensures p > 0
  {
    if n == 0 then 1 else 10 * Pow10(n - 1)
  }

  /** Microseconds covered by a stamp written with `digits` fraction digits. */
  function Resolution(digits: nat): (micros: int)
    ensures micros > 0
  {
    if digits == 0 then 1_000_000 else Max(1, Pow10(Max(0, 6 - digits)))
  }

  predicate IsDigit(c: char) {
    '0' <= c <= '9'
  }

  /** A time of day: `hh:mm:ss`. */
  predicate IsClock(t: string) {
    && |t| == 8 && t[2] == ':' && t[5] == ':'
    && IsDigit(t[0]) && IsDigit(t[1]) && IsDigit(t[3]) && IsDigit(t[4]) && IsDigit(t[6]) && IsDigit(t[7])
  }

  /** The first `T` or space with a time of day after it, at or after `i`. */
  function ClockAt(text: string, i: nat): (at: Option<nat>)
    ensures at.Some? ==> i <= at.value && at.value + 9 <= |text|
    decreases |text| - i
  {
    if i + 9 > |text| then None
    else if (text[i] == 'T' || text[i] == ' ') && IsClock(text[i + 1..i + 9]) then Some(i)
    else ClockAt(text, i + 1)
  }

  function DigitsAt(text: string, i: nat): (n: nat)
    ensures i + n <= |text| || n == 0
    decreases |text| - i
  {
    if i < |text| && IsDigit(text[i]) then 1 + DigitsAt(text, i + 1) else 0
  }

  /** How many digits the fraction of the first time of day has. */
  function FractionDigits(text: string): (n: nat) {
    var at := ClockAt(text, 0);
    if at.None? then 0
    else
      var end := at.value + 9;
      if end < |text| && text[end] == '.' then DigitsAt(text, end + 1) else 0
  }

  /** `recorded_stamp`: the parsed time, for as long as the digits of its text leave open. */
  function RecordedStamp(text: Option<string>, parsed: Option<int>): (s: Option<Stamp>)
    ensures s.Some? <==> text.Some? && parsed.Some?
    ensures s.Some? ==> s.value.Valid() && s.value.at == parsed.value
  {
    if text.None? || parsed.None? then None
    else Some(Stamp(parsed.value, Resolution(FractionDigits(text.value))))
  }

  lemma {:induction false} DigitRun(text: string, i: nat, end: nat)
    requires i <= end <= |text| && (end < |text| ==> !IsDigit(text[end]))
    requires forall k :: i <= k < end ==> IsDigit(text[k])
    ensures DigitsAt(text, i) == end - i
    decreases end - i
  {
    if i < end {
      DigitRun(text, i + 1, end);
    }
  }

  /** A `T` or a space and a time of day, `hh:mm:ss` in digits, stand at `i`. */
  ghost predicate TimeAt(t: string, i: nat) {
    && i + 9 <= |t| && (t[i] == 'T' || t[i] == ' ') && t[i + 3] == ':' && t[i + 6] == ':'
    && '0' <= t[i + 1] <= '9' && '0' <= t[i + 2] <= '9' && '0' <= t[i + 4] <= '9'
    && '0' <= t[i + 5] <= '9' && '0' <= t[i + 7] <= '9' && '0' <= t[i + 8] <= '9'
  }

  lemma {:induction false} ClockFound(text: string, i: nat, at: nat)
    requires i <= at && TimeAt(text, at) && forall k: nat :: i <= k < at ==> !TimeAt(text, k)
    ensures ClockAt(text, i) == Some(at)
    decreases at - i
  {
    if i < at {
      assert !TimeAt(text, i);
      ClockFound(text, i + 1, at);
    }
  }

  lemma {:induction false} ClockMissing(text: string, i: nat)
    requires forall k: nat :: i <= k ==> !TimeAt(text, k)
    ensures ClockAt(text, i).None?
    decreases |text| - i
  {
    if i + 9 <= |text| {
      assert !TimeAt(text, i);
      ClockMissing(text, i + 1);
    }
  }

  /**
   * The first time of day in the text is at `at`, and its fraction ends at `end`: the stamp lasts
   * one unit of the last digit written.
   */
  lemma StampOfText(text: string, at: nat, end: nat, parsed: int)
    requires TimeAt(text, at) && forall k: nat :: k < at ==> !TimeAt(text, k)
    requires at + 10 < end <= |text| && text[at + 9] == '.'
    requires forall k :: at + 10 <= k < end ==> '0' <= text[k] <= '9'
    requires end < |text| ==> !('0' <= text[end] <= '9')
    ensures RecordedStamp(Some(text), Some(parsed)) == Some(Stamp(parsed, Resolution(end - at - 10)))
  {
    hide TimeAt;
    ClockFound(text, 0, at);
    DigitRun(text, at + 10, end);
  }

  /** Without a time of day, or without a digit after it and a point, it lasts a second. */
  lemma WholeSecondOfText(text: string, at: nat, parsed: int)
    requires || (forall k: nat :: !TimeAt(text, k))
             || (&& TimeAt(text, at) && (forall k: nat :: k < at ==> !TimeAt(text, k))
                 && !(at + 10 < |text| && text[at + 9] == '.' && '0' <= text[at + 10] <= '9'))
    ensures RecordedStamp(Some(text), Some(parsed)) == Some(Stamp(parsed, 1_000_000))
  {
    hide TimeAt;
    if forall k: nat :: !TimeAt(text, k) {
      ClockMissing(text, 0);
    } else {
      ClockFound(text, 0, at);
    }
  }

  /** The time a clock reading keeps at this resolution: later digits are dropped. */
  ghost function Truncated(t: real, resolution: int): (at: int)
    requires resolution > 0
  {
    (t / resolution as real).Floor * resolution
  }

  /** A stamp lasts one unit of its last kept digit, down to a microsecond. */
  lemma ResolutionIsLastDigit(digits: nat)
    ensures digits <= 6 ==> Resolution(digits) * Pow10(digits) == 1_000_000
    ensures digits > 6 ==> Resolution(digits) == 1
  {
    assert Pow10(2) == 100 && Pow10(4) == 10_000 && Pow10(6) == 1_000_000;
  }

  lemma Scaled(a: real, b: real, r: real)
    requires r > 0.0
    ensures a <= b <==> a * r <= b * r
    ensures a < b <==> a * r < b * r
  {
  }

  /** The multiple of `r` at `n` covers `t` exactly when `n` is the floor of `t / r`. */
  lemma FloorCovers(t: real, n: int, r: int)
    requires r > 0
    ensures Stamp(n * r, r).Covers(t) <==> n == (t / r as real).Floor
  {
    var scale := r as real;
    var q := t / scale;
    assert q * scale == t;
    assert (n * r) as real == n as real * scale;
    assert ((n + 1) * r) as real == (n + 1) as real * scale && n * r + r == (n + 1) * r;
    assert Stamp(n * r, r).Covers(t) <==> n as real * scale <= q * scale < (n + 1) as real * scale;
    Scaled(n as real, q, scale);
    Scaled(q, (n + 1) as real, scale);
    assert Stamp(n * r, r).Covers(t) <==> n as real <= q < (n + 1) as real;
  }

  /** A stamp covers exactly the instants whose reading, cut to its precision, it is. */
  lemma StampCoversItsInstants(t: real, steps: int, digits: nat)
    ensures Stamp(steps * Resolution(digits), Resolution(digits)).Covers(t)
       <==> steps * Resolution(digits) == Truncated(t, Resolution(digits))
  {
    hide Resolution;
    var r := Resolution(digits);
    FloorCovers(t, steps, r);
    SameMultiple(steps, (t / r as real).Floor, r);
  }

  lemma SameMultiple(a: int, b: int, r: int)
    requires r > 0
    ensures a * r == b * r <==> a == b
  {
  }

  // ----- Placing a commit

  datatype Bounds = Bounds(
    outageStarted: Stamp, pauseApplied: Stamp, restorationStarted: Stamp, restorationApplied: Stamp)
  {
    ghost predicate Valid() {
      outageStarted.Valid() && pauseApplied.Valid() && restorationStarted.Valid() && restorationApplied.Valid()
    }

    /** The order a trace is held to. */
    ghost predicate Ordered() {
      outageStarted.at <= pauseApplied.at <= restorationStarted.at <= restorationApplied.at
    }
  }

  datatype Transition = Pause | Restoration | SignalBoundary

  datatype Placement =
    | BeforePause
    | InPause
    | AfterRestoration
    | Unplaceable(transition: Transition, started: Stamp, applied: Stamp)

  function PlaceCommit(c: Stamp, b: Bounds): (p: Placement) {
    if c.Until() <= b.outageStarted.at then BeforePause
    else if c.at >= b.pauseApplied.Until() && c.Until() <= b.restorationStarted.at then InPause
    else if c.at >= b.restorationApplied.Until() then AfterRestoration
    else if c.Until() > b.outageStarted.at && c.at < b.pauseApplied.Until() then
      Unplaceable(Pause, b.outageStarted, b.pauseApplied)
    else if c.Until() > b.restorationStarted.at && c.at < b.restorationApplied.Until() then
      Unplaceable(Restoration, b.restorationStarted, b.restorationApplied)
    else Unplaceable(SignalBoundary, b.outageStarted, b.restorationApplied)
  }

  /**
   * What comes back for an unplaceable commit, whatever the stamps: the transition it overlaps, the
   * pause before the restoration, with the stamps that transition started and was applied at.
   */
  lemma UnplaceableIff(c: Stamp, b: Bounds)
    ensures var overPause := c.Until() > b.outageStarted.at && c.at < b.pauseApplied.Until();
            var overRestoration := c.Until() > b.restorationStarted.at && c.at < b.restorationApplied.Until();
            var p := PlaceCommit(c, b);
            && (p == Unplaceable(Pause, b.outageStarted, b.pauseApplied)
                <==> overPause && c.at < b.restorationApplied.Until())
            && (p == Unplaceable(Restoration, b.restorationStarted, b.restorationApplied)
                <==> overRestoration && !overPause && c.Until() > b.outageStarted.at)
            && (p.Unplaceable? ==>
                  || p == Unplaceable(Pause, b.outageStarted, b.pauseApplied)
                  || p == Unplaceable(Restoration, b.restorationStarted, b.restorationApplied))
  {
  }

  /** The last return is unreachable, whatever the stamps. */
  lemma SignalBoundaryUnreachable(c: Stamp, b: Bounds)
    ensures PlaceCommit(c, b).Unplaceable? ==> PlaceCommit(c, b).transition != SignalBoundary
  {
  }

  /**
   * What really happened: the commit, the pause taking effect between the clock readings around
   * its signal, and the restoration likewise.
   */
  datatype Truth = Truth(commit: real, outageStarted: real, pause: real, pauseApplied: real,
                         restorationStarted: real, restore: real, restorationApplied: real)
  {
    /** The recorded stamps could have come from this. */
    ghost predicate Fits(c: Stamp, b: Bounds) {
      && c.Covers(commit) && b.outageStarted.Covers(outageStarted) && b.pauseApplied.Covers(pauseApplied)
      && b.restorationStarted.Covers(restorationStarted) && b.restorationApplied.Covers(restorationApplied)
      && outageStarted <= pause <= pauseApplied <= restorationStarted <= restore <= restorationApplied
    }

    /** The side of the stopped window the commit was really on. */
    ghost function Side(): (p: Placement) {
      if commit < pause then BeforePause else if commit < restore then InPause else AfterRestoration
    }
  }

  /** A placement, when given, is the side of every truth that fits the record. */
  lemma PlacementSound(c: Stamp, b: Bounds, truth: Truth)
    requires truth.Fits(c, b) && !PlaceCommit(c, b).Unplaceable?
    ensures truth.Side() == PlaceCommit(c, b)
  {
  }

  // Truths that fit ordered bounds, chosen by the instants that matter.

  ghost function RMax(a: real, b: real): (m: real) {
    if a >= b then a else b
  }

  /** The pause at `pause`, everything else as early as it can be. */
  ghost function EarlyTruth(commit: real, pause: real, b: Bounds): (t: Truth) {
    var p := RMax(pause, b.pauseApplied.at as real);
    var r := RMax(p, b.restorationStarted.at as real);
    Truth(commit, b.outageStarted.at as real, pause, p, r, r, RMax(r, b.restorationApplied.at as real))
  }

  /** The restoration at `restore`, everything before it as early as it can be. */
  ghost function LateTruth(commit: real, restore: real, b: Bounds): (t: Truth) {
    Truth(commit, b.outageStarted.at as real, b.outageStarted.at as real, b.pauseApplied.at as real,
          b.restorationStarted.at as real, restore, RMax(restore, b.restorationApplied.at as real))
  }

  lemma EarlyTruthFits(commit: real, pause: real, c: Stamp, b: Bounds)
    requires b.Valid() && b.Ordered() && c.Covers(commit) && b.outageStarted.at as real <= pause
    requires pause < b.pauseApplied.Until() as real && pause < b.restorationStarted.Until() as real
    requires pause < b.restorationApplied.Until() as real
    ensures EarlyTruth(commit, pause, b).Fits(c, b)
  {
  }

  lemma LateTruthFits(commit: real, restore: real, c: Stamp, b: Bounds)
    requires b.Valid() && b.Ordered() && c.Covers(commit)
    requires b.restorationStarted.at as real <= restore < b.restorationApplied.Until() as real
    ensures LateTruth(commit, restore, b).Fits(c, b)
  {
  }

  ghost function Mid(a: real, b: real): (m: real) {
    (a + b) / 2.0
  }

  /** A truth on the left of the pause exists exactly below every later reading. */
  lemma LeftOfPause(c: Stamp, b: Bounds) returns (t: Truth)
    requires c.Valid() && b.Valid() && b.Ordered()
    requires c.at < b.pauseApplied.Until() && c.at < b.restorationStarted.Until() && c.at < b.restorationApplied.Until()
    ensures t.Fits(c, b) && t.commit < t.pause
  {
    var limit := b.pauseApplied.Until();
    if b.restorationStarted.Until() < limit {
      limit := b.restorationStarted.Until();
    }
    if b.restorationApplied.Until() < limit {
      limit := b.restorationApplied.Until();
    }
    var pause := Mid(RMax(c.at as real, b.outageStarted.at as real), limit as real);
    EarlyTruthFits(c.at as real, pause, c, b);
    t := EarlyTruth(c.at as real, pause, b);
  }

  lemma RightOfPause(c: Stamp, b: Bounds) returns (t: Truth)
    requires c.Valid() && b.Valid() && b.Ordered() && c.Until() > b.outageStarted.at
    ensures t.Fits(c, b) && t.pause <= t.commit
  {
    var commit := RMax(c.at as real, b.outageStarted.at as real);
    EarlyTruthFits(commit, b.outageStarted.at as real, c, b);
    t := EarlyTruth(commit, b.outageStarted.at as real, b);
  }

  lemma LeftOfRestore(c: Stamp, b: Bounds) returns (t: Truth)
    requires c.Valid() && b.Valid() && b.Ordered() && c.at < b.restorationApplied.Until()
    ensures t.Fits(c, b) && t.commit < t.restore
  {
    var restore := Mid(RMax(c.at as real, b.restorationStarted.at as real), b.restorationApplied.Until() as real);
    LateTruthFits(c.at as real, restore, c, b);
    t := LateTruth(c.at as real, restore, b);
  }

  lemma RightOfRestore(c: Stamp, b: Bounds) returns (t: Truth)
    requires c.Valid() && b.Valid() && b.Ordered() && c.Until() > b.restorationStarted.at
    ensures t.Fits(c, b) && t.restore <= t.commit
  {
    var commit := RMax(c.at as real, b.restorationStarted.at as real);
    LateTruthFits(commit, b.restorationStarted.at as real, c, b);
    t := LateTruth(commit, b.restorationStarted.at as real, b);
  }

  /**
   * For ordered bounds a commit is placed if and only if every truth that fits the
   * record is on that side: it neither guesses nor holds back.
   */
  lemma PlacementExact(c: Stamp, b: Bounds, side: Placement)
    requires c.resolution > 0 && b.Valid() && !side.Unplaceable?
    requires b.outageStarted.at <= b.pauseApplied.at <= b.restorationStarted.at <= b.restorationApplied.at
    ensures PlaceCommit(c, b) == side <==> forall t: Truth :: t.Fits(c, b) ==> t.Side() == side
  {
    if PlaceCommit(c, b) == side {
      forall t: Truth | t.Fits(c, b)
        ensures t.Side() == side
      {
        PlacementSound(c, b, t);
      }
    } else if forall t: Truth :: t.Fits(c, b) ==> t.Side() == side {
      // Each case names a truth on another side, which contradicts the supposition.
      match side
      case BeforePause =>
        var t := RightOfPause(c, b);
        assert false;
      case AfterRestoration =>
        var t := LeftOfRestore(c, b);
        assert false;
      case InPause =>
        if c.Until() > b.restorationStarted.at {
          var t := RightOfRestore(c, b);
          assert false;
        } else {
          var t := LeftOfPause(c, b);
          assert false;
        }
    }
  }

  /** Named after the restoration, a commit really can fall on either side of it. */
  lemma RestorationAmbiguous(c: Stamp, b: Bounds)
    requires c.Valid() && b.Valid() && b.Ordered()
    requires PlaceCommit(c, b) == Unplaceable(Restoration, b.restorationStarted, b.restorationApplied)
    ensures exists t: Truth :: t.Fits(c, b) && t.commit < t.restore
    ensures exists t: Truth :: t.Fits(c, b) && t.restore <= t.commit
  {
    var x := LeftOfRestore(c, b);
    var y := RightOfRestore(c, b);
  }

  /**
   * Named after the pause, a commit really can fall on either side of it if and only if it
   * starts before both restoration readings end.
   */
  lemma PauseAmbiguousIff(c: Stamp, b: Bounds)
    requires c.Valid() && b.Valid() && b.Ordered()
    requires PlaceCommit(c, b) == Unplaceable(Pause, b.outageStarted, b.pauseApplied)
    ensures exists t: Truth :: t.Fits(c, b) && t.pause <= t.commit
    ensures (exists t: Truth :: t.Fits(c, b) && t.commit < t.pause)
       <==> c.at < b.restorationStarted.Until() && c.at < b.restorationApplied.Until()
  {
    var x := RightOfPause(c, b);
    if c.at < b.restorationStarted.Until() && c.at < b.restorationApplied.Until() {
      var y := LeftOfPause(c, b);
    }
  }

  /** Coarse and fine stamps mixed: the commit is named after a pause it cannot have preceded. */
  lemma PauseNamedTooOften(c: Stamp, b: Bounds, t: Truth)
    requires c == Stamp(500_000, 100_000)
    requires b == Bounds(Stamp(0, 1_000_000), Stamp(0, 1_000_000), Stamp(100_000, 1), Stamp(200_000, 1_000_000))
    ensures b.Valid() && b.Ordered() && PlaceCommit(c, b) == Unplaceable(Pause, b.outageStarted, b.pauseApplied)
    ensures t.Fits(c, b) ==> t.pause < t.commit
  {
  }
}
