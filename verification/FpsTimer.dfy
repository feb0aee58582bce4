/**
 The frame counter of QtTestBrowser (fpstimer.cpp): times of day in a list that
 is purged from the front, counted backwards across midnight. The specification
 is the history of absolute times, which the code does not keep.
 */
module FpsTimer {

  const DAY := 24 * 60 * 60 * 1000
  const MAX_FRAMES_SAVED := 10000
  const FRAMES_TO_PURGE_WHEN_FULL := 2000

  /** QTime::currentTime at an absolute time in milliseconds: what is left when whole days are taken off. */
  function TimeOfDay(t: nat): (r: nat)
    ensures r < DAY && r <= t && (t < DAY ==> r == t)
  {
    if t < DAY then t else TimeOfDay(t - DAY)
  }

  lemma OneDayLess(t: nat)
    requires t >= DAY
    ensures t % 86_400_000 == (t - DAY) % 86_400_000
  {
    hide TimeOfDay;
  }

  lemma {:induction false} TimeOfDayIsRemainder(t: nat)
    ensures TimeOfDay(t) == t % 86_400_000
  {
    if t >= DAY {
      TimeOfDayIsRemainder(t - DAY);
      OneDayLess(t);
    }
  }

  /** The frames are the times of day of the last ones of the history. */
  ghost predicate Shows(frames: seq<nat>, history: seq<nat>) {
    frames != [] ==>
      && history != [] && frames[|frames| - 1] == TimeOfDay(history[|history| - 1])
      && Shows(frames[..|frames| - 1], history[..|history| - 1])
  }

  lemma {:induction false} ShowsAfterPurge(frames: seq<nat>, history: seq<nat>, d: nat)
    requires Shows(frames, history) && d <= |frames|
    ensures Shows(frames[d..], history)
    decreases |frames|
  {
    if d < |frames| {
      var init := frames[..|frames| - 1];
      ShowsAfterPurge(init, history[..|history| - 1], d);
      assert frames[d..][..|frames| - d - 1] == init[d..];
    }
  }

  /** The milliseconds from frame to now, and a day more when midnight has passed. */
  function Elapsed(frame: nat, now: nat): int {
    if now - frame < 0 then now - frame + DAY else now - frame
  }

  lemma {:induction false} ElapsedIsAgeWithoutDays(t: nat, now: nat)
    requires t <= now
    ensures Elapsed(TimeOfDay(t), TimeOfDay(now)) == TimeOfDay(now - t)
    decreases now
  {
    if t >= DAY {
      ElapsedIsAgeWithoutDays(t - DAY, now - DAY);
    } else if now - t >= DAY {
      ElapsedIsAgeWithoutDays(t, now - DAY);
    }
  }

  // ---- what the history says ---------------------------------------------------------

  /** The clock has not gone back, up to now. */
  ghost predicate Ordered(history: seq<nat>, now: nat) {
    history != [] ==> history[|history| - 1] <= now && Ordered(history[..|history| - 1], history[|history| - 1])
  }

  lemma {:induction false} OrderedAt(history: seq<nat>, now: nat, i: nat)
    requires Ordered(history, now) && i < |history|
    ensures history[i] <= history[|history| - 1] <= now
    decreases |history|
  {
    if i < |history| - 1 { OrderedAt(history[..|history| - 1], history[|history| - 1], i); }
  }

  /** The number of frames no older than span. */
  ghost function Recent(history: seq<nat>, now: nat, span: int): (r: nat)
    ensures r <= |history|
  {
    if history == [] then 0
    else
      var init, last := history[..|history| - 1], history[|history| - 1];
      Recent(init, now, span) + if now - last <= span then 1 else 0
  }

  /** If the newest frame is too old, so is every other. */
  lemma {:induction false} NoneRecent(history: seq<nat>, now: nat, span: int)
    requires Ordered(history, now) && (history != [] ==> now - history[|history| - 1] > span)
    ensures Recent(history, now, span) == 0
    decreases |history|
  {
    if history != [] { NoneRecent(history[..|history| - 1], now, span); }
  }

  /** How many of n frames are kept. */
  function Kept(n: nat): (r: nat)
    ensures r <= n
  {
    if n == 0 then 0
    else if Kept(n - 1) + 1 > MAX_FRAMES_SAVED then Kept(n - 1) + 1 - FRAMES_TO_PURGE_WHEN_FULL
    else Kept(n - 1) + 1
  }

  lemma KeptNext(n: nat)
    ensures Kept(n + 1) ==
      if Kept(n) + 1 > MAX_FRAMES_SAVED then Kept(n) + 1 - FRAMES_TO_PURGE_WHEN_FULL else Kept(n) + 1
  {
  }

  lemma {:induction false} KeptFrames(n: nat)
    ensures Kept(n) == if n <= 10000 then n else 8001 + (n - 10001) % 2000
    ensures (if n < 8001 then n else 8001) <= Kept(n) <= 10000
  {
    if n > 0 { KeptFrames(n - 1); }
  }

  // ---- what the loop counts -----------------------------------------------------------

  /** The last frames, as far back as their times of day look no older than span. */
  function Trailing(frames: seq<nat>, now: nat, span: int): (r: nat)
    ensures r <= |frames|
  {
    if frames == [] || Elapsed(frames[|frames| - 1], now) > span then 0
    else 1 + Trailing(frames[..|frames| - 1], now, span)
  }

  lemma TrailingNone(now: nat, span: int)
    ensures Trailing([], now, span) == 0
  {
  }

  lemma TrailingStep(frames: seq<nat>, i: nat, now: nat, span: int)
    requires i < |frames|
    ensures Trailing(frames[..i + 1], now, span) ==
      if Elapsed(frames[i], now) > span then 0 else 1 + Trailing(frames[..i], now, span)
  {
    assert frames[..i + 1][..i] == frames[..i];
  }

  function Min(a: nat, b: nat): nat { if a < b then a else b }

  /**
   Exactly when the count is right: the newest frame kept that is older than span
   must not look recent once whole days are taken off its age. The count is never
   too small.
   */
  lemma {:induction false} CountIsRightIff(frames: seq<nat>, history: seq<nat>, now: nat, span: int)
    requires Ordered(history, now) && Shows(frames, history) && |frames| <= |history|
    ensures var recent, count := Recent(history, now, span), Trailing(frames, TimeOfDay(now), span);
      && count >= Min(|frames|, recent)
      && (recent < |frames| ==> now >= history[|history| - 1 - recent])
      && (count == Min(|frames|, recent)
          <==> (recent >= |frames| || TimeOfDay(now - history[|history| - 1 - recent]) > span))
    decreases |frames|
  {
    if frames != [] {
      var last := history[|history| - 1];
      ElapsedIsAgeWithoutDays(last, now);
      if now - last <= span {
        CountIsRightIff(frames[..|frames| - 1], history[..|history| - 1], now, span);
      } else {
        NoneRecent(history, now, span);
      }
    }
  }

  /** When the frames kept span less than a day up to now, the count is right, across midnight and any purges. */
  lemma {:induction false} CountIsRightWithinADay(frames: seq<nat>, history: seq<nat>, now: nat, span: int)
    requires Ordered(history, now) && Shows(frames, history) && |frames| <= |history|
    requires frames != [] ==> now - history[|history| - |frames|] < 86_400_000
    ensures Trailing(frames, TimeOfDay(now), span) == Min(|frames|, Recent(history, now, span))
    decreases |frames|
  {
    if frames != [] {
      var last := history[|history| - 1];
      ElapsedIsAgeWithoutDays(last, now);
      OrderedAt(history, now, |history| - |frames|);
      if now - last <= span {
        CountIsRightWithinADay(frames[..|frames| - 1], history[..|history| - 1], now, span);
      } else {
        NoneRecent(history, now, span);
      }
    }
  }

  /** One frame that is a day old counts as recent. */
  lemma ADayOldFrameIsCounted(t: nat)
    ensures Trailing([TimeOfDay(t)], TimeOfDay(t + 86_400_000), 1000) == 1
    ensures Recent([t], t + 86_400_000, 1000) == 0
  {
    ElapsedIsAgeWithoutDays(t, t + DAY);
    assert [t][..0] == [];
  }

  // ---- the code ------------------------------------------------------------------------

  class Timer {
    var timer: int
    var frames: seq<nat>
    ghost var history: seq<nat>   // the absolute times of all frames since the last clear

    /** The frames kept are the last ones of the history. */
    ghost predicate Valid()
      reads this
    {
      |frames| == Kept(|history|) <= |history| && Shows(frames, history)
    }

    constructor ()
      ensures Valid() && timer == 0 && history == []
    {
      timer, frames, history := 0, [], [];
    }

    /** The kept frames are between the last 8001 and the last 10000 of the history. */
    method NumFrames(now: nat, spanMillis: int) returns (count: nat)
      requires Valid() && Ordered(history, now)
      ensures count == Trailing(frames, TimeOfDay(now), spanMillis)
      ensures Min(|history|, 8001) <= |frames| <= 10000
      ensures (frames == [] || now - history[|history| - |frames|] < 86_400_000)
        ==> count == Min(|frames|, Recent(history, now, spanMillis))
    {
      hide TimeOfDay, Kept, Recent, Ordered, Shows, Trailing;
      KeptFrames(|history|);
      if frames == [] || now - history[|history| - |frames|] < DAY {
        CountIsRightWithinADay(frames, history, now, spanMillis);
      }
      count := 0;
      var i := |frames| - 1;
      assert frames[..i + 1] == frames;
      TrailingNone(TimeOfDay(now), spanMillis);
      while i >= 0
        invariant -1 <= i < |frames| && count == |frames| - 1 - i
        invariant Trailing(frames, TimeOfDay(now), spanMillis) ==
          count + Trailing(frames[..i + 1], TimeOfDay(now), spanMillis)
      {
        var msecs := TimeOfDay(now) - frames[i];
        if msecs < 0 { msecs := msecs + 24 * 60 * 60 * 1000; }
        TrailingStep(frames, i, TimeOfDay(now), spanMillis);
        if msecs > spanMillis { break; }
        i, count := i - 1, count + 1;
      }
    }

    /** id is what startTimer returned. */
    method Start(id: int)
      requires Valid()
      modifies this`timer
      ensures Valid() && timer == id
    {
      timer := id;
    }

    /** Nothing happens before the first start; the identifier is not reset. */
    method Stop()
      requires Valid()
      modifies this`frames, this`history
      ensures Valid() && history == if timer == 0 then old(history) else []
    {
      if timer == 0 { return; }
      frames, history := [], [];
    }

    method TimerEvent(timerId: int, now: nat)
      requires Valid() && Ordered(history, now)
      modifies this`frames, this`history
      ensures Valid() && Ordered(history, now)
      ensures history == if timerId == timer then old(history) + [now] else old(history)
    {
      hide TimeOfDay, Kept;
      if timerId != timer { return; }
      KeptNext(|history|);
      frames := frames + [TimeOfDay(now)];
      history := history + [now];
      assert history[..|history| - 1] == old(history) && frames[..|frames| - 1] == old(frames);
      assert Shows(frames, history);
      if |frames| > MAX_FRAMES_SAVED {
        ShowsAfterPurge(frames, history, FRAMES_TO_PURGE_WHEN_FULL);
        frames := frames[FRAMES_TO_PURGE_WHEN_FULL..];
      }
    }
  }
}
