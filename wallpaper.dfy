/** The wallpaper scheduler: the current wallpaper index and mode, the
    slideshow's interval timer, and the handlers that start and stop the
    slideshow, advance it on each tick, and select a wallpaper. */
module Wallpaper {
  import opened JsObject

  /** `wallpapers.length`: bg1.jpg, bg2.jpg, bg3.jpg. */
  const WallpaperCount: int := 3
  const Slideshow: string := "slideshow"
  const Static: string := "static"

  /** `(wallpaperIndex + 1) % wallpapers.length`, the index after a tick.
      JavaScript's `%` takes the sign of the dividend, so an index below -1
      stays negative for another tick. */
  function NextIndex(i: int): (j: int)
    ensures -WallpaperCount < j < WallpaperCount
    ensures (i + 1 - j) % WallpaperCount == 0
    ensures i >= -1 ==> 0 <= j < WallpaperCount
    ensures i < -1 ==> j <= 0
    ensures 0 <= i < WallpaperCount - 1 ==> j == i + 1
    ensures i == WallpaperCount - 1 ==> j == 0
  {
    var a := i + 1;
    if a >= 0 then a % WallpaperCount else -((-a) % WallpaperCount)
  }

  /** From a valid index, three ticks show every wallpaper and come back. */
  lemma TicksCycle(i: int)
    requires 0 <= i < WallpaperCount
    ensures NextIndex(NextIndex(NextIndex(i))) == i
    ensures {i, NextIndex(i), NextIndex(NextIndex(i))} == {0, 1, 2}
  {
  }

  /** Whatever index was stored, three ticks bring it into range. */
  lemma TicksReachRange(i: int)
    ensures 0 <= NextIndex(NextIndex(NextIndex(i))) < WallpaperCount
  {
    var j := NextIndex(i);
    if j == -2 {
      assert NextIndex(j) == -1;
    }
  }

  /** What `saveWallpaperState` writes to `chrome.storage.local`. */
  datatype WallpaperSnapshot = WallpaperSnapshot(wallpaperIndex: int, wallpaperMode: string)

  class Scheduler {
    /** `wallpaperIndex`, `wallpaperMode`, `slideshowInterval` */
    var wallpaperIndex: int
    var wallpaperMode: string
    var slideshowInterval: Option<nat>
    /** The index last passed to `applyWallpaper`, if any. */
    var shown: Option<int>
    /** The browser's live interval timers and the next handle it hands out;
        handles are positive and never reused. */
    var timers: set<nat>
    var nextHandle: nat
    /** Every `saveWallpaperState` write so far, oldest first. */
    ghost var saved: seq<WallpaperSnapshot>

    /** At most one interval timer is live, and it is the one
        `slideshowInterval` holds. */
    ghost predicate Valid()
      reads this
    {
      && 0 < nextHandle
      && (slideshowInterval.None? ==> timers == {})
      && (slideshowInterval.Some? ==>
            0 < slideshowInterval.value < nextHandle && timers == {slideshowInterval.value})
    }

    /** In addition, a timer runs only in slideshow mode. */
    ghost predicate Consistent()
      reads this
    {
      Valid() && (slideshowInterval.Some? ==> wallpaperMode == Slideshow)
    }

    predicate InRange()
      reads this
    {
      0 <= wallpaperIndex < WallpaperCount
    }

    lemma AtMostOneTimer()
      requires Valid()
      ensures |timers| <= 1
      ensures forall h :: h in timers ==> slideshowInterval == Some(h)
    {
    }

    constructor ()
      ensures Consistent() && InRange()
      ensures wallpaperIndex == 0 && wallpaperMode == Slideshow
      ensures slideshowInterval == None && timers == {} && shown == None && saved == []
    {
      wallpaperIndex := 0;
      wallpaperMode := Slideshow;
      slideshowInterval := None;
      shown := None;
      timers := {};
      nextHandle := 1;
      saved := [];
    }

    /** `setInterval(...)`: the browser arms a timer under a fresh handle. */
    method SetInterval() returns (h: nat)
      requires 0 < nextHandle
      modifies this`timers, this`nextHandle
      ensures h == old(nextHandle) && nextHandle == h + 1
      ensures timers == old(timers) + {h}
    {
      h := nextHandle;
      nextHandle := nextHandle + 1;
      timers := timers + {h};
    }

    /** `clearInterval(h)` */
    method ClearInterval(h: nat)
      modifies this`timers
      ensures timers == old(timers) - {h}
    {
      timers := timers - {h};
    }

    /** `saveWallpaperState()` */
    method SaveWallpaperState()
      modifies this`saved
      ensures saved == old(saved) + [WallpaperSnapshot(wallpaperIndex, wallpaperMode)]
    {
      saved := saved + [WallpaperSnapshot(wallpaperIndex, wallpaperMode)];
    }

    /** `stopSlideshow()`: clear the held timer, if the handle is truthy. */
    method StopSlideshow()
      requires Valid()
      modifies this`slideshowInterval, this`timers
      ensures Valid() && slideshowInterval == None && timers == {}
    {
      if slideshowInterval.Some? && slideshowInterval.value != 0 {
        ClearInterval(slideshowInterval.value);
        slideshowInterval := None;
      }
    }

    /** `startSlideshow()`: stop any running slideshow, show the current
        wallpaper, then arm one new timer. */
    method StartSlideshow()
      requires Valid()
      modifies this`slideshowInterval, this`timers, this`nextHandle, this`shown
      ensures Valid()
      ensures slideshowInterval == Some(old(nextHandle)) && timers == {old(nextHandle)}
      ensures old(timers) !! timers
      ensures shown == Some(wallpaperIndex)
    {
      StopSlideshow();
      shown := Some(wallpaperIndex);
      var h := SetInterval();
      slideshowInterval := Some(h);
    }

    /** The interval callback, run when live timer `h` fires: advance the
        index, show it and save. */
    method Tick(h: nat)
      requires Valid() && h in timers
      modifies this`wallpaperIndex, this`shown, this`saved
      ensures wallpaperIndex == NextIndex(old(wallpaperIndex))
      ensures shown == Some(wallpaperIndex)
      ensures saved == old(saved) + [WallpaperSnapshot(wallpaperIndex, wallpaperMode)]
      ensures old(wallpaperIndex) >= -1 ==> InRange()
    {
      wallpaperIndex := NextIndex(wallpaperIndex);
      shown := Some(wallpaperIndex);
      SaveWallpaperState();
    }

    /** A thumbnail's `onclick`: show wallpaper `index` for good. */
    method SelectThumbnail(index: nat)
      requires Valid() && index < WallpaperCount
      modifies this
      ensures Consistent() && InRange()
      ensures wallpaperIndex == index && wallpaperMode == Static
      ensures slideshowInterval == None && timers == {}
      ensures shown == Some(index) && nextHandle == old(nextHandle)
      ensures saved == old(saved) + [WallpaperSnapshot(index, Static)]
    {
      wallpaperIndex := index;
      wallpaperMode := Static;
      StopSlideshow();
      shown := Some(index);
      SaveWallpaperState();
    }

    /** `slideshowBtn.onclick`: back to slideshow mode from the current index. */
    method SlideshowClicked()
      requires Valid()
      modifies this
      ensures Consistent()
      ensures wallpaperIndex == old(wallpaperIndex) && wallpaperMode == Slideshow
      ensures slideshowInterval == Some(old(nextHandle)) && timers == {old(nextHandle)}
      ensures shown == Some(wallpaperIndex)
      ensures saved == old(saved) + [WallpaperSnapshot(wallpaperIndex, Slideshow)]
    {
      wallpaperMode := Slideshow;
      StartSlideshow();
      SaveWallpaperState();
    }

    /** The wallpaper half of the stored-state callback as written: take the
        stored index (or 0) and mode (or slideshow); in slideshow mode start
        the slideshow, otherwise only show the wallpaper. A timer started
        before the callback ran is left running in the second case. */
    method ResumeAsWritten(storedIndex: Option<int>, storedMode: Option<string>)
      requires Valid()
      modifies this
      ensures Valid()
      ensures wallpaperIndex == storedIndex.GetOr(0) && wallpaperMode == storedMode.GetOr(Slideshow)
      ensures shown == Some(wallpaperIndex) && saved == old(saved)
      ensures wallpaperMode == Slideshow ==>
                slideshowInterval == Some(old(nextHandle)) && timers == {old(nextHandle)}
      ensures wallpaperMode != Slideshow ==>
                slideshowInterval == old(slideshowInterval) && timers == old(timers)
    {
      wallpaperIndex := storedIndex.GetOr(0);
      wallpaperMode := storedMode.GetOr(Slideshow);
      if wallpaperMode == Slideshow {
        StartSlideshow();
      } else {
        shown := Some(wallpaperIndex);
      }
    }

    /** The wallpaper half of the stored-state callback, corrected so that a
        mode other than slideshow also stops any running slideshow: the
        restored state never has a timer outside slideshow mode. */
    method Resume(storedIndex: Option<int>, storedMode: Option<string>)
      requires Valid()
      modifies this
      ensures Consistent()
      ensures wallpaperIndex == storedIndex.GetOr(0) && wallpaperMode == storedMode.GetOr(Slideshow)
      ensures shown == Some(wallpaperIndex) && saved == old(saved)
      ensures wallpaperMode == Slideshow ==>
                slideshowInterval == Some(old(nextHandle)) && timers == {old(nextHandle)}
      ensures wallpaperMode != Slideshow ==> slideshowInterval == None && timers == {}
    {
      wallpaperIndex := storedIndex.GetOr(0);
      wallpaperMode := storedMode.GetOr(Slideshow);
      if wallpaperMode == Slideshow {
        StartSlideshow();
      } else {
        StopSlideshow();
        shown := Some(wallpaperIndex);
      }
    }
  }

  /** Events that reach the scheduler once the page is running, the
      stored-state callback included: the buttons are wired before
      `chrome.storage.local.get` answers, so clicks and the callback come in
      any order. */
  datatype Event =
    | TimerFired
    | ThumbnailClicked(index: nat)
    | SlideshowClicked
    | StateLoaded(storedIndex: Option<int>, storedMode: Option<string>)

  /** Every stored-state callback in `events` restores slideshow mode. */
  predicate RestoresSlideshow(events: seq<Event>) {
    forall n :: 0 <= n < |events| && events[n].StateLoaded? ==>
      events[n].storedMode.GetOr(Slideshow) == Slideshow
  }

  /** Every stored-state callback in `events` restores an index in range. */
  predicate RestoresInRange(events: seq<Event>) {
    forall n :: 0 <= n < |events| && events[n].StateLoaded? ==>
      0 <= events[n].storedIndex.GetOr(0) < WallpaperCount
  }

  /** Any sequence of ticks, clicks and stored-state callbacks (as written)
      keeps at most one timer, the held one. The timer runs only in
      slideshow mode when that held before and no callback restores another
      mode; an index in range stays in range when every callback restores
      one in range. */
  method RunEvents(s: Scheduler, events: seq<Event>)
    requires s.Valid()
    modifies s
    ensures s.Valid() && |s.timers| <= 1
    ensures old(s.Consistent()) && RestoresSlideshow(events) ==>
              s.Consistent() && (s.wallpaperMode != Slideshow ==> s.timers == {})
    ensures old(s.InRange()) && RestoresInRange(events) ==> s.InRange()
  {
    ghost var consistent := s.Consistent() && RestoresSlideshow(events);
    ghost var inRange := s.InRange() && RestoresInRange(events);
    for n := 0 to |events|
      invariant s.Valid()
      invariant consistent ==> s.Consistent()
      invariant inRange ==> s.InRange()
    {
      match events[n]
      case TimerFired =>
        if s.slideshowInterval.Some? {
          s.Tick(s.slideshowInterval.value);
        }
      case ThumbnailClicked(i) =>
        // the grid has one thumbnail per wallpaper
        if i < WallpaperCount {
          s.SelectThumbnail(i);
        }
      case SlideshowClicked =>
        s.SlideshowClicked();
      case StateLoaded(index, mode) =>
        s.ResumeAsWritten(index, mode);
    }
    s.AtMostOneTimer();
  }

  /** The race in the stored-state callback: the slideshow button is wired
      before the stored state arrives; clicking it first and then restoring
      a static mode leaves the slideshow timer running in static mode. */
  method ResumeRace() returns (liveTimers: nat, mode: string)
    ensures liveTimers == 1 && mode == Static
  {
    var s := new Scheduler();
    s.SlideshowClicked();
    s.ResumeAsWritten(Some(2), Some(Static));
    liveTimers := |s.timers|;
    mode := s.wallpaperMode;
  }

  /** The corrected callback on the same events leaves no timer. */
  method ResumeNoRace() returns (liveTimers: nat, mode: string)
    ensures liveTimers == 0 && mode == Static
  {
    var s := new Scheduler();
    s.SlideshowClicked();
    s.Resume(Some(2), Some(Static));
    liveTimers := |s.timers|;
    mode := s.wallpaperMode;
  }
}
