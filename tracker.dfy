/**
 * The tracker's main loop state, updated in place as the program does: the
 * fixed panel geometry, the label and image maps, the per-panel histories,
 * the swap lock and the time of the last swap. Each method performs one part
 * of a loop iteration and is proved to produce the state that the matching
 * function of module SwapEngine describes.
 */
module PanelTracker {
  import opened Detector
  import opened Classifier
  import opened Debounce
  import opened Labels
  import opened SwapEngine

  /** Key codes of the commands, as the low byte of the polled key. */
  const LockKey: int := 's' as int
  const ResetKey: int := 'r' as int
  const QuitKey: int := 'q' as int

  class Tracker<Img> {
    var rois: seq<Rect>
    var difficulty: string
    var contents: map<int, string>
    var images: map<int, Img>
    var history: map<int, seq<bool>>
    var swapLocked: bool
    var lastSwap: int

    /** The whole state as a value. */
    ghost function Model(): Session<Img>
      reads this
    {
      Session(rois, difficulty, contents, images, history, swapLocked, lastSwap)
    }

    constructor ()
      ensures Model() == Initial()
      ensures Valid(Model())
    {
      rois, difficulty := [], "None";
      contents, images, history := map[], map[], map[];
      swapLocked, lastSwap := false, 0;
      ValidInitial<Img>();
    }

    /**
     * Classifies every fixed panel in this frame, appends the estimate to the
     * panel's history (creating the history if the slot has none) and
     * returns the slots confirmed face-up.
     */
    method ObserveFrame(region: Rect -> Region) returns (confirmed: set<int>)
      modifies this
      ensures Model() == Observe(old(Model()), RawUp(old(rois), region))
      ensures confirmed == Confirmed(Model())
    {
      ghost var h0 := history;
      ghost var up := RawUp(rois, region);
      var active: seq<int> := [];
      for i := 0 to |rois|
        invariant rois == old(rois) && difficulty == old(difficulty)
        invariant contents == old(contents) && images == old(images)
        invariant swapLocked == old(swapLocked) && lastSwap == old(lastSwap)
        invariant ObservedUpTo(h0, up, history, i)
        invariant forall k :: k in active <==> 0 <= k < i && ConfirmedUp(history[k])
      {
        var isUpNow := IsFaceUp(region(rois[i]));
        var buf := if i in history then history[i] else [];
        var next := Append(buf, isUpNow);
        ObservedStep(h0, up, history, i, buf, next);
        history := history[i := next];
        if ConfirmedUp(next) {
          active := active + [i];
        }
      }
      ObservedMap(h0, up, history);
      assert Model() == Observe(old(Model()), up);
      confirmed := set k | k in active;
      ConfirmedSet(Model(), confirmed);
    }

    /** Empties every panel's history. */
    method ClearHistories()
      modifies this
      ensures history == ClearAll(old(history))
      ensures rois == old(rois) && difficulty == old(difficulty)
      ensures contents == old(contents) && images == old(images)
      ensures swapLocked == old(swapLocked) && lastSwap == old(lastSwap)
    {
      var pending := history.Keys;
      while pending != {}
        invariant pending <= history.Keys && history.Keys == old(history).Keys
        invariant forall k | k in history && k !in pending :: history[k] == []
        invariant rois == old(rois) && difficulty == old(difficulty)
        invariant contents == old(contents) && images == old(images)
        invariant swapLocked == old(swapLocked) && lastSwap == old(lastSwap)
        decreases pending
      {
        HasMember(pending);
        var k :| k in pending;
        history := history[k := []];
        pending := pending - {k};
      }
      ClearedMap(old(history), history);
    }

    /**
     * The swap decision of one frame: with exactly two confirmed slots, no
     * lock and the cooldown strictly elapsed, exchange their labels and
     * images, lock, record the time and clear all histories; with no
     * confirmed slot, release the lock; otherwise do nothing.
     */
    method SwapStep(confirmed: set<int>, now: int)
      requires confirmed <= contents.Keys && confirmed <= images.Keys
      modifies this
      ensures Model() == Decide(old(Model()), confirmed, now)
    {
      if |confirmed| == 2 {
        if !swapLocked && now - lastSwap > Cooldown {
          PairExists(confirmed);
          var a, b :| a in confirmed && b in confirmed && a != b && confirmed == {a, b};
          DecideCommits(Model(), a, b, now);
          Commit(a, b, now);
        }
      } else if |confirmed| == 0 {
        swapLocked := false;
      }
    }

    /**
     * A committed swap: the two slots exchange labels and reference images,
     * the lock is taken, the time recorded and every history emptied.
     */
    method Commit(a: int, b: int, now: int)
      requires a in contents && b in contents && a in images && b in images
      modifies this
      ensures Model() == old(Model()).(contents := Exchange(old(contents), a, b),
                                       images := Exchange(old(images), a, b),
                                       swapLocked := true,
                                       lastSwap := now,
                                       history := ClearAll(old(history)))
    {
      contents := contents[a := contents[b]][b := contents[a]];
      images := images[a := images[b]][b := images[a]];
      swapLocked := true;
      lastSwap := now;
      ClearHistories();
    }

    /** One loop iteration without a command: observe, then decide. */
    method Frame(region: Rect -> Region, now: int)
      requires Valid(Model())
      modifies this
      ensures Model() == Tick(old(Model()), RawUp(old(rois), region), now)
      ensures Valid(Model())
    {
      ghost var s := Model();
      ObserveKeepsValid(s, RawUp(rois, region));
      var confirmed := ObserveFrame(region);
      SwapStep(confirmed, now);
    }

    /**
     * The lock command: detect the panels of the current frame and freeze
     * them as the grid, with default labels, their regions as reference
     * images and empty histories.
     */
    method Lock(rects: seq<Rect>, image: Rect -> Img)
      modifies this
      ensures Model() == LockGrid(old(Model()), rects, image)
      ensures Valid(Model())
    {
      ghost var s := Model();
      var detected, diff := DetectPanels(rects);
      rois, difficulty := detected, diff;
      contents := map i | 0 <= i < |rois| :: PanelLabel(i);
      images := map i | 0 <= i < |rois| :: image(rois[i]);
      history := map i | i in Slots(|rois|) :: [];
      assert Model() == LockGrid(s, rects, image);
      LockGridEstablishes(s, rects, image);
    }

    /** The reset command: back to preview mode; everything else is kept. */
    method Reset()
      modifies this
      ensures Model() == ResetGrid(old(Model()))
      ensures Valid(old(Model())) ==> Valid(Model())
    {
      rois := [];
    }

    /**
     * One whole iteration of the main loop: observe and decide, then act on
     * the polled key. Returns whether the key asked to quit.
     */
    method Iteration(rects: seq<Rect>, region: Rect -> Region, image: Rect -> Img, now: int, key: int)
      returns (quit: bool)
      requires Valid(Model())
      modifies this
      ensures var t := Tick(old(Model()), RawUp(old(rois), region), now);
        Model() == if key == LockKey then LockGrid(t, rects, image)
                   else if key == ResetKey then ResetGrid(t)
                   else t
      ensures Valid(Model())
      ensures quit <==> key == QuitKey
    {
      Frame(region, now);
      if key == LockKey {
        Lock(rects, image);
      }
      if key == ResetKey {
        Reset();
      }
      quit := key == QuitKey;
    }
  }

  /** The histories h0 after the estimates of the first i panels were appended. */
  ghost predicate ObservedUpTo(h0: map<int, seq<bool>>, up: seq<bool>, h: map<int, seq<bool>>, i: int)
  {
    && i <= |up|
    && (forall k :: k in h <==> k in h0 || 0 <= k < i)
    && (forall k | 0 <= k < i :: h[k] == Append(Buffer(h0, k), up[k]))
    && (forall k | k in h0 && !(0 <= k < i) :: h[k] == h0[k])
  }

  /** Appending the estimate of panel i to its history extends the observation by one panel. */
  lemma ObservedStep(h0: map<int, seq<bool>>, up: seq<bool>, h: map<int, seq<bool>>, i: int,
                     buf: seq<bool>, next: seq<bool>)
    requires ObservedUpTo(h0, up, h, i) && 0 <= i < |up|
    requires buf == (if i in h then h[i] else [])
    requires next == Append(buf, up[i])
    ensures ObservedUpTo(h0, up, h[i := next], i + 1)
    ensures forall k | k in h && k != i :: h[i := next][k] == h[k]
  {
  }

  /** A map that agrees key by key with the observed histories is the observed histories. */
  lemma ObservedMap(h0: map<int, seq<bool>>, up: seq<bool>, h: map<int, seq<bool>>)
    requires ObservedUpTo(h0, up, h, |up|)
    ensures h == h0 + map i | 0 <= i < |up| :: Append(Buffer(h0, i), up[i])
  {
    var target := h0 + map i | 0 <= i < |up| :: Append(Buffer(h0, i), up[i]);
    assert h.Keys == target.Keys;
    forall k | k in h ensures h[k] == target[k] {
    }
  }

  /** The slots collected by the observation pass are the confirmed slots. */
  lemma ConfirmedSet<Img>(s: Session<Img>, c: set<int>)
    requires forall k | 0 <= k < |s.rois| :: k in s.history
    requires forall k :: k in c <==> 0 <= k < |s.rois| && ConfirmedUp(s.history[k])
    ensures c == Confirmed(s)
  {
    forall k ensures k in c <==> k in Confirmed(s) {
    }
  }

  /** A map with the same keys whose every value is empty is the cleared map. */
  lemma ClearedMap(h0: map<int, seq<bool>>, h: map<int, seq<bool>>)
    requires h.Keys == h0.Keys
    requires forall k | k in h :: h[k] == []
    ensures h == ClearAll(h0)
  {
    var target := ClearAll(h0);
    forall k | k in h ensures h[k] == target[k] {
    }
  }
}
