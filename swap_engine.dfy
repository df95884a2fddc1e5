/**
 * The swap engine as a state machine over the tracker's whole state. Each
 * function here is one step of the main loop of the tracker: observe the
 * fixed panels and debounce their face-up estimates, decide whether a swap
 * happened, lock the grid, reset it. The class in module PanelTracker
 * performs these steps in place and is proved to match them.
 */
module SwapEngine {
  import opened Detector
  import opened Classifier
  import opened Debounce
  import opened Labels

  /** Minimum time between two committed swaps, in milliseconds (0.6 s). */
  const Cooldown: int := 600

  /** The tracker's state; Img is the type of a stored reference image. */
  datatype Session<Img> = Session(
    rois: seq<Rect>,              // frozen panel geometry; empty in preview mode
    difficulty: string,           // difficulty named when the grid was locked
    contents: map<int, string>,   // slot index to identity label
    images: map<int, Img>,        // slot index to reference image
    history: map<int, seq<bool>>, // slot index to its bounded face-up history
    swapLocked: bool,             // set by a committed swap, cleared by an empty frame
    lastSwap: int)                // time of the last committed swap, in milliseconds

  /** The slot indices 0 .. n-1. */
  function Slots(n: nat): (r: set<int>)
    ensures forall i :: i in r <==> 0 <= i < n
  {
    if n == 0 then {} else Slots(n - 1) + {n - 1}
  }

  /** A set with a positive size has a member. */
  lemma HasMember(c: set<int>)
    requires |c| > 0
    ensures exists x :: x in c
  {
    if forall x :: x !in c {
      assert false;
    }
  }

  /** A set of size two is made of two distinct members. */
  lemma PairExists(c: set<int>)
    requires |c| == 2
    ensures exists a, b :: a in c && b in c && a != b && c == {a, b}
  {
    HasMember(c);
    var a :| a in c;
    var rest := c - {a};
    assert |rest| == 1;
    HasMember(rest);
    var b :| b in rest;
    assert |rest - {b}| == 0;
    assert rest == {b};
    assert c == {a} + rest;
    assert a in c && b in c && a != b && c == {a, b};
  }

  /** The state at program start: preview mode, nothing remembered. */
  function Initial<Img>(): Session<Img> {
    Session([], "None", map[], map[], map[], false, 0)
  }

  /**
   * The invariant of the state: every slot has a label, an image and a
   * history together, no history exceeds its capacity, and while a grid is
   * locked the slots are exactly the indices of its panels.
   */
  predicate Valid<Img>(s: Session<Img>) {
    && s.contents.Keys == s.images.Keys == s.history.Keys
    && (forall i | i in s.history :: |s.history[i]| <= ConfirmFrames)
    && (s.rois != [] ==> s.history.Keys == Slots(|s.rois|))
  }

  // ---------------------------------------------------------------------------
  // Exchanging two slots
  // ---------------------------------------------------------------------------

  /** The values of a and b trade places; every other slot keeps its value. */
  function Exchange<T>(m: map<int, T>, a: int, b: int): (r: map<int, T>)
    requires a in m && b in m
    ensures r.Keys == m.Keys
    ensures r[a] == m[b] && r[b] == m[a]
    ensures forall i | i in m && i != a && i != b :: r[i] == m[i]
  {
    m[a := m[b]][b := m[a]]
  }

  /** Which of the two slots is named first does not matter. */
  lemma ExchangeSymmetric<T>(m: map<int, T>, a: int, b: int)
    requires a in m && b in m
    ensures Exchange(m, a, b) == Exchange(m, b, a)
  {
  }

  /** Exchanging the same two slots again restores the map. */
  lemma ExchangeInvolutive<T>(m: map<int, T>, a: int, b: int)
    requires a in m && b in m
    ensures Exchange(Exchange(m, a, b), a, b) == m
  {
  }

  /** The values of slots 0 .. n-1, in slot order. */
  function SlotValues<T>(m: map<int, T>, n: nat): (s: seq<T>)
    requires Slots(n) <= m.Keys
    ensures |s| == n && forall i :: 0 <= i < n ==> s[i] == m[i]
  {
    seq(n, i requires 0 <= i < n => assert i in Slots(n); m[i])
  }

  /** An exchange neither creates nor loses a value: the slots hold a permutation of what they held. */
  lemma ExchangePermutes<T>(m: map<int, T>, a: int, b: int, n: nat)
    requires Slots(n) <= m.Keys && a in Slots(n) && b in Slots(n)
    ensures multiset(SlotValues(Exchange(m, a, b), n)) == multiset(SlotValues(m, n))
  {
    var s := SlotValues(m, n);
    assert SlotValues(Exchange(m, a, b), n) == s[a := m[b]][b := m[a]];
  }

  // ---------------------------------------------------------------------------
  // Observation and debouncing
  // ---------------------------------------------------------------------------

  /** The history of slot i, or an empty one if the slot has none yet. */
  function Buffer(h: map<int, seq<bool>>, i: int): seq<bool> {
    if i in h then h[i] else []
  }

  /** This frame's raw face-up estimate for each fixed panel, given the panel regions of the frame. */
  function RawUp(rois: seq<Rect>, region: Rect -> Region): seq<bool> {
    seq(|rois|, i requires 0 <= i < |rois| => IsFaceUp(region(rois[i])))
  }

  /** Appends each panel's raw estimate to its history. */
  function Observe<Img>(s: Session<Img>, up: seq<bool>): Session<Img> {
    s.(history := s.history + map i | 0 <= i < |up| :: Append(Buffer(s.history, i), up[i]))
  }

  /** The slots confirmed face-up: full history, all true. */
  function Confirmed<Img>(s: Session<Img>): set<int> {
    set i | 0 <= i < |s.rois| && i in s.history && ConfirmedUp(s.history[i])
  }

  // ---------------------------------------------------------------------------
  // The swap decision
  // ---------------------------------------------------------------------------

  /** A swap is committed: exactly two slots confirmed, not locked, cooldown strictly elapsed. */
  predicate Fires<Img>(s: Session<Img>, confirmed: set<int>, now: int) {
    |confirmed| == 2 && !s.swapLocked && now - s.lastSwap > Cooldown
  }

  function ClearAll(h: map<int, seq<bool>>): (r: map<int, seq<bool>>)
    ensures r.Keys == h.Keys && forall i | i in r :: r[i] == []
  {
    map i | i in h :: []
  }

  /** One swap decision, given the slots confirmed face-up in this frame and the time. */
  ghost function Decide<Img>(s: Session<Img>, confirmed: set<int>, now: int): (r: Session<Img>)
    requires confirmed <= s.contents.Keys && confirmed <= s.images.Keys
    ensures r.rois == s.rois && r.difficulty == s.difficulty
    ensures r.contents.Keys == s.contents.Keys && r.images.Keys == s.images.Keys
    ensures r.history.Keys == s.history.Keys
    ensures Valid(s) ==> Valid(r)
  {
    if Fires(s, confirmed, now) then
      PairExists(confirmed);
      var a, b :| a in confirmed && b in confirmed && a != b && confirmed == {a, b};
      s.(contents := Exchange(s.contents, a, b),
         images := Exchange(s.images, a, b),
         swapLocked := true,
         lastSwap := now,
         history := ClearAll(s.history))
    else if |confirmed| == 0 then s.(swapLocked := false)
    else s
  }

  /**
   * A committed swap exchanges both the label and the image of the two
   * confirmed slots, whichever of them is named first, locks, records the
   * time and empties every history; nothing else changes.
   */
  lemma DecideCommits<Img>(s: Session<Img>, a: int, b: int, now: int)
    requires a != b && {a, b} <= s.contents.Keys && {a, b} <= s.images.Keys
    requires Fires(s, {a, b}, now)
    ensures Decide(s, {a, b}, now) == s.(contents := Exchange(s.contents, a, b),
                                         images := Exchange(s.images, a, b),
                                         swapLocked := true,
                                         lastSwap := now,
                                         history := ClearAll(s.history))
  {
    ExchangeSymmetric(s.contents, a, b);
    ExchangeSymmetric(s.images, a, b);
  }

  /**
   * No double trigger: a frame that does not commit a swap changes nothing
   * unless it has no confirmed slot, and then it only releases the lock.
   * In particular, while locked or within the cooldown, a two-panel frame
   * changes nothing, and one or three or more confirmed slots change nothing.
   */
  lemma DecideWithoutCommit<Img>(s: Session<Img>, confirmed: set<int>, now: int)
    requires confirmed <= s.contents.Keys && confirmed <= s.images.Keys
    requires !Fires(s, confirmed, now)
    ensures Decide(s, confirmed, now) == if confirmed == {} then s.(swapLocked := false) else s
  {
  }

  /** The lock is released exactly by a frame with no confirmed slot. */
  lemma LockReleasedOnlyWhenEmpty<Img>(s: Session<Img>, confirmed: set<int>, now: int)
    requires confirmed <= s.contents.Keys && confirmed <= s.images.Keys
    requires s.swapLocked
    ensures !Decide(s, confirmed, now).swapLocked <==> confirmed == {}
  {
  }

  /** A frame of the decision: the confirmed slots and the time. */
  datatype Frame = Frame(confirmed: set<int>, now: int)

  predicate FramesFit<Img>(s: Session<Img>, frames: seq<Frame>) {
    forall i :: 0 <= i < |frames| ==>
      frames[i].confirmed <= s.contents.Keys && frames[i].confirmed <= s.images.Keys
  }

  /** The swap decisions of several frames in turn. */
  ghost function Run<Img>(s: Session<Img>, frames: seq<Frame>): (r: Session<Img>)
    requires FramesFit(s, frames)
    ensures r.contents.Keys == s.contents.Keys && r.images.Keys == s.images.Keys
    decreases |frames|
  {
    if frames == [] then s
    else Run(Decide(s, frames[0].confirmed, frames[0].now), frames[1..])
  }

  /** Once locked, no sequence of frames that each have a confirmed slot changes anything. */
  lemma {:induction false} NoDoubleTrigger<Img>(s: Session<Img>, frames: seq<Frame>)
    requires FramesFit(s, frames)
    requires s.swapLocked
    requires forall i :: 0 <= i < |frames| ==> frames[i].confirmed != {}
    ensures Run(s, frames) == s
  {
    if frames != [] {
      assert Decide(s, frames[0].confirmed, frames[0].now) == s;
      NoDoubleTrigger(s, frames[1..]);
    }
  }

  /** No frame within the cooldown of the last swap commits another, whatever the lock does. */
  lemma {:induction false} CooldownEnforced<Img>(s: Session<Img>, frames: seq<Frame>)
    requires FramesFit(s, frames)
    requires forall i :: 0 <= i < |frames| ==> frames[i].now - s.lastSwap <= Cooldown
    ensures Run(s, frames).contents == s.contents
    ensures Run(s, frames).images == s.images
    ensures Run(s, frames).lastSwap == s.lastSwap
    decreases |frames|
  {
    if frames != [] {
      var s' := Decide(s, frames[0].confirmed, frames[0].now);
      assert s'.contents == s.contents && s'.images == s.images && s'.lastSwap == s.lastSwap;
      assert FramesFit(s', frames[1..]);
      CooldownEnforced(s', frames[1..]);
    }
  }

  // ---------------------------------------------------------------------------
  // One iteration of the main loop, and the lock and reset commands
  // ---------------------------------------------------------------------------

  /** Observe the fixed panels, then decide on the slots confirmed face-up. */
  ghost function Tick<Img>(s: Session<Img>, up: seq<bool>, now: int): (r: Session<Img>)
    requires Valid(s) && |up| == |s.rois|
    ensures Valid(r) && r.rois == s.rois
  {
    ObserveKeepsValid(s, up);
    var o := Observe(s, up);
    Decide(o, Confirmed(o), now)
  }

  /**
   * Lock: detect the panels of the current frame, freeze them as the grid,
   * label slot i "P{i+1}", store each panel's region as its reference image
   * and give every slot an empty history. The swap lock and the time of the
   * last swap are kept.
   */
  function LockGrid<Img>(s: Session<Img>, rects: seq<Rect>, image: Rect -> Img): Session<Img> {
    var rois := ReadingOrder(Filtered(rects));
    s.(rois := rois,
       difficulty := Difficulty(|rois|),
       contents := map i | 0 <= i < |rois| :: PanelLabel(i),
       images := map i | 0 <= i < |rois| :: image(rois[i]),
       history := map i | i in Slots(|rois|) :: [])
  }

  /** Reset: forget the grid geometry only; labels, images and histories stay as they are. */
  function ResetGrid<Img>(s: Session<Img>): Session<Img> {
    s.(rois := [])
  }

  /** The identity labels of the locked slots are a permutation of the default ones. */
  predicate IdentitiesIntact<Img>(s: Session<Img>)
    requires Valid(s)
  {
    s.rois != [] ==>
      multiset(SlotValues(s.contents, |s.rois|)) == multiset(SlotValues(DefaultLabels(|s.rois|), |s.rois|))
  }

  function DefaultLabels(n: nat): (m: map<int, string>)
    ensures m.Keys == Slots(n)
  {
    map i | 0 <= i < n :: PanelLabel(i)
  }

  lemma ValidInitial<Img>()
    ensures Valid(Initial<Img>())
  {
  }

  /**
   * After the lock command the slots are exactly the detected panels, in
   * reading order, slot i is labelled "P{i+1}" and holds its panel's image,
   * no two slots share a label, and every history is empty.
   */
  lemma LockGridEstablishes<Img>(s: Session<Img>, rects: seq<Rect>, image: Rect -> Img)
    ensures var r := LockGrid(s, rects, image);
      && Valid(r)
      && r.rois == ReadingOrder(Filtered(rects))
      && r.contents.Keys == Slots(|r.rois|)
      && (forall i | 0 <= i < |r.rois| :: r.contents[i] == PanelLabel(i) && r.images[i] == image(r.rois[i]))
      && (forall i, j | i in r.contents && j in r.contents && i != j :: r.contents[i] != r.contents[j])
      && (forall i | i in r.history :: r.history[i] == [])
      && IdentitiesIntact(r)
      && r.swapLocked == s.swapLocked && r.lastSwap == s.lastSwap
  {
    var r := LockGrid(s, rects, image);
    forall i, j | i in r.contents && j in r.contents && i != j
      ensures r.contents[i] != r.contents[j]
    {
      if r.contents[i] == r.contents[j] {
        PanelLabelInjective(i, j);
      }
    }
    assert SlotValues(r.contents, |r.rois|) == SlotValues(DefaultLabels(|r.rois|), |r.rois|);
  }

  /** A locked grid stays valid after reset, and a reset keeps every label, image and history. */
  lemma ResetKeepsSlots<Img>(s: Session<Img>)
    requires Valid(s)
    ensures Valid(ResetGrid(s)) && IdentitiesIntact(ResetGrid(s))
    ensures ResetGrid(s).contents == s.contents && ResetGrid(s).images == s.images
    ensures ResetGrid(s).history == s.history
  {
  }

  lemma ObserveKeepsValid<Img>(s: Session<Img>, up: seq<bool>)
    requires Valid(s) && |up| == |s.rois|
    ensures Valid(Observe(s, up))
    ensures Confirmed(Observe(s, up)) <= s.contents.Keys
  {
    var o := Observe(s, up);
    forall i | i in o.history ensures |o.history[i]| <= ConfirmFrames {
      if 0 <= i < |up| {
        AppendBounded(Buffer(s.history, i), up[i]);
      }
    }
    if s.rois != [] {
      assert o.history.Keys == s.history.Keys;
    }
  }

  /**
   * One iteration keeps the state valid (so no history ever exceeds its
   * capacity) and never loses or duplicates an identity label.
   */
  lemma TickKeepsInvariants<Img>(s: Session<Img>, up: seq<bool>, now: int)
    requires Valid(s) && |up| == |s.rois|
    ensures Valid(Tick(s, up, now))
    ensures IdentitiesIntact(s) ==> IdentitiesIntact(Tick(s, up, now))
  {
    ObserveKeepsValid(s, up);
    var o := Observe(s, up);
    var c := Confirmed(o);
    var r := Decide(o, c, now);
    if Fires(o, c, now) {
      PairExists(c);
      var a, b :| a in c && b in c && a != b && c == {a, b};
      DecideCommits(o, a, b, now);
      if s.rois != [] {
        ExchangePermutes(o.contents, a, b, |s.rois|);
      }
    }
  }

  /**
   * The frame after a committed swap always releases the swap lock: every
   * history was emptied, one observation cannot fill it, so no slot is
   * confirmed face-up.
   */
  lemma CommitReleasedNextFrame<Img>(s: Session<Img>, up: seq<bool>, now: int)
    requires Valid(s) && |up| == |s.rois|
    requires forall i | i in s.history :: s.history[i] == []
    ensures Confirmed(Observe(s, up)) == {}
    ensures Tick(s, up, now) == Observe(s, up).(swapLocked := false)
  {
    var o := Observe(s, up);
    forall i | 0 <= i < |s.rois| && i in o.history ensures !ConfirmedUp(o.history[i]) {
      assert |o.history[i]| == 1;
    }
    assert Confirmed(o) == {};
    DecideWithoutCommit(o, {}, now);
  }

  /** While no grid is locked, a frame only releases the swap lock. */
  lemma PreviewFrameReleasesLock<Img>(s: Session<Img>, now: int)
    requires Valid(s) && s.rois == []
    ensures Tick(s, [], now) == s.(swapLocked := false)
  {
    var o := Observe(s, []);
    assert o.history == s.history;
    assert Confirmed(o) == {};
  }

  lemma ObservedHistory<Img>(s: Session<Img>, up: seq<bool>, i: int)
    requires 0 <= i < |up|
    ensures Observe(s, up).history[i] == Append(Buffer(s.history, i), up[i])
  {
  }

  /** The first frame after a swap leaves each history holding only that frame's estimate. */
  lemma FirstFrameAfterCommit<Img>(s: Session<Img>, up: seq<bool>, now: int)
    requires Valid(s) && |up| == |s.rois|
    requires forall i | i in s.history :: s.history[i] == []
    ensures Valid(Tick(s, up, now)) && Tick(s, up, now).rois == s.rois
    ensures !Tick(s, up, now).swapLocked && Tick(s, up, now).lastSwap == s.lastSwap
    ensures Tick(s, up, now).contents == s.contents && Tick(s, up, now).images == s.images
    ensures forall i | 0 <= i < |up| :: Tick(s, up, now).history[i] == [up[i]]
  {
    CommitReleasedNextFrame(s, up, now);
    var s1 := Tick(s, up, now);
    forall i | 0 <= i < |up| ensures s1.history[i] == [up[i]] {
      ObservedHistory(s, up, i);
    }
  }

  /** Histories holding one estimate each: the next equal estimates confirm exactly the slots seen up. */
  lemma SecondFrameConfirms<Img>(s: Session<Img>, up: seq<bool>)
    requires |up| == |s.rois|
    requires forall i | 0 <= i < |up| :: i in s.history && s.history[i] == [up[i]]
    ensures forall i :: i in Confirmed(Observe(s, up)) <==> 0 <= i < |up| && up[i]
  {
    var o := Observe(s, up);
    forall i | 0 <= i < |up| ensures i in o.history && o.history[i] == [up[i], up[i]] {
      ObservedHistory(s, up, i);
    }
    RepeatedEstimatesConfirm(o, up);
  }

  /** Full histories repeating one estimate confirm exactly the slots whose estimate is up. */
  lemma RepeatedEstimatesConfirm<Img>(o: Session<Img>, up: seq<bool>)
    requires |up| == |o.rois|
    requires forall i | 0 <= i < |up| :: i in o.history && o.history[i] == [up[i], up[i]]
    ensures forall i :: i in Confirmed(o) <==> 0 <= i < |up| && up[i]
  {
    forall i | i in Confirmed(o) ensures up[i] {
      assert o.history[i][0] == up[i];
    }
  }

  lemma PairSize(a: int, b: int)
    requires a != b
    ensures |{a, b}| == 2
  {
  }

  lemma SetOfTwo(c: set<int>, up: seq<bool>, a: int, b: int)
    requires forall i :: i in c <==> 0 <= i < |up| && up[i]
    requires 0 <= a < |up| && 0 <= b < |up|
    requires forall i :: 0 <= i < |up| ==> (up[i] <==> i == a || i == b)
    ensures c == {a, b}
  {
    forall i ensures i in c <==> i in {a, b} {
      if i in c {
        assert 0 <= i < |up| && up[i];
      }
    }
  }

  /**
   * Two panels held face-up without interruption are swapped again as soon
   * as the cooldown has elapsed: the lock set by the first swap is released
   * by the very next frame, because that swap emptied the histories.
   */
  lemma HeldPanelsSwapBack<Img>(s: Session<Img>, a: int, b: int, up: seq<bool>, t1: int, t2: int)
    requires Valid(s) && |up| == |s.rois|
    requires 0 <= a < |up| && 0 <= b < |up| && a != b
    requires a in s.contents && b in s.contents
    requires forall i :: 0 <= i < |up| ==> (up[i] <==> i == a || i == b)
    requires forall i | i in s.history :: s.history[i] == []
    requires t2 - s.lastSwap > Cooldown
    ensures Tick(Tick(s, up, t1), up, t2).contents == Exchange(s.contents, a, b)
  {
    FirstFrameAfterCommit(s, up, t1);
    var s1 := Tick(s, up, t1);
    assert s1.history.Keys == Slots(|up|);
    forall i | 0 <= i < |up| ensures i in s1.history && s1.history[i] == [up[i]] {
      assert i in Slots(|up|);
    }
    SecondFrameConfirms(s1, up);
    var o2 := Observe(s1, up);
    SetOfTwo(Confirmed(o2), up, a, b);
    ObserveKeepsValid(s1, up);
    assert o2.contents == s.contents && o2.images == s.images;
    assert {a, b} <= s.contents.Keys;
    PairSize(a, b);
    assert !o2.swapLocked && o2.lastSwap == s.lastSwap;
    DecideCommits(o2, a, b, t2);
    assert Tick(s1, up, t2) == Decide(o2, {a, b}, t2);
  }
}
