/**
 * The temporal debouncer: per panel, a bounded first-in-first-out history of
 * the most recent raw face-up estimates. A panel is confirmed up only when
 * its history is full and every entry in it is true.
 */
module Debounce {

  /** Capacity of a history buffer: the number of frames that confirm a face-up panel. */
  const ConfirmFrames: nat := 2

  /** The last n elements of s (all of s when it is shorter). */
  function Latest<T>(s: seq<T>, n: nat): (r: seq<T>)
    ensures |r| == if |s| <= n then |s| else n
    ensures forall i :: 0 <= i < |r| ==> r[i] == s[|s| - |r| + i]
  {
    if |s| <= n then s else s[|s| - n..]
  }

  /** Appending to a bounded buffer: when it is full the oldest entry falls out. */
  function Append(buf: seq<bool>, up: bool): seq<bool> {
    Latest(buf + [up], ConfirmFrames)
  }

  predicate ConfirmedUp(buf: seq<bool>) {
    && (forall i :: 0 <= i < |buf| ==> buf[i])
    && |buf| == ConfirmFrames
  }

  /** The buffer after appending each of obs in turn. */
  function AppendAll(buf: seq<bool>, obs: seq<bool>): seq<bool> {
    if obs == [] then buf else Append(AppendAll(buf, obs[..|obs| - 1]), obs[|obs| - 1])
  }

  lemma AppendWithRoom(buf: seq<bool>, up: bool)
    requires |buf| < ConfirmFrames
    ensures Append(buf, up) == buf + [up]
  {
  }

  lemma AppendWhenFull(buf: seq<bool>, up: bool)
    requires |buf| == ConfirmFrames
    ensures Append(buf, up) == buf[1..] + [up]
  {
    assert (buf + [up])[1..] == buf[1..] + [up];
  }

  lemma AppendBounded(buf: seq<bool>, up: bool)
    ensures |Append(buf, up)| <= ConfirmFrames
    ensures Append(buf, up)[|Append(buf, up)| - 1] == up
  {
  }

  lemma LatestOfAppend<T>(s: seq<T>, x: T, n: nat)
    ensures Latest(Latest(s, n) + [x], n) == Latest(s + [x], n)
  {
    var a, b := Latest(Latest(s, n) + [x], n), Latest(s + [x], n);
    assert |a| == |b|;
    forall i | 0 <= i < |a| ensures a[i] == b[i] {
      if i < |a| - 1 {
        assert a[i] == (Latest(s, n) + [x])[|Latest(s, n)| + 1 - |a| + i];
      }
    }
  }

  /** A buffer holds the latest observations since it was last emptied, however many arrived. */
  lemma {:induction false} AppendAllKeepsLatest(buf: seq<bool>, obs: seq<bool>)
    requires |buf| <= ConfirmFrames
    ensures AppendAll(buf, obs) == Latest(buf + obs, ConfirmFrames)
  {
    if obs != [] {
      var init, last := obs[..|obs| - 1], obs[|obs| - 1];
      AppendAllKeepsLatest(buf, init);
      LatestOfAppend(buf + init, last, ConfirmFrames);
      assert buf + obs == (buf + init) + [last];
    }
  }

  /**
   * After a clear, a panel is confirmed up exactly when at least
   * ConfirmFrames observations have arrived and the latest ConfirmFrames of
   * them are all true.
   */
  lemma ConfirmedIffLatestAllUp(obs: seq<bool>)
    ensures ConfirmedUp(AppendAll([], obs)) <==>
      |obs| >= ConfirmFrames && forall i :: |obs| - ConfirmFrames <= i < |obs| ==> obs[i]
  {
    AppendAllKeepsLatest([], obs);
    assert [] + obs == obs;
    var r := AppendAll([], obs);
    if |obs| >= ConfirmFrames && forall i :: |obs| - ConfirmFrames <= i < |obs| ==> obs[i] {
      forall i | 0 <= i < |r| ensures r[i] {
        assert r[i] == obs[|obs| - ConfirmFrames + i];
      }
    }
    if ConfirmedUp(r) {
      forall i | |obs| - ConfirmFrames <= i < |obs| ensures obs[i] {
        assert obs[i] == r[i - (|obs| - ConfirmFrames)];
      }
    }
  }

  /** An empty (just cleared) buffer is never confirmed up. */
  lemma ClearedNotConfirmed()
    ensures !ConfirmedUp([])
  {
  }

  /** One false observation blocks confirmation until ConfirmFrames newer observations arrive. */
  lemma FalseBlocksConfirmation(buf: seq<bool>, obs: seq<bool>, i: nat)
    requires |buf| <= ConfirmFrames
    requires i < |obs| && !obs[i] && |obs| - i <= ConfirmFrames
    ensures !ConfirmedUp(AppendAll(buf, obs))
  {
    AppendAllKeepsLatest(buf, obs);
    var s := buf + obs;
    var r := AppendAll(buf, obs);
    var k := |r| - (|obs| - i);
    assert 0 <= k < |r|;
    assert r[k] == s[|buf| + i] == obs[i];
  }
}
