/** The window scan of `sliding_window_identity_fast` and of the loop
    inlined in `check_one_target`: every width-`win` window of the query is
    aligned (HW mode) against the whole target, and the best identity and
    the offset that first reached it are kept, stopping early at 1.0. */
module WindowScan {
  import opened Strings
  import opened EditDistance

  /** Best identity so far and its offset; -1 while no window improved on 0.0. */
  datatype WindowHit = WindowHit(identity: real, start: int)

  const NoWindow := WindowHit(0.0, -1)

  /** Identity of the window at offset `i` against the whole target. */
  function WindowIdentity(q: string, t: string, win: nat, i: nat): real
    requires win > 0 && i + win <= |q|
  {
    Identity(HWDist(q[i..i + win], t), win)
  }

  lemma WindowIdentityRange(q: string, t: string, win: nat, i: nat)
    requires win > 0 && i + win <= |q|
    ensures 0.0 <= WindowIdentity(q, t, win, i) <= 1.0
    ensures WindowIdentity(q, t, win, i) == 1.0 <==> IsSubstring(q[i..i + win], t)
  {
    HWDistFacts(q[i..i + win], t);
    IdentityRange(HWDist(q[i..i + win], t), win);
  }

  lemma AllWindowsAtMostOne(q: string, t: string, win: nat)
    requires win > 0
    ensures forall j | 0 <= j && j + win <= |q| :: 0.0 <= WindowIdentity(q, t, win, j) <= 1.0
  {
    forall j | 0 <= j && j + win <= |q|
      ensures 0.0 <= WindowIdentity(q, t, win, j) <= 1.0
    {
      WindowIdentityRange(q, t, win, j);
    }
  }

  /** The best-window loop of `check_one_target` from offset `i` on: skip on edlib's
      -1, replace the best on a strictly greater identity, stop at 1.0. */
  function ScanFrom(q: string, t: string, win: nat, i: nat, best: WindowHit): WindowHit
    requires win > 0
    decreases |q| - i
  {
    if i + win > |q| then best
    else
      var d := EdlibAlign(q[i..i + win], t).editDistance;
      var next :=
        if d == -1 then best
        else if Identity(d, win) > best.identity then WindowHit(Identity(d, win), i)
        else best;
      if d != -1 && next.identity == 1.0 then next else ScanFrom(q, t, win, i + 1, next)
  }

  /** The best-window loop of `check_one_target`: best identity and its offset. */
  function Scan(q: string, t: string, win: nat): WindowHit
    requires win > 0
  {
    ScanFrom(q, t, win, 0, NoWindow)
  }

  /** `sliding_window_identity_fast`: the same loop, returning the identity only. */
  function SlidingWindowIdentityFast(q: string, t: string, win: nat): real
    requires win > 0
  {
    Scan(q, t, win).identity
  }

  /** Reference scan: every offset is visited, no sentinel, no early exit. */
  function FullScanFrom(q: string, t: string, win: nat, i: nat, best: WindowHit): WindowHit
    requires win > 0
    decreases |q| - i
  {
    if i + win > |q| then best
    else
      var identity := WindowIdentity(q, t, win, i);
      FullScanFrom(q, t, win, i + 1, if identity > best.identity then WindowHit(identity, i) else best)
  }

  /** `h` is the strict-`>` running maximum over the offsets below `i`:
      an upper bound on them, attained first at `h.start`, and -1 with
      identity 0.0 while no window scored above 0.0. */
  ghost predicate RunningBest(q: string, t: string, win: nat, i: nat, h: WindowHit)
    requires win > 0
  {
    && 0.0 <= h.identity <= 1.0
    && (forall j | 0 <= j < i && j + win <= |q| :: WindowIdentity(q, t, win, j) <= h.identity)
    && (if h.start == -1 then h.identity == 0.0
        else
          && 0 <= h.start < i && h.start + win <= |q|
          && 0.0 < h.identity == WindowIdentity(q, t, win, h.start)
          && forall j | 0 <= j < h.start :: WindowIdentity(q, t, win, j) < h.identity)
  }

  lemma {:induction false} ScanFromIsRunningBest(q: string, t: string, win: nat, i: nat, h: WindowHit)
    requires win > 0
    requires RunningBest(q, t, win, i, h) && h.identity < 1.0
    ensures RunningBest(q, t, win, |q|, ScanFrom(q, t, win, i, h))
    decreases |q| - i
  {
    if i + win <= |q| {
      AllWindowsAtMostOne(q, t, win);
      var identity := WindowIdentity(q, t, win, i);
      var next := if identity > h.identity then WindowHit(identity, i) else h;
      assert RunningBest(q, t, win, i + 1, next);
      if next.identity < 1.0 {
        ScanFromIsRunningBest(q, t, win, i + 1, next);
      }
    }
  }

  /** What the scan returns. With no offset (`win > |q|`) it is (0.0, -1);
      otherwise its identity is the maximum window identity, in [0, 1], and
      its offset is the first offset reaching it, or -1 when every window
      scores 0.0. */
  lemma ScanSpec(q: string, t: string, win: nat)
    requires win > 0
    ensures win > |q| ==> Scan(q, t, win) == NoWindow
    ensures var h := Scan(q, t, win);
      && 0.0 <= h.identity <= 1.0
      && (forall j | 0 <= j <= |q| - win :: WindowIdentity(q, t, win, j) <= h.identity)
      && (h.start == -1 <==> h.identity == 0.0)
      && (h.start != -1 ==>
            && 0 <= h.start <= |q| - win
            && WindowIdentity(q, t, win, h.start) == h.identity
            && forall j | 0 <= j < h.start :: WindowIdentity(q, t, win, j) < h.identity)
  {
    ScanFromIsRunningBest(q, t, win, 0, NoWindow);
  }

  /** The reported identity lies in [0, 1]. */
  lemma ScanIdentityRange(q: string, t: string, win: nat)
    requires win > 0
    ensures 0.0 <= Scan(q, t, win).identity <= 1.0
  {
    ScanSpec(q, t, win);
  }

  /** At identity 1.0 the reported window occurs verbatim in the target. */
  lemma PerfectScanWindow(q: string, t: string, win: nat)
    requires win > 0 && Scan(q, t, win).identity == 1.0
    ensures var h := Scan(q, t, win);
      0 <= h.start && h.start + win <= |q| && IsSubstring(q[h.start..h.start + win], t)
  {
    ScanSpec(q, t, win);
    WindowIdentityRange(q, t, win, Scan(q, t, win).start);
  }

  /** The window at offset `j` occurs verbatim in the target. */
  predicate WindowOccurs(q: string, t: string, win: nat, j: nat) {
    j + win <= |q| && IsSubstring(q[j..j + win], t)
  }

  /** Identity 1.0 is reached exactly when some window occurs verbatim in the target. */
  lemma ScanPerfectIff(q: string, t: string, win: nat)
    requires win > 0
    ensures Scan(q, t, win).identity == 1.0 <==> exists j | 0 <= j :: WindowOccurs(q, t, win, j)
  {
    ScanSpec(q, t, win);
    var h := Scan(q, t, win);
    if h.identity == 1.0 {
      WindowIdentityRange(q, t, win, h.start);
      assert WindowOccurs(q, t, win, h.start);
    }
    if exists j | 0 <= j :: WindowOccurs(q, t, win, j) {
      var j :| 0 <= j && WindowOccurs(q, t, win, j);
      WindowIdentityRange(q, t, win, j);
    }
  }

  lemma {:induction false} FullScanStaysAtOne(q: string, t: string, win: nat, i: nat, h: WindowHit)
    requires win > 0 && h.identity == 1.0
    ensures FullScanFrom(q, t, win, i, h) == h
    decreases |q| - i
  {
    if i + win <= |q| {
      WindowIdentityRange(q, t, win, i);
      FullScanStaysAtOne(q, t, win, i + 1, h);
    }
  }

  lemma {:induction false} ScanFromIsFull(q: string, t: string, win: nat, i: nat, h: WindowHit)
    requires win > 0 && h.identity < 1.0
    ensures ScanFrom(q, t, win, i, h) == FullScanFrom(q, t, win, i, h)
    decreases |q| - i
  {
    if i + win <= |q| {
      var identity := WindowIdentity(q, t, win, i);
      var next := if identity > h.identity then WindowHit(identity, i) else h;
      if next.identity == 1.0 {
        FullScanStaysAtOne(q, t, win, i + 1, next);
      } else {
        WindowIdentityRange(q, t, win, i);
        ScanFromIsFull(q, t, win, i + 1, next);
      }
    }
  }

  /** The early exit at 1.0 and the skip on edlib's -1 do not change the
      outcome: the scan equals a full scan over every offset. */
  lemma EarlyExitAgrees(q: string, t: string, win: nat)
    requires win > 0
    ensures Scan(q, t, win) == FullScanFrom(q, t, win, 0, NoWindow)
    ensures SlidingWindowIdentityFast(q, t, win) == FullScanFrom(q, t, win, 0, NoWindow).identity
  {
    ScanFromIsFull(q, t, win, 0, NoWindow);
  }
}
