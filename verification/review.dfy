/**
 * `test_kit/src/review.rs`: the snapshot reviewer. It walks the test
 * cases and, inside each, the numbered snapshots (each with an
 * unconfirmed ".new.png" file, a confirmed one, or both), chooses what to
 * show, approves new snapshots, and draws a difference image of two
 * pixmaps.
 */
module Review {
  import opened Wrappers

  /** `Mode`: what the reviewer shows for the current snapshot. */
  datatype Mode = New | Confirmed | DiffWithConfirmed | DiffWithPreviousConfirmed

  /** `SingleSnapshotFile`: a file name and the description parsed from it. */
  datatype SnapshotFile = SnapshotFile(fullName: string, description: string)

  /** `SingleSnapshotFiles`: the unconfirmed and confirmed file of one snapshot. */
  datatype SnapshotFiles = SnapshotFiles(unconfirmed: Option<SnapshotFile>, confirmed: Option<SnapshotFile>)

  /**
   * `Reviewer`: test case names, for each test case its snapshots by
   * number, and the current position and mode. The snapshot numbers are
   * `u32`; the model leaves them unbounded.
   */
  datatype Reviewer = Reviewer(
    mode: Mode,
    testCases: seq<string>,
    testIndex: Option<nat>,
    allSnapshots: seq<map<nat, SnapshotFiles>>,
    snapshotIndex: Option<nat>)

  /** One snapshot map per test case, and the current test case is one of them. */
  predicate Valid(r: Reviewer) {
    |r.allSnapshots| == |r.testCases| &&
    (r.testIndex.Some? ==> r.testIndex.value < |r.testCases|)
  }

  /** Navigation moves the position only: test cases and snapshots stay as they are. */
  predicate SameData(r: Reviewer, s: Reviewer) {
    s.testCases == r.testCases && s.allSnapshots == r.allSnapshots
  }

  /** The snapshots of the current test case, if there is one. */
  function CurrentSnapshots(r: Reviewer): (m: Option<map<nat, SnapshotFiles>>)
    ensures m.Some? <==> r.testIndex.Some? && r.testIndex.value < |r.allSnapshots|
    ensures m.Some? ==> m.value == r.allSnapshots[r.testIndex.value]
  {
    if r.testIndex.Some? && r.testIndex.value < |r.allSnapshots| then Some(r.allSnapshots[r.testIndex.value])
    else None
  }

  /** `current_snapshot`. */
  function CurrentSnapshot(r: Reviewer): (f: Option<SnapshotFiles>)
    ensures f.Some? <==> CurrentSnapshots(r).Some? && r.snapshotIndex.Some? &&
                         r.snapshotIndex.value in CurrentSnapshots(r).value
    ensures f.Some? ==> f.value == CurrentSnapshots(r).value[r.snapshotIndex.value]
  {
    match CurrentSnapshots(r)
    case None => None
    case Some(m) =>
      if r.snapshotIndex.Some? && r.snapshotIndex.value in m then Some(m[r.snapshotIndex.value]) else None
  }

  /** `previous_snapshot`: the snapshot numbered one less than the current one. */
  function PreviousSnapshot(r: Reviewer): (f: Option<SnapshotFiles>)
    ensures f.Some? <==> CurrentSnapshots(r).Some? && r.snapshotIndex.Some? && r.snapshotIndex.value >= 1 &&
                         r.snapshotIndex.value - 1 in CurrentSnapshots(r).value
    ensures f.Some? ==> f.value == CurrentSnapshots(r).value[r.snapshotIndex.value - 1]
  {
    match CurrentSnapshots(r)
    case None => None
    case Some(m) =>
      if r.snapshotIndex.Some? && r.snapshotIndex.value >= 1 && r.snapshotIndex.value - 1 in m then
        Some(m[r.snapshotIndex.value - 1])
      else None
  }

  /** `has_unconfirmed`. */
  predicate HasUnconfirmed(r: Reviewer) {
    CurrentSnapshot(r).Some? && CurrentSnapshot(r).value.unconfirmed.Some?
  }

  /**
   * `go_to_snapshot`: fails without a current test case; a missing number
   * fails too but switches to `Confirmed`; otherwise the number becomes
   * current, shown as `New` exactly when it has an unconfirmed file.
   */
  function GoToSnapshot(r: Reviewer, index: nat): (p: (Reviewer, bool))
    ensures SameData(r, p.0) && p.0.testIndex == r.testIndex
    ensures CurrentSnapshots(r).None? ==> p == (r, false)
    ensures CurrentSnapshots(r).Some? && index !in CurrentSnapshots(r).value ==>
      p == (r.(mode := Confirmed), false)
    ensures p.1 <==> CurrentSnapshots(r).Some? && index in CurrentSnapshots(r).value
    ensures p.1 ==> (p.0.snapshotIndex == Some(index) &&
                     CurrentSnapshot(p.0).Some? &&
                     (p.0.mode == New <==> HasUnconfirmed(p.0)) &&
                     (p.0.mode == Confirmed <==> !HasUnconfirmed(p.0)))
  {
    match CurrentSnapshots(r)
    case None => (r, false)
    case Some(m) =>
      if index !in m then (r.(mode := Confirmed), false)
      else (r.(snapshotIndex := Some(index), mode := if m[index].unconfirmed.Some? then New else Confirmed), true)
  }

  /** `go_to_next_snapshot`: number 1 from no snapshot, else the next number. */
  function GoToNextSnapshot(r: Reviewer): (p: (Reviewer, bool))
    ensures p == GoToSnapshot(r, if r.snapshotIndex.None? then 1 else r.snapshotIndex.value + 1)
  {
    GoToSnapshot(r, if r.snapshotIndex.None? then 1 else r.snapshotIndex.value + 1)
  }

  /**
   * `go_to_previous_snapshot`: refused at number 1; from no snapshot it
   * tries number 0. At number 0 the `u32` subtraction wraps to `u32::MAX`
   * in a release build, a number no snapshot has, so that step fails like
   * any missing number.
   */
  function GoToPreviousSnapshot(r: Reviewer): (p: (Reviewer, bool))
    ensures r.snapshotIndex == Some(1) ==> p == (r, false)
    ensures r.snapshotIndex == Some(0) ==> !p.1 && p.0 == (if CurrentSnapshots(r).Some? then r.(mode := Confirmed) else r)
    ensures r.snapshotIndex.None? ==> p == GoToSnapshot(r, 0)
    ensures r.snapshotIndex.Some? && r.snapshotIndex.value > 1 ==> p == GoToSnapshot(r, r.snapshotIndex.value - 1)
  {
    if r.snapshotIndex == Some(1) then (r, false)
    else if r.snapshotIndex == Some(0) then (if CurrentSnapshots(r).Some? then r.(mode := Confirmed) else r, false)
    else GoToSnapshot(r, if r.snapshotIndex.None? then 0 else r.snapshotIndex.value - 1)
  }

  /**
   * `go_to_test_case`: the snapshot position is always cleared; an index
   * past the end fails and keeps the test case; otherwise the test case
   * becomes current and its first snapshot is tried.
   */
  function GoToTestCase(r: Reviewer, index: nat): (p: (Reviewer, bool))
    ensures SameData(r, p.0)
    ensures p.1 <==> index < |r.testCases|
    ensures !p.1 ==> p.0 == r.(snapshotIndex := None)
    ensures p.1 ==> p.0 == GoToNextSnapshot(r.(snapshotIndex := None, testIndex := Some(index))).0
    ensures p.1 ==> p.0.testIndex == Some(index)
    ensures Valid(r) ==> Valid(p.0)
  {
    var cleared := r.(snapshotIndex := None);
    if index >= |r.testCases| then (cleared, false)
    else (GoToNextSnapshot(cleared.(testIndex := Some(index))).0, true)
  }

  /** `go_to_next_test_case`: test case 0 from none, else the next one. */
  function GoToNextTestCase(r: Reviewer): (p: (Reviewer, bool))
    ensures p == GoToTestCase(r, if r.testIndex.None? then 0 else r.testIndex.value + 1)
  {
    GoToTestCase(r, if r.testIndex.None? then 0 else r.testIndex.value + 1)
  }

  /** `go_to_previous_test_case`: refused at test case 0; test case 0 from none. */
  function GoToPreviousTestCase(r: Reviewer): (p: (Reviewer, bool))
    ensures r.testIndex == Some(0) ==> p == (r, false)
    ensures r.testIndex.None? ==> p == GoToTestCase(r, 0)
    ensures r.testIndex.Some? && r.testIndex.value > 0 ==> p == GoToTestCase(r, r.testIndex.value - 1)
  {
    if r.testIndex == Some(0) then (r, false)
    else GoToTestCase(r, if r.testIndex.None? then 0 else r.testIndex.value - 1)
  }

  /**
   * `Reviewer::new`: mode `New`, no position yet, then the first test
   * case, which lands on its snapshot number 1 when it has one (shown as
   * `New` exactly when that snapshot has an unconfirmed file) and
   * otherwise on no snapshot in mode `Confirmed`.
   */
  function NewReviewer(testCases: seq<string>, allSnapshots: seq<map<nat, SnapshotFiles>>): (r: Reviewer)
    requires |allSnapshots| == |testCases|
    ensures Valid(r) && r.testCases == testCases && r.allSnapshots == allSnapshots
    ensures |testCases| > 0 ==> r.testIndex == Some(0)
    ensures |testCases| > 0 && 1 in allSnapshots[0] ==>
              r.snapshotIndex == Some(1) && (r.mode == New <==> allSnapshots[0][1].unconfirmed.Some?) &&
              (r.mode == Confirmed <==> allSnapshots[0][1].unconfirmed.None?)
    ensures |testCases| > 0 && 1 !in allSnapshots[0] ==> r.snapshotIndex.None? && r.mode == Confirmed
    ensures |testCases| == 0 ==> r == Reviewer(New, testCases, None, allSnapshots, None)
  {
    GoToNextTestCase(Reviewer(New, testCases, None, allSnapshots, None)).0
  }

  /** How many positions are left before the test cases run out. */
  function TestsLeft(r: Reviewer): nat
    requires Valid(r)
  {
    |r.testCases| - (if r.testIndex.None? then 0 else r.testIndex.value + 1)
  }

  /** The snapshot numbers of the current test case still ahead of the current one. */
  function SnapshotsAhead(r: Reviewer): set<nat> {
    match CurrentSnapshots(r)
    case None => {}
    case Some(m) => set k | k in m && (r.snapshotIndex.None? || k > r.snapshotIndex.value)
  }

  /**
   * `go_to_next_unconfirmed_file`: step to the next snapshot, or to the
   * next test case when there is none, until the current snapshot has an
   * unconfirmed file. It reports `true` only there, and `false` once the
   * test cases are exhausted.
   */
  method GoToNextUnconfirmedFile(r: Reviewer) returns (s: Reviewer, found: bool)
    requires Valid(r)
    ensures Valid(s) && SameData(r, s)
    ensures found ==> HasUnconfirmed(s)
    ensures !found ==> s.snapshotIndex.None? && TestsLeft(s) == 0
  {
    s := r;
    while true
      invariant Valid(s) && SameData(r, s)
      decreases TestsLeft(s), |SnapshotsAhead(s)|
    {
      var next := GoToNextSnapshot(s);
      if next.1 {
        assert SnapshotsAhead(next.0) < SnapshotsAhead(s) by {
          assert next.0.snapshotIndex.value in SnapshotsAhead(s);
          assert next.0.snapshotIndex.value !in SnapshotsAhead(next.0);
        }
        ProperSubsetIsSmaller(SnapshotsAhead(next.0), SnapshotsAhead(s));
        assert TestsLeft(next.0) == TestsLeft(s);
        s := next.0;
      } else {
        var nextTest := GoToNextTestCase(next.0);
        if !nextTest.1 {
          return nextTest.0, false;
        }
        assert TestsLeft(nextTest.0) < TestsLeft(s);
        s := nextTest.0;
      }
      if HasUnconfirmed(s) {
        return s, true;
      }
    }
  }

  lemma ProperSubsetIsSmaller(a: set<nat>, b: set<nat>)
    requires a < b
    ensures |a| < |b|
  {
    var k :| k in b - a;
    assert b == a + (b - a);
    assert |b - a| >= |{k}|;
  }

  /** `is_mode_allowed`: which files each mode needs. */
  function IsModeAllowed(r: Reviewer, mode: Mode): (allowed: bool)
    ensures var current := CurrentSnapshot(r);
      var hasNew := current.Some? && current.value.unconfirmed.Some?;
      var hasConfirmed := current.Some? && current.value.confirmed.Some?;
      var hasPreviousConfirmed := PreviousSnapshot(r).Some? && PreviousSnapshot(r).value.confirmed.Some?;
      allowed == match mode
        case New => hasNew
        case Confirmed => hasConfirmed
        case DiffWithConfirmed => hasNew && hasConfirmed
        case DiffWithPreviousConfirmed => hasNew && hasPreviousConfirmed
    ensures allowed ==> CurrentSnapshot(r).Some?
  {
    var current := CurrentSnapshot(r);
    var hasNew := current.Some? && current.value.unconfirmed.Some?;
    var hasConfirmed := current.Some? && current.value.confirmed.Some?;
    var previous := PreviousSnapshot(r);
    var hasPreviousConfirmed := previous.Some? && previous.value.confirmed.Some?;
    match mode
    case New => hasNew
    case Confirmed => hasConfirmed
    case DiffWithConfirmed => hasNew && hasConfirmed
    case DiffWithPreviousConfirmed => hasNew && hasPreviousConfirmed
  }

  /** `set_mode`: only an allowed mode is taken. */
  function SetMode(r: Reviewer, mode: Mode): (s: Reviewer)
    ensures s.mode == mode <==> IsModeAllowed(r, mode) || r.mode == mode
    ensures s == r.(mode := s.mode)
  {
    if IsModeAllowed(r, mode) then r.(mode := mode) else r
  }

  /**
   * Landing on a snapshot picks a mode it allows, as long as every
   * snapshot has at least one file.
   */
  lemma GoToSnapshotPicksAllowedMode(r: Reviewer, index: nat)
    requires forall t, k :: 0 <= t < |r.allSnapshots| && k in r.allSnapshots[t] ==>
      r.allSnapshots[t][k].unconfirmed.Some? || r.allSnapshots[t][k].confirmed.Some?
    requires GoToSnapshot(r, index).1
    ensures IsModeAllowed(GoToSnapshot(r, index).0, GoToSnapshot(r, index).0.mode)
  {
    var s := GoToSnapshot(r, index).0;
    assert CurrentSnapshots(s) == CurrentSnapshots(r);
  }

  /**
   * Stepping past the last snapshot keeps the position but switches to
   * `Confirmed`, a mode the current snapshot need not allow.
   */
  lemma StepPastLastMayDisallowMode()
    ensures var files := SnapshotFiles(Some(SnapshotFile("a.new.png", "a")), None);
      var r := Reviewer(New, ["t"], Some(0), [map[1 := files]], Some(1));
      var s := GoToNextSnapshot(r).0;
      IsModeAllowed(r, r.mode) && s.snapshotIndex == Some(1) && !IsModeAllowed(s, s.mode)
  {
    var files := SnapshotFiles(Some(SnapshotFile("a.new.png", "a")), None);
    var r := Reviewer(New, ["t"], Some(0), [map[1 := files]], Some(1));
    assert CurrentSnapshot(r) == Some(files);
  }

  // ---------------------------------------------------------------------
  // Counting and approving unconfirmed snapshots
  // ---------------------------------------------------------------------

  /** The numbers of a test case's snapshots that have an unconfirmed file. */
  function UnconfirmedIn(m: map<nat, SnapshotFiles>): set<nat> {
    set k | k in m && m[k].unconfirmed.Some?
  }

  /** `unconfirmed_count`: unconfirmed files over all test cases. */
  function UnconfirmedCount(all: seq<map<nat, SnapshotFiles>>): (n: nat)
    ensures |all| == 0 ==> n == 0
    ensures |all| > 0 ==> n == UnconfirmedCount(all[..|all| - 1]) + |UnconfirmedIn(all[|all| - 1])|
  {
    if |all| == 0 then 0 else UnconfirmedCount(all[..|all| - 1]) + |UnconfirmedIn(all[|all| - 1])|
  }

  /** Replacing one test case's snapshots changes the count by the difference for that test case. */
  lemma {:induction false} UnconfirmedCountUpdate(all: seq<map<nat, SnapshotFiles>>, t: nat, m: map<nat, SnapshotFiles>)
    requires t < |all|
    ensures UnconfirmedCount(all[t := m]) + |UnconfirmedIn(all[t])| == UnconfirmedCount(all) + |UnconfirmedIn(m)|
    decreases |all|
  {
    var last := |all| - 1;
    if t == last {
      assert all[t := m][..last] == all[..last];
    } else {
      assert all[t := m][..last] == all[..last][t := m];
      UnconfirmedCountUpdate(all[..last], t, m);
    }
  }

  /** `strip_suffix`. */
  function StripSuffix(s: string, suffix: string): (r: Option<string>)
    ensures r.Some? <==> |suffix| <= |s| && s[|s| - |suffix|..] == suffix
    ensures r.Some? ==> r.value + suffix == s
  {
    if |suffix| <= |s| && s[|s| - |suffix|..] == suffix then
      assert s[..|s| - |suffix|] + s[|s| - |suffix|..] == s;
      Some(s[..|s| - |suffix|])
    else None
  }

  /** Why `approve` failed. */
  datatype ApproveError = NoTestCase | NoCurrentFiles | NoUnconfirmedFile | RemoveFailed | BadFileName | RenameFailed

  /**
   * `approve`: the current snapshot's unconfirmed file "x.new.png" is
   * renamed to "x.png" and becomes its confirmed file, replacing (and
   * deleting) any previous one; then the reviewer moves to the next
   * unconfirmed file. `removeOk` and `renameOk` are the outcomes of the
   * two file-system calls. A failure after the old confirmed file was
   * taken leaves the snapshot without one, as in the source.
   */
  method Approve(r: Reviewer, removeOk: bool, renameOk: bool) returns (s: Reviewer, result: Result<(), ApproveError>)
    requires Valid(r)
    ensures Valid(s) && s.testCases == r.testCases
    ensures result.Err? && result.error in {NoTestCase, NoCurrentFiles, NoUnconfirmedFile} ==> s == r
    ensures result.Ok? <==> (HasUnconfirmed(r) && (CurrentSnapshot(r).value.confirmed.Some? ==> removeOk) &&
                             StripSuffix(CurrentSnapshot(r).value.unconfirmed.value.fullName, ".new.png").Some? &&
                             renameOk)
    ensures result.Err? && result.error in {RemoveFailed, BadFileName, RenameFailed} ==>
      HasUnconfirmed(r) &&
      var t: nat := r.testIndex.value;
      var taken: map<nat, SnapshotFiles> := r.allSnapshots[t][r.snapshotIndex.value := CurrentSnapshot(r).value.(confirmed := None)];
      s == r.(allSnapshots := r.allSnapshots[t := taken])
    ensures result.Ok? ==>
      var t: nat := r.testIndex.value;
      var k: nat := r.snapshotIndex.value;
      var u := CurrentSnapshot(r).value.unconfirmed.value;
      var updated: map<nat, SnapshotFiles> := r.allSnapshots[t][k := SnapshotFiles(None,
        Some(SnapshotFile(StripSuffix(u.fullName, ".new.png").value + ".png", u.description)))];
      s.allSnapshots == r.allSnapshots[t := updated] &&
      UnconfirmedCount(s.allSnapshots) + 1 == UnconfirmedCount(r.allSnapshots)
  {
    if r.testIndex.None? {
      return r, Err(NoTestCase);
    }
    var current := CurrentSnapshot(r);
    if current.None? {
      return r, Err(NoCurrentFiles);
    }
    var files := current.value;
    if files.unconfirmed.None? {
      return r, Err(NoUnconfirmedFile);
    }
    var t: nat := r.testIndex.value;
    var k: nat := r.snapshotIndex.value;
    var u := files.unconfirmed.value;
    var m := r.allSnapshots[t];
    if files.confirmed.Some? {
      var taken := r.(allSnapshots := r.allSnapshots[t := m[k := files.(confirmed := None)]]);
      if !removeOk {
        return taken, Err(RemoveFailed);
      }
    }
    var taken := r.(allSnapshots := r.allSnapshots[t := m[k := files.(confirmed := None)]]);
    var unsuffixed := StripSuffix(u.fullName, ".new.png");
    if unsuffixed.None? {
      return taken, Err(BadFileName);
    }
    if !renameOk {
      return taken, Err(RenameFailed);
    }
    var approved := SnapshotFiles(None, Some(SnapshotFile(unsuffixed.value + ".png", u.description)));
    var updated: map<nat, SnapshotFiles> := m[k := approved];
    assert UnconfirmedIn(updated) == UnconfirmedIn(m) - {k};
    UnconfirmedCountUpdate(r.allSnapshots, t, updated);
    var moved := r.(allSnapshots := r.allSnapshots[t := updated]);
    var ignored;
    s, ignored := GoToNextUnconfirmedFile(moved);
    return s, Ok(());
  }

  // ---------------------------------------------------------------------
  // Difference image
  // ---------------------------------------------------------------------

  /** A premultiplied RGBA pixel, one byte per channel. */
  datatype Pixel = Pixel(red: int, green: int, blue: int, alpha: int)

  /** A pixmap as its rows of pixels, top to bottom. */
  datatype Pixmap = Pixmap(width: nat, height: nat, rows: seq<seq<Pixel>>)

  /** A pixmap is never empty, and every row is as wide as the pixmap. */
  predicate ValidPixmap(p: Pixmap) {
    p.width > 0 && p.height > 0 && |p.rows| == p.height &&
    forall y :: 0 <= y < |p.rows| ==> |p.rows[y]| == p.width
  }

  /** `Pixmap::pixel`: nothing outside the pixmap. */
  function PixelAt(p: Pixmap, x: nat, y: nat): (r: Option<Pixel>)
    requires ValidPixmap(p)
    ensures r.Some? <==> x < p.width && y < p.height
  {
    if x < p.width && y < p.height then Some(p.rows[y][x]) else None
  }

  const OpaqueRed := Pixel(255, 0, 0, 255)

  function SaturatingSub(v: int, d: int): int { if v - d < 0 then 0 else v - d }

  function SaturatingAdd(v: int, d: int): int { if v + d > 255 then 255 else v + d }

  /**
   * One pixel of `pixmap_diff`: equal pixels are kept (red where both are
   * missing); a differing pixel of `a` is tinted green (red and blue down
   * 50, green up 50, saturating) and made opaque; a pixel only `b` has is red.
   */
  function DiffPixel(pa: Option<Pixel>, pb: Option<Pixel>): (r: Pixel)
    ensures pa == pb && pa.Some? ==> r == pa.value
    ensures pa.None? ==> r == OpaqueRed
    ensures pa != pb && pa.Some? ==>
      r == Pixel(SaturatingSub(pa.value.red, 50), SaturatingAdd(pa.value.green, 50),
                 SaturatingSub(pa.value.blue, 50), 255)
  {
    if pa == pb then (if pa.Some? then pa.value else OpaqueRed)
    else if pa.Some? then
      Pixel(SaturatingSub(pa.value.red, 50), SaturatingAdd(pa.value.green, 50), SaturatingSub(pa.value.blue, 50), 255)
    else OpaqueRed
  }

  /** `pixmap_diff`: as wide and as tall as the larger input, pixel by pixel. */
  function PixmapDiff(a: Pixmap, b: Pixmap): (out: Pixmap)
    requires ValidPixmap(a) && ValidPixmap(b)
    ensures ValidPixmap(out)
    ensures out.width == if a.width >= b.width then a.width else b.width
    ensures out.height == if a.height >= b.height then a.height else b.height
    ensures forall x: nat, y: nat :: x < out.width && y < out.height ==>
      PixelAt(out, x, y) == Some(DiffPixel(PixelAt(a, x, y), PixelAt(b, x, y)))
  {
    var w := if a.width >= b.width then a.width else b.width;
    var h := if a.height >= b.height then a.height else b.height;
    Pixmap(w, h, seq(h, y requires 0 <= y < h =>
      seq(w, x requires 0 <= x < w => DiffPixel(PixelAt(a, x, y), PixelAt(b, x, y)))))
  }

  /** Comparing a pixmap with itself gives it back unchanged. */
  lemma DiffWithItself(a: Pixmap)
    requires ValidPixmap(a)
    ensures PixmapDiff(a, a) == a
  {
    var d := PixmapDiff(a, a);
    forall y | 0 <= y < a.height
      ensures d.rows[y] == a.rows[y]
    {
      forall x | 0 <= x < a.width
        ensures d.rows[y][x] == a.rows[y][x]
      {
        assert PixelAt(d, x, y) == Some(DiffPixel(PixelAt(a, x, y), PixelAt(a, x, y)));
      }
    }
  }

  /**
   * A pixel where the two pixmaps differ is marked, except when `a`'s
   * pixel already is opaque pure green: the saturating tint then leaves
   * it as it was.
   */
  lemma DiffMarksChanges(a: Pixmap, b: Pixmap, x: nat, y: nat)
    requires ValidPixmap(a) && ValidPixmap(b)
    requires x < a.width && y < a.height
    requires 0 <= a.rows[y][x].red <= 255 && 0 <= a.rows[y][x].green <= 255 && 0 <= a.rows[y][x].blue <= 255
    requires PixelAt(a, x, y) != PixelAt(b, x, y)
    ensures PixelAt(PixmapDiff(a, b), x, y).value == a.rows[y][x] <==> a.rows[y][x] == Pixel(0, 255, 0, 255)
  {
    var out := PixmapDiff(a, b);
    assert PixelAt(out, x, y) == Some(DiffPixel(PixelAt(a, x, y), PixelAt(b, x, y)));
  }
}
