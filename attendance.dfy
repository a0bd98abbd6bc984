/**
 * The confirmation tracker and the attendance ledger of the capture loop in
 * attendance_capture.py: per-label streak counts, the set of labels already
 * marked this session, and the ordered attendance rows.
 *
 * `Next` is the specification of one frame; the class `Session` holds the
 * same state in fields and updates it in place with `Step`, which is proved
 * to compute `Next`.  `Run` folds `Next` over a whole session and the lemmas
 * below it state what a session guarantees.
 */
module Attendance {
  import opened Common
  import opened Matcher

  /** Consecutive sightings required before a label is marked. */
  const CONFIRMATION_FRAMES: nat := 3

  /** The clock reading taken when a row is made: an ISO date and an HH:MM:SS time. */
  datatype Timestamp = Timestamp(date: string, time: string)

  /** One attendance row: the columns Name, Date and Time. */
  datatype Row = Row(name: string, date: string, time: string)

  function ToSet(s: seq<string>): (r: set<string>)
    ensures forall n :: n in r <==> n in s
  {
    set n | n in s
  }

  /** A label's streak, 0 when it is not tracked. */
  function Get(counts: map<string, nat>, name: string): nat {
    if name in counts then counts[name] else 0
  }

  /** The recognised labels of a frame, in order, "Unknown" dropped. */
  function KnownNames(names: seq<string>): (known: seq<string>)
    ensures forall n :: n in known <==> n in names && n != UNKNOWN
    ensures forall n :: n != UNKNOWN ==> multiset(known)[n] == multiset(names)[n]
    ensures multiset(known)[UNKNOWN] == 0
  {
    if names == [] then []
    else
      var init, last := names[..|names| - 1], names[|names| - 1];
      assert names == init + [last];
      if last == UNKNOWN then KnownNames(init) else KnownNames(init) + [last]
  }

  /** The streak counts after a frame in which the known labels `seen` were detected. */
  function Tally(counts: map<string, nat>, seen: seq<string>): (t: map<string, nat>)
    ensures t.Keys == counts.Keys + ToSet(seen)
    ensures forall n :: n in t && n !in seen ==> t[n] == 0
  {
    map n | n in counts.Keys + ToSet(seen) :: if n in seen then Get(counts, n) + multiset(seen)[n] else 0
  }

  /**
   * The labels a frame newly marks, in the order the frame lists them: each
   * recognised label, not yet marked, whose streak has reached the
   * threshold, taken once.
   */
  function Confirmed(names: seq<string>, marked: set<string>, counts: map<string, nat>): (newly: seq<string>)
    ensures forall n :: n in newly <==>
      n in names && n != UNKNOWN && n !in marked && Get(counts, n) >= CONFIRMATION_FRAMES
    ensures forall i, j :: 0 <= i < j < |newly| ==> newly[i] != newly[j]
  {
    if names == [] then []
    else
      var earlier := Confirmed(names[..|names| - 1], marked, counts);
      var n := names[|names| - 1];
      assert names == names[..|names| - 1] + [n];
      if n == UNKNOWN || n in marked || n in earlier || Get(counts, n) < CONFIRMATION_FRAMES then earlier
      else earlier + [n]
  }

  /** The rows written for the labels `newly`, all stamped with `ts`. */
  function RowsFor(newly: seq<string>, ts: Timestamp): (rows: seq<Row>)
    ensures |rows| == |newly|
    ensures forall i :: 0 <= i < |rows| ==> rows[i] == Row(newly[i], ts.date, ts.time)
  {
    seq(|newly|, i requires 0 <= i < |newly| => Row(newly[i], ts.date, ts.time))
  }

  function RowNames(rows: seq<Row>): set<string> {
    set r | r in rows :: r.name
  }

  predicate DistinctNames(rows: seq<Row>) {
    forall i, j :: 0 <= i < j < |rows| ==> rows[i].name != rows[j].name
  }

  /** The session's state: streaks, marked labels, attendance rows. */
  datatype SessionState = SessionState(counts: map<string, nat>, marked: set<string>, rows: seq<Row>)

  const Start: SessionState := SessionState(map[], {}, [])

  /**
   * What holds between frames: "Unknown" is never tracked, every marked
   * label is tracked, the marked set is exactly the set of labels in the
   * rows, and no label has two rows.
   */
  ghost predicate Inv(s: SessionState) {
    && UNKNOWN !in s.counts
    && s.marked <= s.counts.Keys
    && s.marked == RowNames(s.rows)
    && DistinctNames(s.rows)
  }

  /** One frame, given the labels of its regions in detection order. */
  function Next(s: SessionState, names: seq<string>, ts: Timestamp): (t: SessionState)
    ensures s.counts.Keys <= t.counts.Keys
    ensures s.marked <= t.marked
    ensures |s.rows| <= |t.rows| && t.rows[..|s.rows|] == s.rows
    ensures forall n :: n in t.marked - s.marked ==> n in names && n != UNKNOWN
  {
    var counts := Tally(s.counts, KnownNames(names));
    var newly := Confirmed(names, s.marked, counts);
    SessionState(counts, s.marked + ToSet(newly), s.rows + RowsFor(newly, ts))
  }

  lemma {:induction false} RowNamesAppend(rows: seq<Row>, newly: seq<string>, ts: Timestamp)
    ensures RowNames(rows + RowsFor(newly, ts)) == RowNames(rows) + ToSet(newly)
  {
    var added := RowsFor(newly, ts);
    forall n | n in ToSet(newly) ensures n in RowNames(rows + added) {
      var i :| 0 <= i < |newly| && newly[i] == n;
      assert (rows + added)[|rows| + i] == added[i];
    }
    forall n | n in RowNames(rows + added) ensures n in RowNames(rows) + ToSet(newly) {
      var r :| r in rows + added && r.name == n;
      if r !in rows {
        var i :| 0 <= i < |added| && added[i] == r;
        assert newly[i] == n;
      }
    }
  }

  lemma {:induction false} RowNamesIndex(rows: seq<Row>, i: int)
    requires 0 <= i < |rows|
    ensures rows[i].name in RowNames(rows)
  {
    assert rows[i] in rows;
  }

  /**
   * Marking the labels that a frame confirms keeps the session invariant:
   * each of them is tracked, none of them had a row, and they are distinct.
   */
  lemma {:induction false} MarkKeepsInv(s: SessionState, names: seq<string>, ts: Timestamp)
    requires Inv(s)
    ensures var newly := Confirmed(names, s.marked, s.counts);
      Inv(SessionState(s.counts, s.marked + ToSet(newly), s.rows + RowsFor(newly, ts)))
  {
    var newly := Confirmed(names, s.marked, s.counts);
    var added := RowsFor(newly, ts);
    var t := SessionState(s.counts, s.marked + ToSet(newly), s.rows + added);
    RowNamesAppend(s.rows, newly, ts);
    forall n | n in newly ensures n in s.counts {
      assert Get(s.counts, n) >= CONFIRMATION_FRAMES;
    }
    forall i, j | 0 <= i < j < |t.rows| ensures t.rows[i].name != t.rows[j].name {
      if j >= |s.rows| {
        assert t.rows[j] == added[j - |s.rows|];
        if i < |s.rows| {
          RowNamesIndex(s.rows, i);
          assert t.rows[i].name in s.marked;
        } else {
          assert t.rows[i] == added[i - |s.rows|];
        }
      }
    }
  }

  /** A frame keeps the session invariant. */
  lemma {:induction false} NextKeepsInv(s: SessionState, names: seq<string>, ts: Timestamp)
    requires Inv(s)
    ensures Inv(Next(s, names, ts))
  {
    var counts := Tally(s.counts, KnownNames(names));
    MarkKeepsInv(SessionState(counts, s.marked, s.rows), names, ts);
  }

  /**
   * One frame's effect on the streaks: every recognised label gains one per
   * sighting, every other tracked label drops to 0, no label is forgotten
   * and "Unknown" is never tracked.
   */
  lemma StreakUpdate(s: SessionState, names: seq<string>, ts: Timestamp)
    requires Inv(s)
    ensures var t := Next(s, names, ts);
      && s.counts.Keys <= t.counts.Keys
      && UNKNOWN !in t.counts
      && (forall n :: n != UNKNOWN && n in names ==> n in t.counts && t.counts[n] == Get(s.counts, n) + multiset(names)[n])
      && (forall n :: n in t.counts && n !in names ==> t.counts[n] == 0)
  {
  }

  /**
   * One frame's effect on the ledger: a row is appended exactly for each
   * recognised, not yet marked label whose new streak reached the
   * threshold; the earlier rows are kept as they were.
   */
  lemma MarkingRule(s: SessionState, names: seq<string>, ts: Timestamp, n: string)
    requires Inv(s)
    ensures var t := Next(s, names, ts);
      && t.rows[..|s.rows|] == s.rows
      && (n in t.marked - s.marked <==>
          n in names && n != UNKNOWN && n !in s.marked && Get(t.counts, n) >= CONFIRMATION_FRAMES)
      && (n in t.marked - s.marked ==> Row(n, ts.date, ts.time) in t.rows)
  {
    var t := Next(s, names, ts);
    var newly := Confirmed(names, s.marked, t.counts);
    if n in t.marked - s.marked {
      var i :| 0 <= i < |newly| && newly[i] == n;
      assert t.rows[|s.rows| + i] == Row(n, ts.date, ts.time);
    }
  }

  /** The labels detected in one frame of a session, and the clock reading for it. */
  datatype Frame = Frame(names: seq<string>, ts: Timestamp)

  /** The state after a whole sequence of frames. */
  function Run(frames: seq<Frame>): (s: SessionState)
    ensures forall n :: n in s.marked ==> exists i :: 0 <= i < |frames| && n in frames[i].names
  {
    if frames == [] then Start
    else
      var init, last := frames[..|frames| - 1], frames[|frames| - 1];
      assert forall i :: 0 <= i < |init| ==> init[i] == frames[i];
      Next(Run(init), last.names, last.ts)
  }

  lemma {:induction false} RunKeepsInv(frames: seq<Frame>)
    ensures Inv(Run(frames))
  {
    if frames != [] {
      var last := frames[|frames| - 1];
      RunKeepsInv(frames[..|frames| - 1]);
      NextKeepsInv(Run(frames[..|frames| - 1]), last.names, last.ts);
    }
  }

  /**
   * The sightings of `n` in the unbroken run of trailing frames that contain
   * it (0 when the last frame lacks it).
   */
  function TrailingCount(frames: seq<Frame>, n: string): nat {
    if frames == [] then 0
    else
      var last := frames[|frames| - 1];
      if n != UNKNOWN && n in last.names then TrailingCount(frames[..|frames| - 1], n) + multiset(last.names)[n]
      else 0
  }

  /**
   * A label's streak after a session is the number of its sightings since
   * the last frame that lacked it: a gap wipes out all earlier credit.
   */
  lemma {:induction false} StreakIsTrailingCount(frames: seq<Frame>, n: string)
    ensures Get(Run(frames).counts, n) == TrailingCount(frames, n)
  {
    if frames != [] {
      var init, last := frames[..|frames| - 1], frames[|frames| - 1];
      StreakIsTrailingCount(init, n);
      RunKeepsInv(init);
    }
  }

  /** Some prefix of the session ends with `n`'s streak at or above the threshold. */
  ghost predicate EverConfirmed(frames: seq<Frame>, n: string) {
    exists j :: 0 < j <= |frames| && TrailingCount(frames[..j], n) >= CONFIRMATION_FRAMES
  }

  /** A frame marks `n` exactly when `n` is recognised in it and its new streak reaches the threshold. */
  lemma {:induction false} NextMarks(s: SessionState, names: seq<string>, ts: Timestamp, n: string)
    requires Inv(s)
    ensures n in Next(s, names, ts).marked <==>
      n in s.marked || (n in names && n != UNKNOWN && Get(Next(s, names, ts).counts, n) >= CONFIRMATION_FRAMES)
  {
  }

  lemma {:induction false} EverConfirmedSnoc(frames: seq<Frame>, n: string)
    requires frames != []
    ensures EverConfirmed(frames, n) <==>
      EverConfirmed(frames[..|frames| - 1], n) || TrailingCount(frames, n) >= CONFIRMATION_FRAMES
  {
    var init := frames[..|frames| - 1];
    if EverConfirmed(init, n) {
      var j :| 0 < j <= |init| && TrailingCount(init[..j], n) >= CONFIRMATION_FRAMES;
      assert frames[..j] == init[..j];
    }
    if TrailingCount(frames, n) >= CONFIRMATION_FRAMES {
      assert frames[..|frames|] == frames;
    }
    if EverConfirmed(frames, n) {
      var j :| 0 < j <= |frames| && TrailingCount(frames[..j], n) >= CONFIRMATION_FRAMES;
      if j < |frames| {
        assert frames[..j] == init[..j];
      } else {
        assert frames[..j] == frames;
      }
    }
  }

  /** A label is marked after a session exactly when its streak reached the threshold at some frame. */
  lemma {:induction false} MarkedIffEverConfirmed(frames: seq<Frame>, n: string)
    ensures n in Run(frames).marked <==> EverConfirmed(frames, n)
  {
    if frames != [] {
      var init, last := frames[..|frames| - 1], frames[|frames| - 1];
      MarkedIffEverConfirmed(init, n);
      StreakIsTrailingCount(frames, n);
      RunKeepsInv(init);
      NextMarks(Run(init), last.names, last.ts, n);
      EverConfirmedSnoc(frames, n);
    }
  }

  /** The number of rows for label `n`. */
  function RowsNamed(rows: seq<Row>, n: string): nat {
    if rows == [] then 0
    else RowsNamed(rows[..|rows| - 1], n) + (if rows[|rows| - 1].name == n then 1 else 0)
  }

  lemma {:induction false} DistinctRowsNamed(rows: seq<Row>, n: string)
    requires DistinctNames(rows)
    ensures RowsNamed(rows, n) == if n in RowNames(rows) then 1 else 0
  {
    if rows != [] {
      var init, last := rows[..|rows| - 1], rows[|rows| - 1];
      assert rows == init + [last];
      DistinctRowsNamed(init, n);
      assert RowNames(rows) == RowNames(init) + {last.name};
    }
  }

  /**
   * A session holds exactly one row for each label whose streak reached the
   * threshold at some frame, however many frames confirmed it afterwards,
   * and none for any other label.
   */
  lemma ExactlyOneRowPerConfirmedLabel(frames: seq<Frame>, n: string)
    ensures RowsNamed(Run(frames).rows, n) == if EverConfirmed(frames, n) then 1 else 0
  {
    RunKeepsInv(frames);
    DistinctRowsNamed(Run(frames).rows, n);
    MarkedIffEverConfirmed(frames, n);
  }

  /** Later frames only append rows: the rows of a session are a prefix of the rows of any longer one. */
  lemma {:induction false} RowsOnlyGrow(frames: seq<Frame>, more: seq<Frame>)
    ensures |Run(frames).rows| <= |Run(frames + more).rows|
    ensures Run(frames + more).rows[..|Run(frames).rows|] == Run(frames).rows
  {
    if more == [] {
      assert frames + more == frames;
    } else {
      var init, last := more[..|more| - 1], more[|more| - 1];
      var r, s, t := Run(frames).rows, Run(frames + init), Run(frames + more);
      assert |r| <= |s.rows| && s.rows[..|r|] == r by {
        RowsOnlyGrow(frames, init);
      }
      assert t == Next(s, last.names, last.ts) by {
        RunAppend(frames, more);
      }
      assert |s.rows| <= |t.rows| && t.rows[..|s.rows|] == s.rows by {
        NextKeepsRows(s, last.names, last.ts);
      }
      assert t.rows[..|r|] == t.rows[..|s.rows|][..|r|];
    }
  }

  lemma RunAppend(frames: seq<Frame>, more: seq<Frame>)
    requires more != []
    ensures var last := more[|more| - 1];
      Run(frames + more) == Next(Run(frames + more[..|more| - 1]), last.names, last.ts)
  {
    assert (frames + more)[..|frames + more| - 1] == frames + more[..|more| - 1];
  }

  /** Processing frame `i` of a session moves it from the state after `i` frames to the state after `i + 1`. */
  lemma RunPrefixStep(frames: seq<Frame>, i: nat)
    requires i < |frames|
    ensures Run(frames[..i + 1]) == Next(Run(frames[..i]), frames[i].names, frames[i].ts)
  {
    assert frames[..i + 1][..i] == frames[..i];
  }

  lemma NextKeepsRows(s: SessionState, names: seq<string>, ts: Timestamp)
    ensures |s.rows| <= |Next(s, names, ts).rows|
    ensures Next(s, names, ts).rows[..|s.rows|] == s.rows
  {
  }

  /**
   * The in-place form of the session: the three locals of the capture
   * loop, lifted into one object.
   */
  class Session {
    var counts: map<string, nat>
    var marked: set<string>
    var rows: seq<Row>

    function State(): SessionState
      reads this
    {
      SessionState(counts, marked, rows)
    }

    ghost predicate Valid()
      reads this
    {
      Inv(State())
    }

    constructor ()
      ensures Valid() && State() == Start
    {
      counts, marked, rows := map[], {}, [];
    }

    /** Processes the labels of one frame: updates the streaks, then marks newly confirmed labels. */
    method Step(names: seq<string>, ts: Timestamp)
      requires Valid()
      modifies this
      ensures Valid()
      ensures State() == Next(old(State()), names, ts)
    {
      ghost var before := State();
      var detected := KnownNames(names);
      BumpStreaks(detected);
      ResetAbsent(detected);
      TallyIsBumpThenReset(before.counts, detected);
      assert counts == Tally(before.counts, detected);
      MarkConfirmed(names, ts);
    }

    /** Each sighting of a label in `detected` extends its streak by one. */
    method BumpStreaks(detected: seq<string>)
      requires Valid() && UNKNOWN !in detected
      modifies this
      ensures Valid()
      ensures counts == Bump(old(counts), detected)
      ensures marked == old(marked) && rows == old(rows)
    {
      ghost var c0 := counts;
      var i := 0;
      while i < |detected|
        invariant 0 <= i <= |detected|
        invariant counts == Bump(c0, detected[..i])
        invariant marked == old(marked) && rows == old(rows)
        invariant Valid()
      {
        BumpNext(c0, detected, i);
        counts := counts[detected[i] := Get(counts, detected[i]) + 1];
        i := i + 1;
      }
      assert detected[..i] == detected;
    }

    /** Every tracked label missing from `detected` drops to 0; no label is removed. */
    method ResetAbsent(detected: seq<string>)
      requires Valid()
      modifies this
      ensures Valid()
      ensures counts.Keys == old(counts).Keys
      ensures forall n :: n in counts ==> counts[n] == if n in detected then old(counts)[n] else 0
      ensures marked == old(marked) && rows == old(rows)
    {
      var pending := counts.Keys;
      while pending != {}
        invariant pending <= old(counts).Keys
        invariant counts.Keys == old(counts).Keys
        invariant forall n :: n in counts ==> counts[n] == if n in pending || n in detected then old(counts)[n] else 0
        invariant marked == old(marked) && rows == old(rows)
        decreases pending
      {
        var n :| n in pending;
        if n !in detected {
          counts := counts[n := 0];
        }
        pending := pending - {n};
      }
    }

    /** Marks, in order, every recognised and unmarked label of the frame whose streak reached the threshold. */
    method MarkConfirmed(names: seq<string>, ts: Timestamp)
      requires Valid()
      modifies this
      ensures Valid()
      ensures counts == old(counts)
      ensures marked == old(marked) + ToSet(Confirmed(names, old(marked), counts))
      ensures rows == old(rows) + RowsFor(Confirmed(names, old(marked), counts), ts)
    {
      var j := 0;
      while j < |names|
        invariant 0 <= j <= |names|
        invariant counts == old(counts)
        invariant marked == old(marked) + ToSet(Confirmed(names[..j], old(marked), counts))
        invariant rows == old(rows) + RowsFor(Confirmed(names[..j], old(marked), counts), ts)
      {
        var n := names[j];
        assert names[..j + 1][..j] == names[..j];
        if n != UNKNOWN && n !in marked && Get(counts, n) >= CONFIRMATION_FRAMES {
          RowsForSnoc(Confirmed(names[..j], old(marked), counts), n, ts);
          rows := rows + [Row(n, ts.date, ts.time)];
          marked := marked + {n};
        }
        j := j + 1;
      }
      assert names[..j] == names;
      MarkKeepsInv(SessionState(counts, old(marked), old(rows)), names, ts);
    }
  }

  /** The streaks after the sightings `seen`, before absent labels are reset. */
  ghost function Bump(counts: map<string, nat>, seen: seq<string>): map<string, nat> {
    map n | n in counts.Keys + ToSet(seen) :: Get(counts, n) + multiset(seen)[n]
  }

  lemma BumpNext(counts: map<string, nat>, seen: seq<string>, i: nat)
    requires i < |seen|
    ensures var b := Bump(counts, seen[..i]);
      Bump(counts, seen[..i + 1]) == b[seen[i] := Get(b, seen[i]) + 1]
  {
    var x := seen[i];
    assert seen[..i + 1] == seen[..i] + [x];
    var before, after := Bump(counts, seen[..i]), Bump(counts, seen[..i + 1]);
    assert multiset(seen[..i + 1]) == multiset(seen[..i]) + multiset{x};
    assert after.Keys == before.Keys + {x};
    forall n | n in after ensures after[n] == before[x := Get(before, x) + 1][n] {
    }
  }

  lemma TallyIsBumpThenReset(counts: map<string, nat>, seen: seq<string>)
    ensures var b := Bump(counts, seen);
      Tally(counts, seen) == map n | n in b :: if n in seen then b[n] else 0
  {
  }

  lemma RowsForSnoc(newly: seq<string>, n: string, ts: Timestamp)
    ensures RowsFor(newly + [n], ts) == RowsFor(newly, ts) + [Row(n, ts.date, ts.time)]
  {
  }

  /** The attendance sheet found on disk before the session's rows are saved. */
  datatype PriorSheet = NoSheet | Unreadable | Sheet(rows: seq<Row>)

  /**
   * The sheet written at the end of a session, or None when the session
   * marked nobody and nothing is written.  An unreadable earlier sheet is
   * replaced by the session's rows alone.
   */
  function SavedSheet(prior: PriorSheet, rows: seq<Row>): (out: Option<seq<Row>>)
    ensures out.None? <==> rows == []
    ensures out.Some? && prior.Sheet? ==> out.value == prior.rows + rows
    ensures out.Some? && !prior.Sheet? ==> out.value == rows
  {
    if rows == [] then None
    else if prior.Sheet? then Some(prior.rows + rows)
    else Some(rows)
  }

  /** The sheet found on disk after a session with `rows` has been saved over `prior`. */
  function SheetAfter(prior: PriorSheet, rows: seq<Row>): (after: PriorSheet)
    ensures rows == [] ==> after == prior
    ensures rows != [] ==> after.Sheet? && |rows| <= |after.rows| && after.rows[|after.rows| - |rows|..] == rows
  {
    match SavedSheet(prior, rows)
    case None => prior
    case Some(written) => Sheet(written)
  }

  /**
   * Saving session A and then session B to the same destination leaves the
   * same sheet as saving A's rows followed by B's rows at once, whatever
   * was there before and whether or not either session marked anybody.
   */
  lemma {:induction false} SavingTwiceAppends(prior: PriorSheet, a: seq<Row>, b: seq<Row>)
    ensures SheetAfter(SheetAfter(prior, a), b) == SheetAfter(prior, a + b)
  {
    if a == [] {
      assert a + b == b;
    } else if b == [] {
      assert a + b == a;
    } else if prior.Sheet? {
      assert (prior.rows + a) + b == prior.rows + (a + b);
    }
  }
}
