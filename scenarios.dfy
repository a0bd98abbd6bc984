/** Worked sessions: a steady sighting and a sighting with a gap. */
module Scenarios {
  import opened Matcher
  import opened Attendance

  /** Every tracked label at streak 0. */
  function Cleared(counts: map<string, nat>): map<string, nat> {
    map k | k in counts :: 0
  }

  lemma {:induction false} TallyOne(counts: map<string, nat>, n: string)
    ensures Tally(counts, [n]) == Cleared(counts)[n := Get(counts, n) + 1]
  {
    var t, r := Tally(counts, [n]), Cleared(counts)[n := Get(counts, n) + 1];
    assert t.Keys == r.Keys;
    forall k | k in t ensures t[k] == r[k] {
      if k == n {
        assert multiset([n])[n] == 1;
      }
    }
  }

  lemma {:induction false} ConfirmedOne(n: string, marked: set<string>, counts: map<string, nat>)
    ensures Confirmed([n], marked, counts) ==
      if n != UNKNOWN && n !in marked && Get(counts, n) >= CONFIRMATION_FRAMES then [n] else []
  {
    assert [n][..0] == [];
  }

  /** What a single recognised label `n` adds to the marked set and the rows. */
  lemma {:induction false} MarksOne(n: string, marked: set<string>, counts: map<string, nat>, ts: Timestamp)
    requires n != UNKNOWN
    ensures var newly := Confirmed([n], marked, counts);
      && ToSet(newly) == (if n !in marked && Get(counts, n) >= CONFIRMATION_FRAMES then {n} else {})
      && RowsFor(newly, ts) == (if n !in marked && Get(counts, n) >= CONFIRMATION_FRAMES
                                then [Row(n, ts.date, ts.time)] else [])
  {
    var newly := Confirmed([n], marked, counts);
    ConfirmedOne(n, marked, counts);
    if n !in marked && Get(counts, n) >= CONFIRMATION_FRAMES {
      assert ToSet(newly) == {n};
      assert RowsFor(newly, ts) == [Row(n, ts.date, ts.time)];
    } else {
      assert ToSet(newly) == {};
      assert RowsFor(newly, ts) == [];
    }
  }

  /** A frame whose only region is recognised as `n`. */
  lemma {:induction false} SingleSighting(s: SessionState, n: string, ts: Timestamp)
    requires n != UNKNOWN
    ensures var t := Next(s, [n], ts);
      && t.counts == Cleared(s.counts)[n := Get(s.counts, n) + 1]
      && t.marked == (if n !in s.marked && Get(s.counts, n) + 1 >= CONFIRMATION_FRAMES then s.marked + {n} else s.marked)
      && t.rows == (if n !in s.marked && Get(s.counts, n) + 1 >= CONFIRMATION_FRAMES
                    then s.rows + [Row(n, ts.date, ts.time)] else s.rows)
  {
    assert KnownNames([n]) == [n] by {
      assert [n][..0] == [];
    }
    var counts := Tally(s.counts, [n]);
    TallyOne(s.counts, n);
    assert Get(counts, n) == Get(s.counts, n) + 1;
    MarksOne(n, s.marked, counts, ts);
  }

  /** A frame in which nothing is recognised. */
  lemma {:induction false} NoSighting(s: SessionState, ts: Timestamp)
    ensures Next(s, [], ts) == SessionState(Cleared(s.counts), s.marked, s.rows)
  {
    assert ToSet([]) == {};
  }

  /** A frame recognising only "Alice", from a state that tracks no other label. */
  lemma {:induction false} AliceSeen(c: nat, marked: set<string>, rows: seq<Row>, ts: Timestamp)
    ensures Next(SessionState(map["Alice" := c], marked, rows), ["Alice"], ts) ==
      if "Alice" !in marked && c + 1 >= CONFIRMATION_FRAMES
      then SessionState(map["Alice" := c + 1], marked + {"Alice"}, rows + [Row("Alice", ts.date, ts.time)])
      else SessionState(map["Alice" := c + 1], marked, rows)
  {
    var s := SessionState(map["Alice" := c], marked, rows);
    SingleSighting(s, "Alice", ts);
    assert Cleared(s.counts)["Alice" := c + 1] == map["Alice" := c + 1];
  }

  /** A frame recognising nobody, from a state that tracks only "Alice". */
  lemma {:induction false} AliceMissed(c: nat, ts: Timestamp)
    ensures Next(SessionState(map["Alice" := c], {}, []), [], ts) == SessionState(map["Alice" := 0], {}, [])
  {
    NoSighting(SessionState(map["Alice" := c], {}, []), ts);
    assert Cleared(map["Alice" := c]) == map["Alice" := 0];
  }

  /** The first frame of a session recognising only "Alice". */
  lemma {:induction false} AliceFirstSeen(ts: Timestamp)
    ensures Next(Start, ["Alice"], ts) == SessionState(map["Alice" := 1], {}, [])
  {
    SingleSighting(Start, "Alice", ts);
    assert Cleared(Start.counts)["Alice" := 1] == map["Alice" := 1];
  }

  /**
   * Five consecutive frames each recognising "Alice": one row, stamped with
   * the third frame's time, and no further row for frames four and five.
   */
  lemma SteadySighting(t1: Timestamp, t2: Timestamp, t3: Timestamp, t4: Timestamp, t5: Timestamp)
    ensures var s1 := Next(Start, ["Alice"], t1);
      var s2 := Next(s1, ["Alice"], t2);
      var s3 := Next(s2, ["Alice"], t3);
      var s4 := Next(s3, ["Alice"], t4);
      var s5 := Next(s4, ["Alice"], t5);
      s2.rows == [] && s3.rows == [Row("Alice", t3.date, t3.time)] && s5.rows == s3.rows
  {
    var row := Row("Alice", t3.date, t3.time);
    AliceFirstSeen(t1);
    AliceSeen(1, {}, [], t2);
    AliceSeen(2, {}, [], t3);
    assert {} + {"Alice"} == {"Alice"} && [] + [row] == [row];
    AliceSeen(3, {"Alice"}, [row], t4);
    AliceSeen(4, {"Alice"}, [row], t5);
  }

  /**
   * "Alice" seen, missed, then seen three times: the streak runs 1, 0, 1, 2, 3
   * and the only row is stamped with the fifth frame's time.
   */
  lemma GapResetsStreak(t1: Timestamp, t2: Timestamp, t3: Timestamp, t4: Timestamp, t5: Timestamp)
    ensures var s1 := Next(Start, ["Alice"], t1);
      var s2 := Next(s1, [], t2);
      var s3 := Next(s2, ["Alice"], t3);
      var s4 := Next(s3, ["Alice"], t4);
      var s5 := Next(s4, ["Alice"], t5);
      && s1.counts["Alice"] == 1 && s2.counts["Alice"] == 0 && s3.counts["Alice"] == 1
      && s4.counts["Alice"] == 2 && s5.counts["Alice"] == 3
      && s4.rows == [] && s5.rows == [Row("Alice", t5.date, t5.time)]
  {
    AliceFirstSeen(t1);
    AliceMissed(1, t2);
    AliceSeen(0, {}, [], t3);
    AliceSeen(1, {}, [], t4);
    AliceSeen(2, {}, [], t5);
    assert [] + [Row("Alice", t5.date, t5.time)] == [Row("Alice", t5.date, t5.time)];
  }
}
