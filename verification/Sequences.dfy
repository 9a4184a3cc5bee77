/** Sequence tracking per connection: what the gap and out-of-order counters mean and how they add up. */
module Sequences {
  import opened Words

  const MAXIMUM_SEQUENCE_STREAMS: nat := 4096

  /** The reader's map of highest numbers and its two exact, unwrapped counters. */
  datatype Tracking = Tracking(last: map<u64, u64>, gaps: nat, outOfOrder: nat)

  const UNTRACKED := Tracking(map[], 0, 0)

  datatype Observation = Observation(connection: u64, sequence: u64)

  /** The stream table is full and the connection is new. */
  predicate Rejected(t: Tracking, connection: u64) {
    connection !in t.last && |t.last| == MAXIMUM_SEQUENCE_STREAMS
  }

  function Track(t: Tracking, o: Observation): Tracking {
    if Rejected(t, o.connection) then t
    else if o.connection !in t.last then t.(last := t.last[o.connection := o.sequence])
    else
      var previous := t.last[o.connection];
      if o.sequence <= previous then t.(outOfOrder := t.outOfOrder + 1)
      else t.(last := t.last[o.connection := o.sequence], gaps := t.gaps + (o.sequence - previous - 1))
  }

  function TrackAll(obs: seq<Observation>): Tracking {
    if obs == [] then UNTRACKED else Track(TrackAll(obs[..|obs| - 1]), obs[|obs| - 1])
  }

  /** On any input the stream table stays within its limit. */
  lemma {:induction false} TableBounded(obs: seq<Observation>)
    ensures |TrackAll(obs).last| <= MAXIMUM_SEQUENCE_STREAMS
  {
    if obs != [] {
      var before := TrackAll(obs[..|obs| - 1]);
      var o := obs[|obs| - 1];
      TableBounded(obs[..|obs| - 1]);
      assert o.connection in before.last ==> before.last[o.connection := o.sequence].Keys == before.last.Keys;
      assert before.last[o.connection := o.sequence].Keys == before.last.Keys + {o.connection};
    }
  }

  // ----- one connection

  /** The highest number received. */
  function Highest(s: seq<u64>): u64
    requires s != []
  {
    if |s| == 1 || s[|s| - 1] > Highest(s[..|s| - 1]) then s[|s| - 1] else Highest(s[..|s| - 1])
  }

  /** How many numbers were above everything received before them. */
  function Advances(s: seq<u64>): nat {
    if |s| <= 1 then 0
    else Advances(s[..|s| - 1]) + if s[|s| - 1] > Highest(s[..|s| - 1]) then 1 else 0
  }

  /** How many numbers were not above everything received before them. */
  function Late(s: seq<u64>): nat {
    if |s| <= 1 then 0
    else Late(s[..|s| - 1]) + if s[|s| - 1] <= Highest(s[..|s| - 1]) then 1 else 0
  }

  /** How many numbers were jumped over. */
  function Jumped(s: seq<u64>): nat {
    if |s| <= 1 then 0
    else
      var high := Highest(s[..|s| - 1]);
      Jumped(s[..|s| - 1]) + if s[|s| - 1] > high then s[|s| - 1] - high - 1 else 0
  }

  /** The numbers between the first and the highest that were never received at all. */
  ghost function Missing(s: seq<u64>): set<u64>
    requires s != []
  {
    set x: u64 | s[0] < x <= Highest(s) && x !in s
  }

  lemma {:induction false} HighestIsHighest(s: seq<u64>)
    requires s != []
    ensures Highest(s) in s
    ensures forall x :: x in s ==> x <= Highest(s)
  {
    if |s| > 1 {
      HighestIsHighest(s[..|s| - 1]);
      assert s == s[..|s| - 1] + [s[|s| - 1]];
    }
  }

  ghost function Between(low: u64, high: u64): (between: set<u64>)
    requires low < high
    ensures forall x: u64 :: x in between <==> low < x < high
    ensures |between| == high - low - 1
    decreases high - low
  {
    if low + 1 == high then {} else Between(low, high - 1) + {high - 1}
  }

  lemma MissingStep(init: seq<u64>, x: u64)
    requires init != []
    ensures var s, high := init + [x], Highest(init);
            if x > high then |Missing(s)| == |Missing(init)| + (x - high - 1)
            else |Missing(init)| - 1 <= |Missing(s)| <= |Missing(init)|
  {
    hide Highest, Missing;
    var s, high := init + [x], Highest(init);
    if x > high {
      var between := Between(high, x);
      MissingAhead(init, x, between);
      assert |Missing(init) + between| == |Missing(init)| + |between|;
    } else {
      MissingBehind(init, x);
    }
  }

  lemma MissingAhead(init: seq<u64>, x: u64, between: set<u64>)
    requires init != [] && x > Highest(init)
    requires forall y: u64 :: y in between <==> Highest(init) < y < x
    ensures Missing(init + [x]) == Missing(init) + between && Missing(init) !! between
  {
    HighestIsHighest(init);
    GrowOne(init, x);
    hide Highest;
    assert init[0] in init;
  }

  lemma MissingBehind(init: seq<u64>, x: u64)
    requires init != [] && x <= Highest(init)
    ensures Missing(init + [x]) == Missing(init) - {x}
  {
    GrowOne(init, x);
    hide Highest;
  }

  /**
   * The accounts of one connection. The distance travelled is advances plus numbers jumped over, every number received
   * after the first is an advance or late, and the jump count brackets the numbers never received: late arrivals are
   * never deducted from it.
   */
  lemma {:induction false} ConnectionAccounts(s: seq<u64>)
    requires s != []
    ensures Highest(s) - s[0] == Advances(s) + Jumped(s)
    ensures |s| == 1 + Advances(s) + Late(s)
    ensures |Missing(s)| <= Jumped(s) <= |Missing(s)| + Late(s)
  {
    if |s| == 1 {
      assert Missing(s) == {};
    } else {
      var init, x := s[..|s| - 1], s[|s| - 1];
      assert s == init + [x];
      ConnectionAccounts(init);
      MissingStep(init, x);
      HighestIsHighest(init);
      assert init[0] <= Highest(init) by { assert init[0] in init; }
    }
  }

  /** How many numbers that had been jumped over arrived late, each counted once. */
  function Filled(s: seq<u64>): nat {
    if |s| <= 1 then 0
    else
      var init, x := s[..|s| - 1], s[|s| - 1];
      Filled(init) + if FillsGap(init, x) then 1 else 0
  }

  /** `x` is the first arrival of a number between the first and the highest. */
  predicate FillsGap(init: seq<u64>, x: u64)
    requires init != []
  {
    init[0] < x <= Highest(init) && x !in init
  }

  lemma MissingFilled(init: seq<u64>, x: u64)
    requires init != [] && x <= Highest(init)
    ensures |Missing(init + [x])| == |Missing(init)| - if FillsGap(init, x) then 1 else 0
  {
    var s := init + [x];
    GrowOne(init, x);
    hide Highest;
    assert s[0] == init[0];
    forall y: u64
      ensures y in s <==> y in init || y == x
    {
    }
    assert Missing(s) == Missing(init) - {x};
  }

  /** The jump count is the number of messages never received plus those received after they had been jumped over. */
  lemma {:induction false} JumpedExactly(s: seq<u64>)
    requires s != []
    ensures Jumped(s) == |Missing(s)| + Filled(s)
  {
    if |s| == 1 {
      assert Missing(s) == {};
    } else {
      var init, x := s[..|s| - 1], s[|s| - 1];
      assert s == init + [x];
      JumpedExactly(init);
      hide Missing;
      if x > Highest(init) {
        MissingStep(init, x);
      } else {
        MissingFilled(init, x);
      }
    }
  }

  /** The i-th number is new, known, or older than the first: it does not fill a gap. */
  predicate Harmless(s: seq<u64>, i: nat)
    requires 0 < i < |s|
  {
    s[i] <= Highest(s[..i]) ==> s[i] in s[..i] || s[i] < s[0]
  }

  lemma {:induction false} NothingFilled(s: seq<u64>)
    ensures Filled(s) == 0 <==> forall i :: 0 < i < |s| ==> Harmless(s, i)
  {
    if |s| > 1 {
      var init, k := s[..|s| - 1], |s| - 1;
      NothingFilled(init);
      assert s == init + [s[k]];
      FilledSnoc(init, s[k]);
      assert FillsGap(init, s[k]) <==> !Harmless(s, k) by {
        assert s[..k] == init && init[0] == s[0] && s[0] in init;
      }
      forall i | 0 < i < k
        ensures Harmless(s, i) == Harmless(init, i)
      {
        assert s[..i] == init[..i] && s[i] == init[i] && s[0] == init[0];
      }
      hide Filled, Harmless, FillsGap;
    }
  }

  lemma FilledSnoc(init: seq<u64>, x: u64)
    requires init != []
    ensures Filled(init + [x]) == Filled(init) + if FillsGap(init, x) then 1 else 0
  {
    assert (init + [x])[..|init|] == init;
  }

  /** The counter is the number of missing messages iff no number that had been jumped over ever arrives late. */
  lemma JumpsAreMissingExactlyWhen(s: seq<u64>)
    requires s != []
    ensures Jumped(s) == |Missing(s)| <==>
            forall i :: 0 < i < |s| && s[i] <= Highest(s[..i]) ==> s[i] in s[..i] || s[i] < s[0]
  {
    hide Jumped, Missing, Filled, Highest;
    assert forall i :: 0 < i < |s| ==>
        (Harmless(s, i) <==> (s[i] <= Highest(s[..i]) ==> s[i] in s[..i] || s[i] < s[0]));
    JumpedExactly(s);
    NothingFilled(s);
  }

  /** How many numbers were below the highest received before them. */
  function Lower(s: seq<u64>): nat {
    if |s| <= 1 then 0
    else Lower(s[..|s| - 1]) + if s[|s| - 1] < Highest(s[..|s| - 1]) then 1 else 0
  }

  /** How many numbers repeated the highest received before them. */
  function Repeated(s: seq<u64>): nat {
    if |s| <= 1 then 0
    else Repeated(s[..|s| - 1]) + if s[|s| - 1] == Highest(s[..|s| - 1]) then 1 else 0
  }

  /**
   * The late counter adds lower and repeated numbers, so it counts lower ones only iff no number repeats the highest.
   */
  lemma {:induction false} LateExactly(s: seq<u64>)
    ensures Late(s) == Lower(s) + Repeated(s)
    ensures Late(s) == Lower(s) <==> forall i :: 0 < i < |s| ==> s[i] != Highest(s[..i])
  {
    hide Highest;
    if |s| > 1 {
      var init, k := s[..|s| - 1], |s| - 1;
      LateExactly(init);
      assert Repeated(s) == Repeated(init) + if s[k] == Highest(init) then 1 else 0;
      hide Late, Lower, Repeated;
      forall i | 0 < i < k
        ensures s[..i] == init[..i] && s[i] == init[i]
      {
      }
    }
  }

  /** Such a repetition: after 5, 5 one number is late and none is lower. */
  lemma RepetitionIsLate()
    ensures Late([5, 5]) == 1 && Lower([5, 5]) == 0
  {
    var s: seq<u64> := [5, 5];
    assert s[..1] == [5];
    assert Highest([5]) == 5;
  }

  /** The counter is not the number of missing messages: after 1, 3, 2 nothing is missing and one jump is counted. */
  lemma JumpsAreNotMissing()
    ensures Missing([1, 3, 2]) == {} && Jumped([1, 3, 2]) == 1
  {
    var s: seq<u64> := [1, 3, 2];
    assert s[..2] == [1, 3] && [1, 3][..1] == [1];
    assert Highest([1]) == 1 && Highest([1, 3]) == 3 && Highest(s) == 3;
    assert Jumped([1]) == 0 && Jumped([1, 3]) == 1;
  }

  // ----- all connections together

  /** What one connection sent, in order. */
  function Own(obs: seq<Observation>, connection: u64): seq<u64> {
    if obs == [] then []
    else
      var before := Own(obs[..|obs| - 1], connection);
      if obs[|obs| - 1].connection == connection then before + [obs[|obs| - 1].sequence] else before
  }

  function Connections(obs: seq<Observation>): set<u64> {
    set o | o in obs :: o.connection
  }

  ghost function Sum(m: map<u64, nat>): nat {
    if m.Keys == {} then 0
    else
      var k :| k in m.Keys;
      m[k] + Sum(m - {k})
  }

  lemma {:induction false} SumSplit(m: map<u64, nat>, k: u64)
    requires k in m
    ensures Sum(m) == m[k] + Sum(m - {k})
    decreases |m|
  {
    var j :| j in m.Keys && Sum(m) == m[j] + Sum(m - {j});
    if j != k {
      SumSplit(m - {j}, k);
      SumSplit(m - {k}, j);
      assert (m - {j}) - {k} == (m - {k}) - {j};
    }
  }

  ghost function JumpsByConnection(obs: seq<Observation>): map<u64, nat> {
    map c | c in Connections(obs) :: Jumped(Own(obs, c))
  }

  ghost function LateByConnection(obs: seq<Observation>): map<u64, nat> {
    map c | c in Connections(obs) :: Late(Own(obs, c))
  }

  lemma OwnSnoc(obs: seq<Observation>, o: Observation, c: u64)
    ensures Own(obs + [o], c) == if o.connection == c then Own(obs, c) + [o.sequence] else Own(obs, c)
    ensures Connections(obs + [o]) == Connections(obs) + {o.connection}
  {
    assert (obs + [o])[..|obs|] == obs;
  }

  lemma {:induction false} OwnOfKnown(obs: seq<Observation>, c: u64)
    ensures c in Connections(obs) <==> Own(obs, c) != []
  {
    if obs != [] {
      var init, o := obs[..|obs| - 1], obs[|obs| - 1];
      assert obs == init + [o];
      OwnOfKnown(init, c);
      OwnSnoc(init, o, c);
    }
  }

  lemma SumOneChanged(m: map<u64, nat>, n: map<u64, nat>, k: u64)
    requires k in n && m - {k} == n - {k}
    ensures Sum(n) + (if k in m then m[k] else 0) == Sum(m) + n[k]
  {
    SumSplit(n, k);
    if k in m {
      SumSplit(m, k);
    } else {
      assert m - {k} == m;
    }
  }

  /**
   * The table holds the highest number of each connection, and the counters add up the jumps and late arrivals of
   * all.
   */
  ghost predicate Tallied(obs: seq<Observation>) {
    var t := TrackAll(obs);
    && t.last.Keys == Connections(obs)
    && (forall c :: c in t.last ==> Own(obs, c) != [] && t.last[c] == Highest(Own(obs, c)))
    && t.gaps == Sum(JumpsByConnection(obs))
    && t.outOfOrder == Sum(LateByConnection(obs))
  }

  /** The reader's table and counters are, connection by connection, those of the connection on its own. */
  lemma {:induction false} TotalsAreSums(obs: seq<Observation>)
    requires |Connections(obs)| <= MAXIMUM_SEQUENCE_STREAMS
    ensures Tallied(obs)
  {
    if obs == [] {
      assert Connections(obs) == {};
    } else {
      var init, o := obs[..|obs| - 1], obs[|obs| - 1];
      var c := o.connection;
      assert obs == init + [o];
      OwnSnoc(init, o, c);
      assert Connections(init) <= Connections(obs);
      SubsetSize(Connections(init), Connections(obs));
      TotalsAreSums(init);
      TotalsStep(init, o);
    }
  }

  lemma SubsetSize(a: set<u64>, b: set<u64>)
    requires a <= b
    ensures |a| <= |b|
    ensures |a| == |b| ==> a == b
  {
    assert b == a + (b - a);
  }

  lemma MapsStep(init: seq<Observation>, o: Observation)
    ensures var obs, c := init + [o], o.connection;
            var own := Own(init, c) + [o.sequence];
            && Sum(JumpsByConnection(obs)) == Sum(JumpsByConnection(init)) + Jumped(own) - Jumped(Own(init, c))
            && Sum(LateByConnection(obs)) == Sum(LateByConnection(init)) + Late(own) - Late(Own(init, c))
  {
    hide Own, Connections, Sum, Jumped, Late;
    var obs, c := init + [o], o.connection;
    forall d
      ensures Own(obs, d) == if d == c then Own(init, c) + [o.sequence] else Own(init, d)
      ensures Connections(obs) == Connections(init) + {c}
    {
      OwnSnoc(init, o, d);
    }
    OwnSnoc(init, o, c);
    OwnOfKnown(init, c);
    NothingYet();
    assert JumpsByConnection(init) - {c} == JumpsByConnection(obs) - {c};
    assert LateByConnection(init) - {c} == LateByConnection(obs) - {c};
    SumOneChanged(JumpsByConnection(init), JumpsByConnection(obs), c);
    SumOneChanged(LateByConnection(init), LateByConnection(obs), c);
  }

  lemma NothingYet()
    ensures Jumped([]) == 0 && Late([]) == 0
  {
  }

  lemma TotalsStep(init: seq<Observation>, o: Observation)
    requires |Connections(init + [o])| <= MAXIMUM_SEQUENCE_STREAMS
    requires Tallied(init)
    ensures Tallied(init + [o])
  {
    hide TrackAll, Own, Connections, JumpsByConnection, LateByConnection, Highest, Sum;
    TableStep(init, o);
    CountersStep(init, o);
  }

  /** The table after one more observation. */
  lemma TableStep(init: seq<Observation>, o: Observation)
    requires |Connections(init + [o])| <= MAXIMUM_SEQUENCE_STREAMS
    requires Tallied(init)
    ensures var obs := init + [o];
            && TrackAll(obs).last.Keys == Connections(obs)
            && forall d :: d in TrackAll(obs).last ==>
                 Own(obs, d) != [] && TrackAll(obs).last[d] == Highest(Own(obs, d))
  {
    hide TrackAll, Own, Connections, JumpsByConnection, LateByConnection, Highest, Jumped, Late, Sum;
    var obs, c, t := init + [o], o.connection, TrackAll(init);
    TrackSnoc(init, o);
    OwnSnoc(init, o, c);
    NotRejected(init, o);
    OwnOfKnown(init, c);
    GrowOne(Own(init, c), o.sequence);
    var u := Track(t, o);
    assert u.last.Keys == Connections(obs);
    forall d | d in u.last
      ensures Own(obs, d) != [] && u.last[d] == Highest(Own(obs, d))
    {
      OwnSnoc(init, o, d);
    }
  }

  /** The two counters after it. */
  lemma CountersStep(init: seq<Observation>, o: Observation)
    requires |Connections(init + [o])| <= MAXIMUM_SEQUENCE_STREAMS
    requires Tallied(init)
    ensures var obs := init + [o];
            && TrackAll(obs).gaps == Sum(JumpsByConnection(obs))
            && TrackAll(obs).outOfOrder == Sum(LateByConnection(obs))
  {
    hide TrackAll, Own, Connections, JumpsByConnection, LateByConnection, Highest, Jumped, Late, Sum;
    var own := Own(init, o.connection);
    TrackSnoc(init, o);
    MapsStep(init, o);
    OwnOfKnown(init, o.connection);
    NotRejected(init, o);
    GrowOne(own, o.sequence);
    NothingYet();
  }

  lemma TrackSnoc(init: seq<Observation>, o: Observation)
    ensures TrackAll(init + [o]) == Track(TrackAll(init), o)
  {
    assert (init + [o])[..|init|] == init;
  }

  lemma NotRejected(init: seq<Observation>, o: Observation)
    requires TrackAll(init).last.Keys == Connections(init)
    requires |Connections(init + [o])| <= MAXIMUM_SEQUENCE_STREAMS
    ensures !Rejected(TrackAll(init), o.connection)
  {
    hide TrackAll, Connections;
    OwnSnoc(init, o, o.connection);
    SubsetSize(Connections(init), Connections(init + [o]));
    assert |TrackAll(init).last| == |TrackAll(init).last.Keys|;
  }

  /** What one more number does to the accounts of its connection. */
  lemma GrowOne(own: seq<u64>, x: u64)
    ensures own == [] ==> Highest(own + [x]) == x && Jumped(own + [x]) == Jumped(own) && Late(own + [x]) == Late(own)
    ensures own != [] ==>
              var high := Highest(own);
              && Highest(own + [x]) == (if x > high then x else high)
              && Jumped(own + [x]) == Jumped(own) + (if x > high then x - high - 1 else 0)
              && Late(own + [x]) == Late(own) + (if x > high then 0 else 1)
  {
    assert (own + [x])[..|own|] == own;
  }

  // ----- more connections than the table holds

  /** The connections in the order of their first number, as many as the table takes. */
  function FirstConnections(obs: seq<Observation>): (first: set<u64>)
    ensures |first| <= MAXIMUM_SEQUENCE_STREAMS
  {
    if obs == [] then {}
    else
      var before, c := FirstConnections(obs[..|obs| - 1]), obs[|obs| - 1].connection;
      if c in before || |before| == MAXIMUM_SEQUENCE_STREAMS then before else before + {c}
  }

  /** The observations of those connections. */
  function Admitted(obs: seq<Observation>): seq<Observation> {
    if obs == [] then []
    else
      var o := obs[|obs| - 1];
      Admitted(obs[..|obs| - 1]) + if o.connection in FirstConnections(obs) then [o] else []
  }

  lemma AdmittedSnoc(init: seq<Observation>, o: Observation)
    ensures var before, first := FirstConnections(init), FirstConnections(init + [o]);
            && first == (if o.connection in before || |before| == MAXIMUM_SEQUENCE_STREAMS then before
                         else before + {o.connection})
            && Admitted(init + [o]) == Admitted(init) + if o.connection in first then [o] else []
  {
    assert (init + [o])[..|init|] == init;
  }

  /** What is known of the connections beyond the limit: they are as if they were not there. */
  ghost predicate AdmittedOk(obs: seq<Observation>) {
    && TrackAll(obs) == TrackAll(Admitted(obs))
    && Connections(Admitted(obs)) == FirstConnections(obs)
    && Tallied(Admitted(obs))
    && forall c :: Own(Admitted(obs), c) == if c in FirstConnections(obs) then Own(obs, c) else []
  }

  /**
   * On any input the table and the counters are those of the first 4096 connections, each on its own: every number of
   * theirs counts, and no number of any other connection does.
   */
  lemma {:induction false} TotalsOfAdmitted(obs: seq<Observation>)
    ensures AdmittedOk(obs)
  {
    if obs == [] {
      TotalsAreSums([]);
    } else {
      hide AdmittedOk;
      var init, o := obs[..|obs| - 1], obs[|obs| - 1];
      assert obs == init + [o];
      TotalsOfAdmitted(init);
      AdmittedStep(init, o);
    }
  }

  lemma AdmittedStep(init: seq<Observation>, o: Observation)
    requires AdmittedOk(init)
    ensures AdmittedOk(init + [o])
  {
    hide TrackAll, Own, Connections, Tallied, Admitted, FirstConnections;
    AdmittedSnoc(init, o);
    TrackSnoc(init, o);
    AdmittedOwn(init, o);
    var first := FirstConnections(init + [o]);
    TableIsFirst(init);
    if o.connection in first {
      TrackSnoc(Admitted(init), o);
      OwnSnoc(Admitted(init), o, o.connection);
      TotalsAreSums(Admitted(init) + [o]);
    } else {
      assert Admitted(init) + [] == Admitted(init);
    }
  }

  lemma TableIsFirst(obs: seq<Observation>)
    requires AdmittedOk(obs)
    ensures TrackAll(obs).last.Keys == FirstConnections(obs)
    ensures forall c :: Rejected(TrackAll(obs), c) <==>
                        c !in FirstConnections(obs) && |FirstConnections(obs)| == MAXIMUM_SEQUENCE_STREAMS
  {
    hide TrackAll, Own, Connections, Admitted, FirstConnections, JumpsByConnection, LateByConnection, Sum, Highest;
    assert |TrackAll(obs).last| == |TrackAll(obs).last.Keys|;
  }

  lemma {:induction false} OutsideFirst(obs: seq<Observation>, c: u64)
    ensures |FirstConnections(obs)| < MAXIMUM_SEQUENCE_STREAMS && c !in FirstConnections(obs) ==> Own(obs, c) == []
  {
    if obs != [] {
      OutsideFirst(obs[..|obs| - 1], c);
    }
  }

  lemma AdmittedOwn(init: seq<Observation>, o: Observation)
    requires forall c :: Own(Admitted(init), c) == if c in FirstConnections(init) then Own(init, c) else []
    ensures var obs := init + [o];
            forall c :: Own(Admitted(obs), c) == if c in FirstConnections(obs) then Own(obs, c) else []
  {
    hide Own, Admitted, FirstConnections;
    var obs := init + [o];
    AdmittedSnoc(init, o);
    forall c
      ensures Own(Admitted(obs), c) == if c in FirstConnections(obs) then Own(obs, c) else []
    {
      OwnSnoc(init, o, c);
      OwnSnoc(Admitted(init), o, c);
      OutsideFirst(init, c);
      assert Admitted(init) + [] == Admitted(init);
    }
  }

  /** Up to the limit, all are admitted. */
  lemma {:induction false} AllAdmitted(obs: seq<Observation>)
    requires |Connections(obs)| <= MAXIMUM_SEQUENCE_STREAMS
    ensures FirstConnections(obs) == Connections(obs) && Admitted(obs) == obs
  {
    if obs != [] {
      hide Connections, Admitted, FirstConnections;
      var init, o := obs[..|obs| - 1], obs[|obs| - 1];
      assert obs == init + [o];
      OwnSnoc(init, o, o.connection);
      SubsetSize(Connections(init), Connections(obs));
      AllAdmitted(init);
      AdmittedSnoc(init, o);
    }
  }

  /** So the totals do not depend on how the connections are interleaved. */
  lemma InterleavingIrrelevant(a: seq<Observation>, b: seq<Observation>)
    requires |Connections(a)| <= MAXIMUM_SEQUENCE_STREAMS
    requires forall c :: Own(a, c) == Own(b, c)
    ensures TrackAll(a).gaps == TrackAll(b).gaps && TrackAll(a).outOfOrder == TrackAll(b).outOfOrder
    ensures TrackAll(a).last == TrackAll(b).last
  {
    hide TrackAll, Own, Connections, Sum, JumpsByConnection, LateByConnection, Highest;
    SameConnections(a, b);
    TotalsAreSums(a);
    TotalsAreSums(b);
    SameMaps(a, b);
    assert TrackAll(a).last.Keys == TrackAll(b).last.Keys;
  }

  lemma SameConnections(a: seq<Observation>, b: seq<Observation>)
    requires forall c :: Own(a, c) == Own(b, c)
    ensures Connections(a) == Connections(b)
  {
    hide Own, Connections;
    forall c
      ensures c in Connections(a) <==> c in Connections(b)
    {
      OwnOfKnown(a, c);
      OwnOfKnown(b, c);
    }
  }

  lemma SameMaps(a: seq<Observation>, b: seq<Observation>)
    requires Connections(a) == Connections(b)
    requires forall c :: Own(a, c) == Own(b, c)
    ensures JumpsByConnection(a) == JumpsByConnection(b) && LateByConnection(a) == LateByConnection(b)
  {
    hide Own, Connections, Jumped, Late;
  }
}
