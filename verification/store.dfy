/**
 * The in-memory history store (SimpleDataStore, both revisions): each
 * currency's observations in arrival order, and an append-only list of
 * flagged changes. Recording an observation compares it with its nearest
 * earlier and nearest later neighbour of the same currency and flags each
 * pair whose rates differ by 20% or more of the smaller rate.
 */
module Store {
  import opened Wrappers
  import opened Model
  import opened Rates

  datatype Store = Store(histories: map<Code, seq<Obs>>, flagged: seq<Flagged>)

  /** The observations of one currency, oldest arrival first; none for a currency never seen. */
  function History(s: Store, c: Code): seq<Obs>
  {
    if c in s.histories then s.histories[c] else []
  }

  /** getExchangeRateChanges: every stored observation, identical ones collapsed into one. */
  function AllObservations(s: Store): set<Obs>
  {
    set c, o | c in s.histories && o in s.histories[c] :: o
  }

  /** A new SimpleDataStore holds no observation and no flag. */
  function NewStore(): (s: Store)
    ensures AllObservations(s) == {}
    ensures s.flagged == []
    ensures forall c :: History(s, c) == []
  {
    Store(map[], [])
  }

  /**
   * comparingByTimestamp: 0 for equal observations, otherwise -1 when the
   * first is earlier and 1 when it is later or merely shares the timestamp.
   */
  function CompareByTime(a: Obs, b: Obs): int
  {
    if a == b then 0 else if Before(a.time, b.time) then -1 else 1
  }

  /** BinaryOperator.maxBy, the step of Stream.max: the newcomer wins only when strictly greater. */
  function MaxBy(acc: Obs, x: Obs): Obs
  {
    if CompareByTime(acc, x) >= 0 then acc else x
  }

  /** BinaryOperator.minBy, the step of Stream.min: the newcomer wins only when strictly smaller. */
  function MinBy(acc: Obs, x: Obs): Obs
  {
    if CompareByTime(acc, x) <= 0 then acc else x
  }

  /**
   * `filter(changesBefore(t)).max(comparingByTimestamp())` over a history:
   * a left fold in arrival order over the observations strictly before `t`.
   */
  function Previous(hist: seq<Obs>, t: DateTime): (r: Option<Obs>)
    ensures r.Some? ==> r.value in hist && Before(r.value.time, t)
  {
    if |hist| == 0 then None
    else
      var acc := Previous(hist[..|hist| - 1], t);
      var x := hist[|hist| - 1];
      if !Before(x.time, t) then acc
      else if acc.None? then Some(x)
      else Some(MaxBy(acc.value, x))
  }

  /** `filter(changesAfter(t)).min(comparingByTimestamp())`, likewise. */
  function Next(hist: seq<Obs>, t: DateTime): (r: Option<Obs>)
    ensures r.Some? ==> r.value in hist && Before(t, r.value.time)
  {
    if |hist| == 0 then None
    else
      var acc := Next(hist[..|hist| - 1], t);
      var x := hist[|hist| - 1];
      if !Before(t, x.time) then acc
      else if acc.None? then Some(x)
      else Some(MinBy(acc.value, x))
  }

  /**
   * `hist[i]` is the predecessor of `t`: strictly earlier, with no
   * strictly-earlier observation later than it, and the first stored of
   * those sharing its timestamp.
   */
  ghost predicate IsPredecessor(hist: seq<Obs>, t: DateTime, i: int)
  {
    && 0 <= i < |hist|
    && Before(hist[i].time, t)
    && (forall j :: 0 <= j < |hist| && Before(hist[j].time, t) ==> !Before(hist[i].time, hist[j].time))
    && (forall j :: 0 <= j < i ==> hist[j].time != hist[i].time)
  }

  /**
   * `hist[i]` is the successor of `t`: strictly later, with no
   * strictly-later observation earlier than it, and the last stored of
   * those sharing its timestamp.
   */
  ghost predicate IsSuccessor(hist: seq<Obs>, t: DateTime, i: int)
  {
    && 0 <= i < |hist|
    && Before(t, hist[i].time)
    && (forall j :: 0 <= j < |hist| && Before(t, hist[j].time) ==> !Before(hist[j].time, hist[i].time))
    && (forall j :: i < j < |hist| ==> hist[j].time != hist[i].time)
  }

  /** At most one position is the predecessor. */
  lemma PredecessorUnique(hist: seq<Obs>, t: DateTime, i: int, k: int)
    requires IsPredecessor(hist, t, i) && IsPredecessor(hist, t, k)
    ensures i == k
  {
    BeforeTotal(hist[i].time, hist[k].time);
  }

  /** At most one position is the successor. */
  lemma SuccessorUnique(hist: seq<Obs>, t: DateTime, i: int, k: int)
    requires IsSuccessor(hist, t, i) && IsSuccessor(hist, t, k)
    ensures i == k
  {
    BeforeTotal(hist[i].time, hist[k].time);
  }

  /** An observation not before `t` leaves the predecessor where it was. */
  lemma PredecessorKept(hist: seq<Obs>, t: DateTime, i: int)
    requires |hist| > 0 && !Before(hist[|hist| - 1].time, t)
    requires IsPredecessor(hist[..|hist| - 1], t, i)
    ensures IsPredecessor(hist, t, i)
  {
    assert forall j :: 0 <= j < |hist| - 1 ==> hist[j] == hist[..|hist| - 1][j];
  }

  /** The first observation before `t` is the predecessor. */
  lemma PredecessorIsLast(hist: seq<Obs>, t: DateTime)
    requires |hist| > 0 && Before(hist[|hist| - 1].time, t)
    requires forall j :: 0 <= j < |hist| - 1 ==> !Before(hist[j].time, t)
    ensures IsPredecessor(hist, t, |hist| - 1)
  {
    var n := |hist| - 1;
    BeforeIrreflexive(hist[n].time);
  }

  /** The inductive step of PreviousIsPredecessor when both the fold so far and the last observation qualify. */
  lemma PreviousStep(hist: seq<Obs>, t: DateTime, i: int)
    requires |hist| > 0 && Before(hist[|hist| - 1].time, t)
    requires IsPredecessor(hist[..|hist| - 1], t, i)
    ensures var m := MaxBy(hist[i], hist[|hist| - 1]);
      exists k :: IsPredecessor(hist, t, k) && hist[k] == m
  {
    var n := |hist| - 1;
    var front := hist[..n];
    var x := hist[n];
    var a := hist[i];
    assert a == front[i];
    assert forall j :: 0 <= j < n ==> hist[j] == front[j];
    BeforeTotal(a.time, x.time);
    BeforeIrreflexive(x.time);
    if a == x {
      assert IsPredecessor(hist, t, i);
    } else if Before(a.time, x.time) {
      forall j | 0 <= j < |hist| && Before(hist[j].time, t)
        ensures !Before(x.time, hist[j].time)
      {
        if j < n && Before(x.time, hist[j].time) {
          BeforeTransitive(a.time, x.time, hist[j].time);
        }
      }
      assert IsPredecessor(hist, t, n);
    } else {
      assert IsPredecessor(hist, t, i);
    }
  }

  /**
   * The fold finds the predecessor: nothing exactly when no observation is
   * strictly earlier, otherwise the latest such, the first stored on a tie.
   */
  lemma {:induction false} PreviousIsPredecessor(hist: seq<Obs>, t: DateTime)
    ensures Previous(hist, t).None? <==> forall j :: 0 <= j < |hist| ==> !Before(hist[j].time, t)
    ensures Previous(hist, t).Some? ==> exists i :: IsPredecessor(hist, t, i) && hist[i] == Previous(hist, t).value
  {
    if |hist| > 0 {
      var n := |hist| - 1;
      var front := hist[..n];
      PreviousIsPredecessor(front, t);
      assert forall j :: 0 <= j < n ==> hist[j] == front[j];
      var acc := Previous(front, t);
      if acc.Some? {
        var i :| IsPredecessor(front, t, i) && front[i] == acc.value;
        if !Before(hist[n].time, t) {
          PredecessorKept(hist, t, i);
        } else {
          PreviousStep(hist, t, i);
        }
      } else if Before(hist[n].time, t) {
        PredecessorIsLast(hist, t);
      }
    }
  }

  /** An observation not after `t` leaves the successor where it was. */
  lemma SuccessorKept(hist: seq<Obs>, t: DateTime, i: int)
    requires |hist| > 0 && !Before(t, hist[|hist| - 1].time)
    requires IsSuccessor(hist[..|hist| - 1], t, i)
    ensures IsSuccessor(hist, t, i)
  {
    assert forall j :: 0 <= j < |hist| - 1 ==> hist[j] == hist[..|hist| - 1][j];
  }

  /** The first observation after `t` is the successor. */
  lemma SuccessorIsLast(hist: seq<Obs>, t: DateTime)
    requires |hist| > 0 && Before(t, hist[|hist| - 1].time)
    requires forall j :: 0 <= j < |hist| - 1 ==> !Before(t, hist[j].time)
    ensures IsSuccessor(hist, t, |hist| - 1)
  {
    var n := |hist| - 1;
    BeforeIrreflexive(hist[n].time);
  }

  /** The inductive step of NextIsSuccessor when both the fold so far and the last observation qualify. */
  lemma NextStep(hist: seq<Obs>, t: DateTime, i: int)
    requires |hist| > 0 && Before(t, hist[|hist| - 1].time)
    requires IsSuccessor(hist[..|hist| - 1], t, i)
    ensures var m := MinBy(hist[i], hist[|hist| - 1]);
      exists k :: IsSuccessor(hist, t, k) && hist[k] == m
  {
    var n := |hist| - 1;
    var front := hist[..n];
    var x := hist[n];
    var a := hist[i];
    assert a == front[i];
    assert forall j :: 0 <= j < n ==> hist[j] == front[j];
    BeforeTotal(a.time, x.time);
    BeforeIrreflexive(x.time);
    if a == x {
      forall j | 0 <= j < |hist| && Before(t, hist[j].time)
        ensures !Before(hist[j].time, x.time)
      {
        if j < n {
          assert !Before(front[j].time, front[i].time);
        }
      }
      assert IsSuccessor(hist, t, n);
    } else if Before(a.time, x.time) {
      forall j | 0 <= j < |hist| && Before(t, hist[j].time)
        ensures !Before(hist[j].time, a.time)
      {
        if j < n {
          assert !Before(front[j].time, front[i].time);
        }
      }
      forall j | i < j < |hist|
        ensures hist[j].time != a.time
      {
        if j < n {
          assert front[j].time != front[i].time;
        }
      }
      assert IsSuccessor(hist, t, i);
    } else {
      forall j | 0 <= j < |hist| && Before(t, hist[j].time)
        ensures !Before(hist[j].time, x.time)
      {
        if j < n {
          assert !Before(front[j].time, front[i].time);
          if Before(hist[j].time, x.time) && x.time != a.time {
            BeforeTransitive(hist[j].time, x.time, a.time);
          }
        }
      }
      assert IsSuccessor(hist, t, n);
    }
  }

  /**
   * The fold finds the successor: nothing exactly when no observation is
   * strictly later, otherwise the earliest such, the last stored on a tie.
   */
  lemma {:induction false} NextIsSuccessor(hist: seq<Obs>, t: DateTime)
    ensures Next(hist, t).None? <==> forall j :: 0 <= j < |hist| ==> !Before(t, hist[j].time)
    ensures Next(hist, t).Some? ==> exists i :: IsSuccessor(hist, t, i) && hist[i] == Next(hist, t).value
  {
    if |hist| > 0 {
      var n := |hist| - 1;
      var front := hist[..n];
      NextIsSuccessor(front, t);
      assert forall j :: 0 <= j < n ==> hist[j] == front[j];
      var acc := Next(front, t);
      if acc.Some? {
        var i :| IsSuccessor(front, t, i) && front[i] == acc.value;
        if !Before(t, hist[n].time) {
          SuccessorKept(hist, t, i);
        } else {
          NextStep(hist, t, i);
        }
      } else if Before(t, hist[n].time) {
        SuccessorIsLast(hist, t);
      }
    }
  }

  /** `record` stops with the ArithmeticException of a division by zero; what it did before stays done. */
  datatype Fault = DivisionByZero(partial: Store)

  /** The percentage of a pair whose smaller rate is zero divides by zero. */
  datatype ZeroRate = ZeroRate

  /**
   * flagIfDramaticRateChange for a neighbour that may be absent: the flags
   * to append, or a division by zero when the smaller rate is zero.
   */
  function FlagIfDramatic(o: Obs, neighbour: Option<Obs>): (r: Result<seq<Flagged>, ZeroRate>)
    ensures r.Failure? <==> neighbour.Some? && Smaller(o.rate, neighbour.value.rate) == 0.0
    ensures r.Success? ==> |r.value| <= 1 && (neighbour.None? ==> r.value == [])
    ensures r.Success? && neighbour.Some? ==>
      (|r.value| == 1 <==> Percentage(o.rate, neighbour.value.rate) >= 20.0)
  {
    match neighbour
    case None => Success([])
    case Some(n) =>
      if Smaller(o.rate, n.rate) == 0.0 then Failure(ZeroRate)
      else
        var p := Percentage(o.rate, n.rate);
        if p >= 20.0 then Success([MakeFlagged(p, o, n)]) else Success([])
  }

  /**
   * `record`: compare with the predecessor, then the successor, flagging
   * each dramatic pair, then append the observation to its currency's
   * history whatever the outcome. Nothing else changes.
   */
  function Record(s: Store, o: Obs): (r: Result<Store, Fault>)
    ensures r.Success? ==> History(r.value, o.code) == History(s, o.code) + [o]
    ensures r.Success? ==> forall c :: c != o.code ==> History(r.value, c) == History(s, c)
    ensures r.Success? ==> r.value.histories.Keys == s.histories.Keys + {o.code}
    ensures r.Success? ==> s.flagged <= r.value.flagged && |r.value.flagged| <= |s.flagged| + 2
    ensures r.Failure? ==> r.error.partial.histories == s.histories
    ensures r.Failure? ==> s.flagged <= r.error.partial.flagged && |r.error.partial.flagged| <= |s.flagged| + 1
  {
    var hist := History(s, o.code);
    match FlagIfDramatic(o, Previous(hist, o.time))
    case Failure(_) => Failure(DivisionByZero(s))
    case Success(before) =>
      match FlagIfDramatic(o, Next(hist, o.time))
      case Failure(_) => Failure(DivisionByZero(Store(s.histories, s.flagged + before)))
      case Success(after) => Success(Store(s.histories[o.code := hist + [o]], s.flagged + before + after))
  }

  /** The flag, if any, a neighbour earns: one exactly when the move is at least 20%. */
  function DramaticWith(o: Obs, neighbour: Option<Obs>): seq<Flagged>
    requires neighbour.Some? ==> Smaller(o.rate, neighbour.value.rate) != 0.0
  {
    if neighbour.Some? && Percentage(o.rate, neighbour.value.rate) >= 20.0 then
      [MakeFlagged(Percentage(o.rate, neighbour.value.rate), o, neighbour.value)]
    else []
  }

  /**
   * What one `record` appends: the predecessor's flag, then the
   * successor's, each present exactly when that pair moved by 20% or more.
   */
  lemma RecordAppendsNeighbourFlags(s: Store, o: Obs)
    requires Record(s, o).Success?
    ensures var h := History(s, o.code);
      var p := Previous(h, o.time);
      var n := Next(h, o.time);
      && (p.Some? ==> Smaller(o.rate, p.value.rate) != 0.0)
      && (n.Some? ==> Smaller(o.rate, n.value.rate) != 0.0)
      && Record(s, o).value.flagged == s.flagged + DramaticWith(o, p) + DramaticWith(o, n)
  {
  }

  /**
   * Against a single stored observation `p` with another timestamp, `o`
   * earns at most the one flag of the pair.
   */
  lemma SingleNeighbourFlag(s: Store, o: Obs, p: Obs)
    requires History(s, o.code) == [p] && p.time != o.time
    requires Record(s, o).Success?
    ensures Smaller(o.rate, p.rate) != 0.0
    ensures Record(s, o).value.flagged ==
      s.flagged + if Percentage(o.rate, p.rate) >= 20.0 then [MakeFlagged(Percentage(o.rate, p.rate), o, p)] else []
  {
    RecordAppendsNeighbourFlags(s, o);
    BeforeTotal(p.time, o.time);
    assert [p][..0] == [];
  }

  /** The first observation of a currency has no neighbour and is never flagged. */
  lemma FirstObservationNotFlagged(s: Store, o: Obs)
    requires History(s, o.code) == []
    ensures Record(s, o).Success?
    ensures Record(s, o).value.flagged == s.flagged
  {
  }

  /** An observation whose timestamp is shared by every stored one of its currency has no neighbour either. */
  lemma SameTimestampNotCompared(s: Store, o: Obs)
    requires forall x :: x in History(s, o.code) ==> x.time == o.time
    ensures Record(s, o).Success?
    ensures Record(s, o).value.flagged == s.flagged
  {
    var h := History(s, o.code);
    BeforeIrreflexive(o.time);
  }

  /** With positive rates the division never fails. */
  lemma RecordSucceedsOnPositiveRates(s: Store, o: Obs)
    requires o.rate > 0.0
    requires forall x :: x in History(s, o.code) ==> x.rate > 0.0
    ensures Record(s, o).Success?
  {
    var h := History(s, o.code);
    var p := Previous(h, o.time);
    var n := Next(h, o.time);
    if p.Some? {
      assert p.value in h;
    }
    if n.Some? {
      assert n.value in h;
    }
  }

  /** getExchangeRateChanges after `record`: the observation joins the set; an identical one is absorbed. */
  lemma RecordAddsToObservations(s: Store, o: Obs)
    requires Record(s, o).Success?
    ensures AllObservations(Record(s, o).value) == AllObservations(s) + {o}
  {
    var s' := Record(s, o).value;
    forall x | x in AllObservations(s')
      ensures x in AllObservations(s) + {o}
    {
      var c :| c in s'.histories && x in s'.histories[c];
      if c != o.code {
        assert History(s', c) == History(s, c);
      } else if x != o {
        assert x in History(s, o.code) + [o];
        assert x in History(s, o.code);
      }
    }
    forall x | x in AllObservations(s) + {o}
      ensures x in AllObservations(s')
    {
      if x == o {
        assert o in History(s', o.code);
      } else {
        var c :| c in s.histories && x in s.histories[c];
        assert History(s', c) == History(s, c) || History(s', c) == History(s, c) + [o];
        assert x in History(s', c);
      }
    }
  }

  /** Every stored observation sits under its own currency. */
  ghost predicate WellKeyed(s: Store)
  {
    forall c, i :: c in s.histories && 0 <= i < |s.histories[c]| ==> s.histories[c][i].code == c
  }

  /**
   * Every flag pairs two stored observations of one currency, strictly in
   * time order, that moved by at least 20%.
   */
  ghost predicate FlagsSound(s: Store)
  {
    forall k :: 0 <= k < |s.flagged| ==>
      && s.flagged[k].percentage >= 20.0
      && s.flagged[k].older.code == s.flagged[k].newer.code
      && Before(s.flagged[k].older.time, s.flagged[k].newer.time)
      && s.flagged[k].older in AllObservations(s)
      && s.flagged[k].newer in AllObservations(s)
  }

  ghost predicate Valid(s: Store)
  {
    WellKeyed(s) && FlagsSound(s)
  }

  lemma NewStoreValid()
    ensures Valid(NewStore())
  {
  }

  /** A successful `record` keeps the store valid. */
  lemma RecordPreservesValid(s: Store, o: Obs)
    requires Valid(s)
    requires Record(s, o).Success?
    ensures Valid(Record(s, o).value)
  {
    var s' := Record(s, o).value;
    var h := History(s, o.code);
    RecordAddsToObservations(s, o);
    RecordAppendsNeighbourFlags(s, o);
    forall c, i | c in s'.histories && 0 <= i < |s'.histories[c]|
      ensures s'.histories[c][i].code == c
    {
      if c != o.code {
        assert s'.histories[c] == History(s, c);
      } else {
        assert s'.histories[c] == h + [o];
        if i < |h| {
          assert h[i] == s.histories[c][i];
        }
      }
    }
    var p := Previous(h, o.time);
    var n := Next(h, o.time);
    var added := DramaticWith(o, p) + DramaticWith(o, n);
    assert s'.flagged == s.flagged + added;
    forall k | 0 <= k < |added|
      ensures added[k].percentage >= 20.0
      ensures added[k].older.code == added[k].newer.code
      ensures Before(added[k].older.time, added[k].newer.time)
      ensures added[k].older in AllObservations(s') && added[k].newer in AllObservations(s')
    {
      var other := if k < |DramaticWith(o, p)| then p.value else n.value;
      assert added[k] == MakeFlagged(Percentage(o.rate, other.rate), o, other);
      assert other in h;
      assert other.code == o.code by {
        var j :| 0 <= j < |h| && h[j] == other;
        assert o.code in s.histories;
      }
      assert other.time != o.time by {
        BeforeIrreflexive(o.time);
      }
      MakeFlaggedSymmetric(Percentage(o.rate, other.rate), o, other);
      assert other in AllObservations(s) by {
        assert o.code in s.histories && other in s.histories[o.code];
      }
    }
    forall k | 0 <= k < |s'.flagged|
      ensures s'.flagged[k].older in AllObservations(s') && s'.flagged[k].newer in AllObservations(s')
      ensures s'.flagged[k].percentage >= 20.0
      ensures s'.flagged[k].older.code == s'.flagged[k].newer.code
      ensures Before(s'.flagged[k].older.time, s'.flagged[k].newer.time)
    {
      if k >= |s.flagged| {
        assert s'.flagged[k] == added[k - |s.flagged|];
      } else {
        assert s'.flagged[k] == s.flagged[k];
      }
    }
  }

  /**
   * Two observations of a currency not yet seen, with distinct timestamps:
   * whichever arrives first, the flags are the same, time-ordered pair.
   */
  lemma RecordOrderIrrelevant(s: Store, a: Obs, b: Obs)
    requires History(s, a.code) == [] && a.code == b.code
    requires a.time != b.time
    requires a.rate > 0.0 && b.rate > 0.0
    ensures Record(s, a).Success? && Record(Record(s, a).value, b).Success?
    ensures Record(s, b).Success? && Record(Record(s, b).value, a).Success?
    ensures Record(Record(s, a).value, b).value.flagged == Record(Record(s, b).value, a).value.flagged
    ensures |Record(Record(s, a).value, b).value.flagged| == |s.flagged| + (if Percentage(a.rate, b.rate) >= 20.0 then 1 else 0)
  {
    FirstObservationNotFlagged(s, a);
    FirstObservationNotFlagged(s, b);
    var sa := Record(s, a).value;
    var sb := Record(s, b).value;
    assert History(sa, a.code) == [a];
    assert History(sb, a.code) == [b];
    RecordSucceedsOnPositiveRates(sa, b);
    RecordSucceedsOnPositiveRates(sb, a);
    SingleNeighbourFlag(sa, b, a);
    SingleNeighbourFlag(sb, a, b);
    PercentageSymmetric(a.rate, b.rate);
    MakeFlaggedSymmetric(Percentage(a.rate, b.rate), a, b);
  }

  /**
   * An observation arriving strictly between two stored ones that are both
   * 20% or more away from it gets two separate flags, one per side.
   */
  lemma RecordBetweenFlagsBothSides(s: Store, o: Obs, a: Obs, b: Obs)
    requires History(s, o.code) == [a, b]
    requires Before(a.time, o.time) && Before(o.time, b.time)
    requires o.rate > 0.0 && a.rate > 0.0 && b.rate > 0.0
    requires Percentage(o.rate, a.rate) >= 20.0 && Percentage(o.rate, b.rate) >= 20.0
    ensures Record(s, o).Success?
    ensures Record(s, o).value.flagged == s.flagged
      + [Flagged(Percentage(o.rate, a.rate), a, o), Flagged(Percentage(o.rate, b.rate), o, b)]
  {
    BeforeTotal(a.time, o.time);
    BeforeTotal(o.time, b.time);
    BeforeTransitive(a.time, o.time, b.time);
    assert [a, b][..1] == [a];
    assert [a][..0] == [];
    RecordAppendsNeighbourFlags(s, o);
  }

  /**
   * The data store test: GBP at 1.0 on 2018-01-01 13:59 and at 1.2 a day
   * later give exactly one flag, of 20%, from the 1.0 to the 1.2 record.
   */
  lemma TwentyPercentExample()
    ensures var gbp := Code("GBP");
      var yesterday := Obs(gbp, DateTime(2018, 1, 1, 13, 59, 0, 0), 1.0);
      var today := Obs(gbp, DateTime(2018, 1, 2, 13, 59, 0, 0), 1.2);
      && Record(NewStore(), yesterday).Success?
      && Record(Record(NewStore(), yesterday).value, today).Success?
      && Record(Record(NewStore(), yesterday).value, today).value.flagged == [Flagged(20.0, yesterday, today)]
  {
    var gbp := Code("GBP");
    var yesterday := Obs(gbp, DateTime(2018, 1, 1, 13, 59, 0, 0), 1.0);
    var today := Obs(gbp, DateTime(2018, 1, 2, 13, 59, 0, 0), 1.2);
    FirstObservationNotFlagged(NewStore(), yesterday);
    var s1 := Record(NewStore(), yesterday).value;
    assert History(s1, gbp) == [yesterday];
    assert [yesterday][..0] == [];
    PercentageExamples();
    RecordAppendsNeighbourFlags(s1, today);
  }

  /** Delivered newest first, GBP at 1.3 then an earlier 1.0 still give one flag, 30%, older first. */
  lemma ReverseOrderExample()
    ensures var gbp := Code("GBP");
      var earlier := Obs(gbp, DateTime(2018, 1, 1, 13, 59, 0, 0), 1.0);
      var later := Obs(gbp, DateTime(2018, 1, 2, 13, 59, 0, 0), 1.3);
      && Record(NewStore(), later).Success?
      && Record(Record(NewStore(), later).value, earlier).Success?
      && Record(Record(NewStore(), later).value, earlier).value.flagged == [Flagged(30.0, earlier, later)]
  {
    var gbp := Code("GBP");
    var earlier := Obs(gbp, DateTime(2018, 1, 1, 13, 59, 0, 0), 1.0);
    var later := Obs(gbp, DateTime(2018, 1, 2, 13, 59, 0, 0), 1.3);
    FirstObservationNotFlagged(NewStore(), later);
    var s1 := Record(NewStore(), later).value;
    assert History(s1, gbp) == [later];
    assert [later][..0] == [];
    PercentageExamples();
    RecordAppendsNeighbourFlags(s1, earlier);
  }

  /**
   * Recording the same observation twice keeps both copies in the
   * history, yet the observation set has one member and no flag is raised.
   */
  lemma DuplicateRecordedOnce(o: Obs)
    ensures Record(NewStore(), o).Success?
    ensures Record(Record(NewStore(), o).value, o).Success?
    ensures var s := Record(Record(NewStore(), o).value, o).value;
      && History(s, o.code) == [o, o]
      && AllObservations(s) == {o}
      && s.flagged == []
  {
    FirstObservationNotFlagged(NewStore(), o);
    var s1 := Record(NewStore(), o).value;
    SameTimestampNotCompared(s1, o);
    RecordAddsToObservations(NewStore(), o);
    RecordAddsToObservations(s1, o);
  }

  /** Feeding a sequence of observations to `record`, in order, stopping at the first fault. */
  function RecordAll(s: Store, obs: seq<Obs>): (r: Result<Store, Fault>)
    ensures r.Success? ==> s.flagged <= r.value.flagged
    ensures r.Failure? ==> s.flagged <= r.error.partial.flagged
    decreases |obs|
  {
    if |obs| == 0 then Success(s)
    else match Record(s, obs[0])
      case Failure(f) => Failure(f)
      case Success(s1) => RecordAll(s1, obs[1..])
  }

  /** The observations of one currency, in order. */
  function OfCurrency(obs: seq<Obs>, c: Code): (r: seq<Obs>)
    ensures forall x :: x in r <==> x in obs && x.code == c
  {
    if |obs| == 0 then []
    else (if obs[0].code == c then [obs[0]] else []) + OfCurrency(obs[1..], c)
  }

  /** Recording a sequence appends each currency's observations to its history, in the order given. */
  lemma {:induction false} RecordAllAppends(s: Store, obs: seq<Obs>, c: Code)
    requires RecordAll(s, obs).Success?
    ensures History(RecordAll(s, obs).value, c) == History(s, c) + OfCurrency(obs, c)
    decreases |obs|
  {
    if |obs| > 0 {
      var s1 := Record(s, obs[0]).value;
      RecordAllAppends(s1, obs[1..], c);
      var head := if obs[0].code == c then [obs[0]] else [];
      assert History(s1, c) == History(s, c) + head;
      assert OfCurrency(obs, c) == head + OfCurrency(obs[1..], c);
    }
  }

  /** Recording a nonempty sequence is recording its head, then the rest. */
  lemma RecordAllFirst(s: Store, obs: seq<Obs>)
    requires |obs| > 0 && RecordAll(s, obs).Success?
    ensures Record(s, obs[0]).Success?
    ensures RecordAll(Record(s, obs[0]).value, obs[1..]) == RecordAll(s, obs)
  {
  }

  /** The members of a nonempty sequence are its head and the members of its tail. */
  lemma MembersFirst(obs: seq<Obs>, all: set<Obs>, rest: set<Obs>)
    requires |obs| > 0
    requires all == (set x | x in obs) && rest == (set x | x in obs[1..])
    ensures all == {obs[0]} + rest
  {
    assert obs == [obs[0]] + obs[1..];
  }

  /** Recording a sequence adds exactly its observations to the observation set. */
  lemma {:induction false} RecordAllObservations(s: Store, obs: seq<Obs>)
    requires RecordAll(s, obs).Success?
    ensures AllObservations(RecordAll(s, obs).value) == AllObservations(s) + set x | x in obs
    decreases |obs|
  {
    if |obs| > 0 {
      RecordAllFirst(s, obs);
      var s1 := Record(s, obs[0]).value;
      RecordAllObservations(s1, obs[1..]);
      RecordAddsToObservations(s, obs[0]);
      MembersFirst(obs, set x | x in obs, set x | x in obs[1..]);
    }
  }

  /** Only positive rates ever reach the store: then no division fails. */
  ghost predicate PositiveRates(s: Store)
  {
    forall c, i :: c in s.histories && 0 <= i < |s.histories[c]| ==> s.histories[c][i].rate > 0.0
  }

  lemma {:induction false} RecordAllSucceedsOnPositiveRates(s: Store, obs: seq<Obs>)
    requires PositiveRates(s)
    requires forall i :: 0 <= i < |obs| ==> obs[i].rate > 0.0
    ensures RecordAll(s, obs).Success?
    decreases |obs|
  {
    if |obs| > 0 {
      var o := obs[0];
      RecordSucceedsOnPositiveRates(s, o);
      var s1 := Record(s, o).value;
      forall c, i | c in s1.histories && 0 <= i < |s1.histories[c]|
        ensures s1.histories[c][i].rate > 0.0
      {
        if c != o.code {
          assert s1.histories[c] == History(s, c);
        } else {
          assert s1.histories[c] == History(s, c) + [o];
        }
      }
      RecordAllSucceedsOnPositiveRates(s1, obs[1..]);
    }
  }
}
