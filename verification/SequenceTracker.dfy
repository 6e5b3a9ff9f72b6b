/** The UDP receiver's loss accounting: a ring of the last 256 accepted numbers and a running maximum. */
module SequenceTracker {
  import opened Bytes

  const WINDOW: nat := 256

  datatype Report = Silent | Duplicate | OutOfOrder | Gap(missing: nat)

  // ----- specification over the numbers accepted so far -----

  function Last(accepted: seq<Uint64>): (window: seq<Uint64>)
    ensures |window| == if |accepted| < WINDOW then |accepted| else WINDOW
  {
    if |accepted| < WINDOW then accepted else accepted[|accepted| - WINDOW..]
  }

  function Highest(accepted: seq<Uint64>): Uint64
    requires accepted != []
  {
    if |accepted| == 1 then accepted[0]
    else
      var h := Highest(accepted[..|accepted| - 1]);
      if accepted[|accepted| - 1] > h then accepted[|accepted| - 1] else h
  }

  function ReportFor(accepted: seq<Uint64>, s: Uint64): Report {
    if s in Last(accepted) then Duplicate
    else if accepted == [] then Silent
    else if s < Highest(accepted) then OutOfOrder
    else if s > Highest(accepted) + 1 then Gap(s - Highest(accepted) - 1)
    else Silent
  }

  /** What has been accepted once `numbers` arrived. */
  function Accepted(numbers: seq<Uint64>): (accepted: seq<Uint64>)
    ensures numbers != [] ==> accepted != []
  {
    if numbers == [] then []
    else
      var before := Accepted(numbers[..|numbers| - 1]);
      var s := numbers[|numbers| - 1];
      if s in Last(before) then before else before + [s]
  }

  function ReportAt(numbers: seq<Uint64>): Report
    requires numbers != []
  {
    ReportFor(Accepted(numbers[..|numbers| - 1]), numbers[|numbers| - 1])
  }

  function GapOf(report: Report): nat {
    match report case Gap(m) => m case _ => 0
  }

  /** Sum of the reported gap sizes. */
  function GapTotal(numbers: seq<Uint64>): nat {
    if numbers == [] then 0
    else
      GapTotal(numbers[..|numbers| - 1]) + GapOf(ReportAt(numbers))
  }

  function OutOfOrderTotal(numbers: seq<Uint64>): nat {
    if numbers == [] then 0
    else OutOfOrderTotal(numbers[..|numbers| - 1]) + if ReportAt(numbers).OutOfOrder? then 1 else 0
  }

  /** How often the running maximum moved after the first number. */
  function Advances(numbers: seq<Uint64>): nat {
    if |numbers| <= 1 then 0
    else
      var front := numbers[..|numbers| - 1];
      Advances(front) + if numbers[|numbers| - 1] > Highest(Accepted(front)) then 1 else 0
  }

  // ----- what the counters mean -----

  lemma {:induction false} HighestBounds(accepted: seq<Uint64>)
    requires accepted != []
    ensures Highest(accepted) in accepted
    ensures forall s :: s in accepted ==> s <= Highest(accepted)
  {
    if |accepted| > 1 {
      HighestBounds(accepted[..|accepted| - 1]);
      assert accepted == accepted[..|accepted| - 1] + [accepted[|accepted| - 1]];
    }
  }

  lemma HighestAppend(accepted: seq<Uint64>, s: Uint64)
    requires accepted != []
    ensures Highest(accepted + [s]) == if s > Highest(accepted) then s else Highest(accepted)
  {
    assert (accepted + [s])[..|accepted|] == accepted;
  }

  lemma {:induction false} AcceptedSameNumbers(numbers: seq<Uint64>, s: Uint64)
    ensures s in Accepted(numbers) <==> s in numbers
  {
    if numbers != [] {
      AcceptedSameNumbers(numbers[..|numbers| - 1], s);
      assert numbers == numbers[..|numbers| - 1] + [numbers[|numbers| - 1]];
    }
  }

  function HighestReceived(numbers: seq<Uint64>): Uint64
    requires numbers != []
  {
    Highest(Accepted(numbers))
  }

  /** The running maximum is the maximum of everything received. */
  lemma HighestIsMaximum(numbers: seq<Uint64>)
    requires numbers != []
    ensures HighestReceived(numbers) in numbers
    ensures forall s :: s in numbers ==> s <= HighestReceived(numbers)
  {
    HighestBounds(Accepted(numbers));
    forall s ensures s in Accepted(numbers) <==> s in numbers {
      AcceptedSameNumbers(numbers, s);
    }
  }

  lemma Single(s: Uint64)
    ensures Accepted([s]) == [s] && HighestReceived([s]) == s
    ensures GapTotal([s]) == 0 && OutOfOrderTotal([s]) == 0 && Advances([s]) == 0
  {
    assert [s][..0] == [];
    assert Accepted([]) == [] && GapTotal([]) == 0 && OutOfOrderTotal([]) == 0;
  }

  lemma LastSubset(accepted: seq<Uint64>, s: Uint64)
    requires s in Last(accepted)
    ensures s in accepted
  {
  }

  lemma AppendFront(front: seq<Uint64>, s: Uint64)
    ensures (front + [s])[..|front + [s]| - 1] == front && (front + [s])[|front + [s]| - 1] == s
  {
  }

  lemma AcceptedAppend(front: seq<Uint64>, s: Uint64)
    ensures Accepted(front + [s]) == if s in Last(Accepted(front)) then Accepted(front) else Accepted(front) + [s]
  {
    AppendFront(front, s);
  }

  lemma GapAppend(front: seq<Uint64>, s: Uint64)
    ensures GapTotal(front + [s]) == GapTotal(front) + GapOf(ReportFor(Accepted(front), s))
  {
    AppendFront(front, s);
  }

  lemma OutOfOrderAppend(front: seq<Uint64>, s: Uint64)
    ensures OutOfOrderTotal(front + [s])
         == OutOfOrderTotal(front) + if ReportFor(Accepted(front), s).OutOfOrder? then 1 else 0
  {
    AppendFront(front, s);
  }

  lemma AdvancesAppend(front: seq<Uint64>, s: Uint64)
    requires front != []
    ensures Advances(front + [s]) == Advances(front) + if s > HighestReceived(front) then 1 else 0
  {
    AppendFront(front, s);
  }

  lemma HighestReceivedAppend(front: seq<Uint64>, s: Uint64)
    requires front != []
    ensures HighestReceived(front + [s]) == if s > HighestReceived(front) then s else HighestReceived(front)
  {
    AcceptedAppend(front, s);
    RecentIsNotAbove(front, s);
    HighestAppend(Accepted(front), s);
  }

  lemma RecentIsNotAbove(front: seq<Uint64>, s: Uint64)
    requires front != []
    ensures s in Last(Accepted(front)) ==> s <= HighestReceived(front) && s in front
  {
    if s in Last(Accepted(front)) {
      LastSubset(Accepted(front), s);
      HighestBounds(Accepted(front));
      AcceptedSameNumbers(front, s);
    }
  }

  /** The report for one more arrival, in terms of the running maximum before it. */
  lemma ReportAgainstMaximum(front: seq<Uint64>, s: Uint64)
    requires front != []
    ensures var high, report := HighestReceived(front), ReportFor(Accepted(front), s);
      && GapOf(report) == (if s > high then s - high - 1 else 0)
      && (s !in front && s < high ==> report.OutOfOrder?)
      && (report.OutOfOrder? ==> s < high)
  {
    RecentIsNotAbove(front, s);
  }

  /** Reported gaps plus forward advances account for the whole span from the first number to the highest. */
  lemma {:induction false} GapsAndAdvances(numbers: seq<Uint64>)
    requires numbers != []
    ensures GapTotal(numbers) + Advances(numbers) == HighestReceived(numbers) - numbers[0]
  {
    if |numbers| == 1 {
      Single(numbers[0]);
      assert numbers == [numbers[0]];
    } else {
      LastSplit(numbers);
      var front, s := numbers[..|numbers| - 1], numbers[|numbers| - 1];
      GapsAndAdvances(front);
      GapsStep(front, s);
    }
  }

  lemma GapsStep(front: seq<Uint64>, s: Uint64)
    requires front != [] && GapTotal(front) + Advances(front) == HighestReceived(front) - front[0]
    ensures GapTotal(front + [s]) + Advances(front + [s]) == HighestReceived(front + [s]) - front[0]
  {
    GapAppend(front, s);
    AdvancesAppend(front, s);
    HighestReceivedAppend(front, s);
    ReportAgainstMaximum(front, s);
  }

  /** A number that was received before draws no report exactly when it is the highest and has left the window. */
  lemma SilentRepeat(numbers: seq<Uint64>, s: Uint64)
    requires s in numbers
    ensures ReportFor(Accepted(numbers), s).Silent?
      <==> s == HighestReceived(numbers) && s !in Last(Accepted(numbers))
  {
    HighestIsMaximum(numbers);
  }

  function Countdown(n: nat): (run: seq<Uint64>)
    requires n <= WINDOW
    ensures |run| == n
  {
    seq(n, i requires 0 <= i < n => WINDOW - 1 - i)
  }

  lemma {:induction false} CountdownAccepted(n: nat)
    requires n <= WINDOW
    ensures Accepted([WINDOW] + Countdown(n)) == [WINDOW] + Countdown(n)
  {
    if n == 0 {
      assert [WINDOW] + Countdown(0) == [WINDOW];
      Single(WINDOW);
    } else {
      CountdownAccepted(n - 1);
      CountdownGrows(n - 1);
      AcceptedAppend([WINDOW] + Countdown(n - 1), WINDOW - n);
    }
  }

  lemma CountdownGrows(n: nat)
    requires n < WINDOW
    ensures var run := [WINDOW] + Countdown(n);
      [WINDOW] + Countdown(n + 1) == run + [WINDOW - 1 - n] && WINDOW - 1 - n !in Last(run)
  {
    var run := [WINDOW] + Countdown(n);
    assert forall i :: 0 <= i < |run| ==> run[i] == WINDOW - i;
    assert Countdown(n + 1) == Countdown(n) + [WINDOW - 1 - n];
    Associative([WINDOW], Countdown(n), [WINDOW - 1 - n]);
    LastBounds(run, WINDOW - 1 - n);
  }

  lemma LastBounds(accepted: seq<Uint64>, s: Uint64)
    requires forall i :: 0 <= i < |accepted| ==> accepted[i] > s
    ensures s !in Last(accepted)
  {
  }

  /** Such a repeat exists: 256, then 255 down to 0, then 256 once more. */
  lemma SilentRepeatExists()
    ensures var numbers := [WINDOW] + Countdown(WINDOW);
      WINDOW in numbers && ReportFor(Accepted(numbers), WINDOW).Silent?
  {
    var numbers := [WINDOW] + Countdown(WINDOW);
    CountdownAccepted(WINDOW);
    assert Last(numbers) == Countdown(WINDOW);
    assert numbers[0] == WINDOW;
    HighestIsMaximum(numbers);
    assert forall i :: 0 <= i < |numbers| ==> numbers[i] <= WINDOW;
    SilentRepeat(numbers, WINDOW);
  }

  // ----- real loss -----

  function Interval(low: int, high: int): (interval: set<int>)
    ensures forall n :: n in interval <==> low < n <= high
    ensures |interval| == if low <= high then high - low else 0
    decreases high - low
  {
    if low >= high then {} else Interval(low, high - 1) + {high}
  }

  /** The numbers above the first that have arrived, and those that never did. */
  function ReceivedWithin(first: Uint64, highest: Uint64, numbers: seq<Uint64>): set<int> {
    set n | n in Interval(first, highest) && n in numbers
  }

  function MissingWithin(first: Uint64, highest: Uint64, numbers: seq<Uint64>): set<int> {
    set n | n in Interval(first, highest) && n !in numbers
  }

  lemma MissingCount(first: Uint64, highest: Uint64, numbers: seq<Uint64>)
    requires first <= highest
    ensures |MissingWithin(first, highest, numbers)| + |ReceivedWithin(first, highest, numbers)| == highest - first
  {
    var missing, received := MissingWithin(first, highest, numbers), ReceivedWithin(first, highest, numbers);
    assert missing + received == Interval(first, highest) && missing !! received;
  }

  lemma OneMoreReceived(front: seq<Uint64>, s: Uint64, high: Uint64, high': Uint64)
    requires front != [] && forall n :: n in front ==> n <= high
    requires high' == if s > high then s else high
    ensures var before := ReceivedWithin(front[0], high, front);
      var after := ReceivedWithin(front[0], high', front + [s]);
      |after| == |before| + (if s > front[0] && s !in front then 1 else 0)
  {
    forall n: int
      ensures n in ReceivedWithin(front[0], high', front + [s])
        <==> n in ReceivedWithin(front[0], high, front) || (n == s && s > front[0])
    {
      ReceivedMember(front, s, high, high', n);
    }
    assert s in ReceivedWithin(front[0], high, front) <==> s > front[0] && s in front;
    OneMoreMember(ReceivedWithin(front[0], high, front), ReceivedWithin(front[0], high', front + [s]), s, s > front[0]);
  }

  lemma OneMoreMember(before: set<int>, after: set<int>, s: int, grows: bool)
    requires forall n: int {:trigger n in after} {:trigger n in before} :: n in after <==> n in before || (n == s && grows)
    ensures |after| == |before| + if grows && s !in before then 1 else 0
  {
    var expected := if grows then before + {s} else before;
    forall n: int
      ensures n in after <==> n in expected
    {
    }
    assert after == expected;
    AddOne(before, s);
  }

  lemma AddOne(numbers: set<int>, n: int)
    ensures |numbers + {n}| == |numbers| + if n in numbers then 0 else 1
  {
    if n in numbers {
      assert numbers + {n} == numbers;
    }
  }

  lemma ReceivedMember(front: seq<Uint64>, s: Uint64, high: Uint64, high': Uint64, n: int)
    requires front != [] && (forall k :: k in front ==> k <= high) && high' == if s > high then s else high
    ensures n in ReceivedWithin(front[0], high', front + [s])
      <==> n in ReceivedWithin(front[0], high, front) || (n == s && s > front[0])
  {
    assert n in front + [s] <==> n in front || n == s;
  }

  /** The numbers received above the first are the advances plus at most one per out-of-order report. */
  lemma {:induction false} ReceivedCount(numbers: seq<Uint64>)
    requires numbers != []
    ensures Advances(numbers)
         <= |ReceivedWithin(numbers[0], HighestReceived(numbers), numbers)|
         <= Advances(numbers) + OutOfOrderTotal(numbers)
  {
    if |numbers| == 1 {
      OneReceived(numbers);
    } else {
      LastSplit(numbers);
      var front, s := numbers[..|numbers| - 1], numbers[|numbers| - 1];
      ReceivedCount(front);
      ReceivedStep(front, s);
    }
  }

  lemma OneReceived(numbers: seq<Uint64>)
    requires |numbers| == 1
    ensures ReceivedWithin(numbers[0], HighestReceived(numbers), numbers) == {} && Advances(numbers) == 0
  {
    assert numbers == [numbers[0]];
    Single(numbers[0]);
  }

  function ReceivedTotal(numbers: seq<Uint64>): nat
    requires numbers != []
  {
    |ReceivedWithin(numbers[0], HighestReceived(numbers), numbers)|
  }

  lemma ReceivedStep(front: seq<Uint64>, s: Uint64)
    requires front != []
    requires Advances(front) <= ReceivedTotal(front) <= Advances(front) + OutOfOrderTotal(front)
    ensures Advances(front + [s]) <= ReceivedTotal(front + [s]) <= Advances(front + [s]) + OutOfOrderTotal(front + [s])
  {
    AdvancesAppend(front, s);
    OutOfOrderAppend(front, s);
    ReportAgainstMaximum(front, s);
    ReceivedAppend(front, s);
  }

  lemma ReceivedAppend(front: seq<Uint64>, s: Uint64)
    requires front != []
    ensures ReceivedTotal(front + [s]) == ReceivedTotal(front) + if s > front[0] && s !in front then 1 else 0
    ensures s > HighestReceived(front) ==> s > front[0] && s !in front
    ensures s > front[0] && s !in front ==> s != HighestReceived(front)
  {
    HighestIsMaximum(front);
    assert front[0] in front;
    HighestReceivedAppend(front, s);
    OneMoreReceived(front, s, HighestReceived(front), HighestReceived(front + [s]));
  }

  /**
   Main result: for every run, the numbers between the first and the highest that never arrived are at most
   the reported gaps, and the reported gaps exceed them by at most the number of out-of-order reports.
   */
  lemma GapsBoundLoss(numbers: seq<Uint64>)
    requires numbers != []
    ensures var missing := |MissingWithin(numbers[0], HighestReceived(numbers), numbers)|;
      missing <= GapTotal(numbers) <= missing + OutOfOrderTotal(numbers)
  {
    HighestIsMaximum(numbers);
    GapsAndAdvances(numbers);
    ReceivedCount(numbers);
    MissingCount(numbers[0], HighestReceived(numbers), numbers);
  }

  /** Any 256 consecutive accepted numbers are distinct. */
  lemma {:induction false} WindowDistinct(numbers: seq<Uint64>, i: nat, j: nat)
    requires i < j < |Accepted(numbers)| && j - i <= WINDOW
    ensures Accepted(numbers)[i] != Accepted(numbers)[j]
  {
    var front, s := numbers[..|numbers| - 1], numbers[|numbers| - 1];
    var before := Accepted(front);
    if j < |before| {
      WindowDistinct(front, i, j);
    } else {
      assert before[i] in Last(before) by {
        if |before| >= WINDOW {
          assert before[i] == Last(before)[i - (|before| - WINDOW)];
        }
      }
    }
  }

  // ----- the tracker itself -----

  /** Read from the cursor on, the ring is the window: the last accepted numbers, oldest first. */
  ghost predicate RingHolds(ring: seq<Uint64>, count: nat, cursor: nat, window: seq<Uint64>) {
    && |ring| == WINDOW && count == |window| <= WINDOW && cursor < WINDOW
    && (count < WINDOW ==> cursor == 0)
    && window == ring[cursor..count] + ring[..cursor]
  }

  lemma LastAppend(accepted: seq<Uint64>, s: Uint64)
    ensures Last(accepted + [s]) == if |accepted| < WINDOW then Last(accepted) + [s] else Last(accepted)[1..] + [s]
  {
  }

  lemma RingGrows(ring: seq<Uint64>, count: nat, window: seq<Uint64>, s: Uint64)
    requires RingHolds(ring, count, 0, window) && count < WINDOW
    ensures RingHolds(ring[count := s], count + 1, 0, window + [s])
  {
    assert ring[count := s][0..count + 1] == ring[0..count] + [s];
  }

  lemma RingMember(ring: seq<Uint64>, count: nat, cursor: nat, window: seq<Uint64>, s: Uint64)
    requires RingHolds(ring, count, cursor, window)
    ensures s in window <==> exists i :: 0 <= i < count && ring[i] == s
  {
    var older, newer := ring[cursor..count], ring[..cursor];
    forall i | 0 <= i < count && ring[i] == s ensures s in window {
      if i < cursor {
        assert newer[i] == s;
      } else {
        assert older[i - cursor] == s;
      }
    }
  }

  lemma RingTurns(ring: seq<Uint64>, cursor: nat, window: seq<Uint64>, s: Uint64)
    requires RingHolds(ring, WINDOW, cursor, window)
    ensures RingHolds(ring[cursor := s], WINDOW, (cursor + 1) % WINDOW, window[1..] + [s])
  {
    var ring' := ring[cursor := s];
    assert window[1..] == ring[cursor + 1..] + ring[..cursor];
    if cursor + 1 == WINDOW {
      assert ring'[0..WINDOW] + ring'[..0] == ring[..cursor] + [s];
    } else {
      assert ring'[cursor + 1..WINDOW] == ring[cursor + 1..];
      assert ring'[..cursor + 1] == ring[..cursor] + [s];
    }
  }

  lemma Stored(ring: seq<Uint64>, count: nat, cursor: nat, accepted: seq<Uint64>, s: Uint64)
    requires RingHolds(ring, count, cursor, Last(accepted))
    ensures count < WINDOW ==> RingHolds(ring[count := s], count + 1, cursor, Last(accepted + [s]))
    ensures count == WINDOW ==> RingHolds(ring[cursor := s], count, (cursor + 1) % WINDOW, Last(accepted + [s]))
  {
    LastAppend(accepted, s);
    if count < WINDOW {
      RingGrows(ring, count, Last(accepted), s);
    } else {
      RingTurns(ring, cursor, Last(accepted), s);
    }
  }

  class Tracker {
    const recent: array<Uint64>
    var count: nat
    var cursor: nat
    var initialized: bool
    var highest: Uint64
    ghost var accepted: seq<Uint64>

    ghost predicate Valid()
      reads this, recent
    {
      && recent.Length == WINDOW
      && RingHolds(recent[..], count, cursor, Last(accepted))
      && (initialized <==> accepted != [])
      && (initialized ==> highest == Highest(accepted))
    }

    constructor ()
      ensures Valid() && accepted == [] && fresh(recent)
    {
      recent := new Uint64[WINDOW](i => 0);
      count, cursor, initialized, highest := 0, 0, false, 0;
      accepted := [];
    }

    method IsRecent(s: Uint64) returns (found: bool)
      requires recent.Length == WINDOW && RingHolds(recent[..], count, cursor, Last(accepted))
      ensures found <==> s in Last(accepted)
    {
      found := false;
      for i := 0 to count
        invariant !found
        invariant forall j :: 0 <= j < i ==> recent[..][j] != s
      {
        if recent[i] == s {
          assert recent[..][i] == s;
          RingMember(recent[..], count, cursor, Last(accepted), s);
          return true;
        }
      }
      RingMember(recent[..], count, cursor, Last(accepted), s);
    }

    /** Writes one slot of the ring and moves its marks. */
    method Put(i: nat, s: Uint64, count': nat, cursor': nat, ghost window: seq<Uint64>)
      requires i < recent.Length && RingHolds(recent[..][i := s], count', cursor', window)
      modifies this`count, this`cursor, recent
      ensures RingHolds(recent[..], count, cursor, window)
    {
      count, cursor := count', cursor';
      recent[i] := s;
      assert recent[..] == old(recent[..])[i := s];
    }

    /** Stores an accepted number, over the oldest one when the ring is full. */
    method Remember(s: Uint64)
      requires recent.Length == WINDOW && RingHolds(recent[..], count, cursor, Last(accepted))
      modifies this`count, this`cursor, recent
      ensures RingHolds(recent[..], count, cursor, Last(accepted + [s]))
    {
      Stored(recent[..], count, cursor, accepted, s);
      if count < WINDOW {
        Put(count, s, count + 1, cursor, Last(accepted + [s]));
      } else {
        Put(cursor, s, count, (cursor + 1) % WINDOW, Last(accepted + [s]));
      }
    }

    /** The report for a number that is not a recent one. */
    method Classify(s: Uint64) returns (report: Report)
      requires initialized <==> accepted != []
      requires initialized ==> highest == Highest(accepted)
      requires s !in Last(accepted)
      ensures report == ReportFor(accepted, s)
    {
      if initialized {
        if s < highest {
          return OutOfOrder;
        } else if highest != 0xFFFF_FFFF_FFFF_FFFF && s > highest + 1 {
          return Gap(s - highest - 1);
        }
      }
      return Silent;
    }

    /** `track_sequence`: the report is a function of the numbers accepted so far. */
    method Track(s: Uint64) returns (report: Report)
      requires Valid()
      modifies this, recent
      ensures Valid()
      ensures report == ReportFor(old(accepted), s)
      ensures accepted == if s in Last(old(accepted)) then old(accepted) else old(accepted) + [s]
    {
      var duplicate := IsRecent(s);
      if duplicate {
        return Duplicate;
      }
      report := Classify(s);
      if accepted != [] {
        HighestAppend(accepted, s);
      }
      if !initialized || s > highest {
        highest := s;
      }
      initialized := true;
      assert highest == Highest(accepted + [s]);
      Remember(s);
      accepted := accepted + [s];
    }
  }

  /** The totals a run reports. */
  datatype Totals = Totals(gaps: nat, outOfOrder: nat, duplicates: nat)

  function TotalsOf(numbers: seq<Uint64>): Totals {
    if numbers == [] then Totals(0, 0, 0)
    else Count(TotalsOf(numbers[..|numbers| - 1]), ReportAt(numbers))
  }

  function Count(t: Totals, report: Report): Totals {
    match report
    case Silent => t
    case Duplicate => t.(duplicates := t.duplicates + 1)
    case OutOfOrder => t.(outOfOrder := t.outOfOrder + 1)
    case Gap(m) => t.(gaps := t.gaps + m)
  }

  lemma {:induction false} TotalsMeaning(numbers: seq<Uint64>)
    ensures TotalsOf(numbers).gaps == GapTotal(numbers)
    ensures TotalsOf(numbers).outOfOrder == OutOfOrderTotal(numbers)
    ensures TotalsOf(numbers).duplicates == |numbers| - |Accepted(numbers)|
  {
    if numbers != [] {
      TotalsMeaning(numbers[..|numbers| - 1]);
    }
  }

  lemma TotalsAppend(numbers: seq<Uint64>, n: Uint64)
    ensures var accepted := Accepted(numbers);
      && TotalsOf(numbers + [n]) == Count(TotalsOf(numbers), ReportFor(accepted, n))
      && Accepted(numbers + [n]) == (if n in Last(accepted) then accepted else accepted + [n])
  {
    var all := numbers + [n];
    assert all[..|all| - 1] == numbers && all[|all| - 1] == n;
  }

  /** The tracker together with the events it has reported. */
  class Monitor {
    const tracker: Tracker
    var totals: Totals
    ghost var numbers: seq<Uint64>

    ghost predicate Valid()
      reads this, tracker, tracker.recent
    {
      tracker.Valid() && tracker.accepted == Accepted(numbers) && totals == TotalsOf(numbers)
    }

    constructor ()
      ensures Valid() && numbers == [] && fresh(tracker) && fresh(tracker.recent)
    {
      tracker := new Tracker();
      totals := Totals(0, 0, 0);
      numbers := [];
    }

    method Receive(n: Uint64)
      requires Valid()
      modifies this, tracker, tracker.recent
      ensures Valid() && numbers == old(numbers) + [n]
    {
      TotalsAppend(numbers, n);
      var report := tracker.Track(n);
      totals := Count(totals, report);
      numbers := numbers + [n];
    }
  }

  /** Tracks any run of numbers; the totals are the specified ones, so the bound on real loss applies. */
  method TrackAll(numbers: seq<Uint64>) returns (totals: Totals)
    ensures totals == TotalsOf(numbers)
  {
    var monitor := new Monitor();
    for i := 0 to |numbers|
      invariant fresh(monitor) && fresh(monitor.tracker) && fresh(monitor.tracker.recent) && monitor.Valid()
      invariant monitor.numbers == numbers[..i]
    {
      monitor.Receive(numbers[i]);
      PrefixGrows(numbers, i);
    }
    assert numbers[..|numbers|] == numbers;
    return monitor.totals;
  }
}
