/** The rules of the study-room reservation screen, as values: the time
    table of one day, the policy list, and the transitions the user's
    commands cause on them. The `StudyReservation` class drives its fields
    through these functions. */
module ReservationModel {
  import opened HaramTypes
  import PhoneNumber

  // ---------------------------------------------------------------------
  // What the server sends.

  datatype TimeResponse = TimeResponse(timeSeq: int, isReserved: bool)

  /** One calendar day; `times` is absent for some days. */
  datatype CalendarResponse =
    CalendarResponse(calendarSeq: int, isAvailable: bool, times: Option<seq<TimeResponse>>)

  datatype PolicyResponse = PolicyResponse(policySeq: int, content: string)

  /** The reply to the availability inquiry (the room description it also
      carries is display-only and not modelled). */
  datatype ReservationInfo =
    ReservationInfo(calendars: seq<CalendarResponse>, policies: seq<PolicyResponse>)

  // ---------------------------------------------------------------------
  // What the screen holds.

  /** A time-table cell: the server's slot plus the user's selection flag. */
  datatype TimeSlot = TimeSlot(timeSeq: int, isReserved: bool, isTimeSelected: bool)

  /** A policy check box. */
  datatype Policy = Policy(policySeq: int, content: string, isChecked: bool)

  datatype PolicyAgreement = PolicyAgreement(policySeq: int, policyAgreeYn: string)

  datatype ReserveRequest = ReserveRequest(
    userName: string,
    phoneNum: string,
    calendarSeq: int,
    reservationPolicyRequests: seq<PolicyAgreement>,
    timeSeqs: seq<int>)

  // ---------------------------------------------------------------------
  // The time table.

  /** A fresh cell for a slot of the chosen day: nothing selected yet. */
  function NewSlot(t: TimeResponse): TimeSlot
  {
    TimeSlot(t.timeSeq, t.isReserved, false)
  }

  /** The time table for a day's times: one cell per time, in order. */
  function FreshTable(times: seq<TimeResponse>): (r: seq<TimeSlot>)
    ensures ShowsTimes(r, times)
    ensures NoneSelected(r)
  {
    seq(|times|, k requires 0 <= k < |times| => NewSlot(times[k]))
  }

  /** `t` is a table for `times`: same length, same slots in the same order,
      same reservation flags; only the selection flags are free. */
  predicate ShowsTimes(t: seq<TimeSlot>, times: seq<TimeResponse>)
  {
    |t| == |times|
    && forall k :: 0 <= k < |t| ==> t[k].timeSeq == times[k].timeSeq && t[k].isReserved == times[k].isReserved
  }

  predicate NoneSelected(t: seq<TimeSlot>)
  {
    forall k :: 0 <= k < |t| ==> !t[k].isTimeSelected
  }

  /** The `timeSeq`s of the selected cells, in table order. */
  function SelectedSeqs(t: seq<TimeSlot>): (r: seq<int>)
    ensures |r| <= |t|
  {
    if t == [] then [] else IfSelected(t[0]) + SelectedSeqs(t[1..])
  }

  /** No `timeSeq` is selected exactly when no cell is. */
  lemma {:induction false} SelectedEmptyIff(t: seq<TimeSlot>)
    ensures SelectedSeqs(t) == [] <==> NoneSelected(t)
  {
    if t != [] {
      SelectedEmptyIff(t[1..]);
      assert forall k :: 1 <= k < |t| ==> t[k] == t[1..][k - 1];
    }
  }

  /** A cell's contribution to the selected `timeSeq`s. */
  function IfSelected(c: TimeSlot): seq<int>
  {
    if c.isTimeSelected then [c.timeSeq] else []
  }

  predicate HasSlot(t: seq<TimeSlot>, timeSeq: int)
  {
    exists k :: 0 <= k < |t| && t[k].timeSeq == timeSeq
  }

  /** The index of the first cell with `timeSeq` (what `first(where:)` and
      `firstIndex(of:)` find together). */
  function FirstIndex(t: seq<TimeSlot>, timeSeq: int): (i: nat)
    requires HasSlot(t, timeSeq)
    ensures i < |t| && t[i].timeSeq == timeSeq
    ensures forall k :: 0 <= k < i ==> t[k].timeSeq != timeSeq
  {
    if t[0].timeSeq == timeSeq then 0
    else
      assert HasSlot(t[1..], timeSeq) by {
        var k :| 0 <= k < |t| && t[k].timeSeq == timeSeq;
        assert t[1..][k - 1].timeSeq == timeSeq;
      }
      1 + FirstIndex(t[1..], timeSeq)
  }

  /** The table with cell `i`'s selection flag set to `b`. */
  function SetSelected(t: seq<TimeSlot>, i: nat, b: bool): seq<TimeSlot>
    requires i < |t|
  {
    t[i := t[i].(isTimeSelected := b)]
  }

  predicate Adjacent(x: int, y: int)
  {
    x == y + 1 || x == y - 1
  }

  /** Some already selected `timeSeq` is next to `x`. */
  predicate AnyAdjacent(selected: seq<int>, x: int)
  {
    exists s :: s in selected && Adjacent(x, s)
  }

  /** What a selection of the table is allowed to look like: at most two
      cells, never a reserved one, and a pair only of neighbours. */
  predicate SelectionOk(t: seq<TimeSlot>)
  {
    var sel := SelectedSeqs(t);
    |sel| <= 2
    && (|sel| == 2 ==> Adjacent(sel[1], sel[0]))
    && forall k :: 0 <= k < |t| && t[k].isTimeSelected ==> !t[k].isReserved
  }

  /** The outcome of a select command: the new table and the error it emits,
      if any. */
  datatype Step = Step(table: seq<TimeSlot>, error: Option<HaramError>)

  /** The select command's decision on the current table. The caller must
      name a slot of the table unless two are already selected (the lookup
      is force-unwrapped after the count check). */
  function SelectStep(t: seq<TimeSlot>, timeSeq: int): (r: Step)
    requires |SelectedSeqs(t)| >= 2 || HasSlot(t, timeSeq)
    // a third selection is refused, with an error, before anything else
    ensures |SelectedSeqs(t)| >= 2 ==> r == Step(t, Some(MaxReservationCount))
    // a reserved slot is ignored silently
    ensures |SelectedSeqs(t)| < 2 && t[FirstIndex(t, timeSeq)].isReserved ==> r == Step(t, None)
    // a second slot that is not next to the first is refused, with an error
    ensures r.error == Some(NonConsecutiveReservations)
        <==> |SelectedSeqs(t)| == 1 && !t[FirstIndex(t, timeSeq)].isReserved
             && !Adjacent(timeSeq, SelectedSeqs(t)[0])
    // an error never comes with a change of the table
    ensures r.error.Some? ==> r.table == t
    // an accepted selection adds exactly the first cell with that timeSeq
    ensures r.table != t ==>
              r.error.None? && |SelectedSeqs(t)| < 2
              && r.table == SetSelected(t, FirstIndex(t, timeSeq), true)
              && |SelectedSeqs(r.table)| == |SelectedSeqs(t)| + 1
    // and a select that passes the three checks is accepted
    ensures |SelectedSeqs(t)| < 2 && !t[FirstIndex(t, timeSeq)].isReserved
            && (|SelectedSeqs(t)| == 0 || Adjacent(timeSeq, SelectedSeqs(t)[0])) ==>
              r == Step(SetSelected(t, FirstIndex(t, timeSeq), true), None)
  {
    var count := |SelectedSeqs(t)|;
    if count >= 2 then Step(t, Some(MaxReservationCount))
    else
      var i := FirstIndex(t, timeSeq);
      if t[i].isReserved then Step(t, None)
      else if count == 1 && !AnyAdjacent(SelectedSeqs(t), timeSeq) then
        Step(t, Some(NonConsecutiveReservations))
      else
        AcceptedCellUnselected(t, timeSeq);
        SelectedGrows(t, i);
        Step(SetSelected(t, i, true), None)
  }

  /** The deselect command: clears the flag of the first cell with
      `timeSeq`, whatever it was. */
  function DeselectStep(t: seq<TimeSlot>, timeSeq: int): (r: seq<TimeSlot>)
    requires HasSlot(t, timeSeq)
    ensures NoneSelected(t) ==> r == t
    // only the first cell with that timeSeq changes, and only its flag
    ensures |r| == |t|
    ensures r[FirstIndex(t, timeSeq)] == t[FirstIndex(t, timeSeq)].(isTimeSelected := false)
    ensures forall k :: 0 <= k < |t| && k != FirstIndex(t, timeSeq) ==> r[k] == t[k]
    ensures |SelectedSeqs(r)| == |SelectedSeqs(t)| - (if t[FirstIndex(t, timeSeq)].isTimeSelected then 1 else 0)
  {
    var i := FirstIndex(t, timeSeq);
    SelectedShrinks(t, i);
    SetSelected(t, i, false)
  }

  /** The selected `timeSeq`s of a table are those of its parts, in order. */
  lemma {:induction false} SelectedConcat(a: seq<TimeSlot>, b: seq<TimeSlot>)
    ensures SelectedSeqs(a + b) == SelectedSeqs(a) + SelectedSeqs(b)
  {
    if a == [] {
      assert a + b == b;
    } else {
      assert (a + b)[0] == a[0];
      assert (a + b)[1..] == a[1..] + b;
      SelectedConcat(a[1..], b);
    }
  }

  /** A table's selected `timeSeq`s around one of its cells. */
  lemma {:induction false} SelectedSplit(t: seq<TimeSlot>, i: nat)
    requires i < |t|
    ensures SelectedSeqs(t) == SelectedSeqs(t[..i]) + IfSelected(t[i]) + SelectedSeqs(t[i + 1..])
  {
    var before, cell, after := t[..i], [t[i]], t[i + 1..];
    assert (before + cell) + after == t by {
      assert before + cell == t[..i + 1];
    }
    assert SelectedSeqs(t) == SelectedSeqs(before + cell) + SelectedSeqs(after) by {
      SelectedConcat(before + cell, after);
    }
    assert SelectedSeqs(before + cell) == SelectedSeqs(before) + IfSelected(t[i]) by {
      SelectedConcat(before, cell);
      assert cell[1..] == [];
    }
  }

  /** How changing one cell's flag changes the selected `timeSeq`s: the
      cells before and after it contribute what they did, and the cell
      contributes its `timeSeq` exactly when its new flag is set. */
  lemma {:induction false} SelectedAfterSet(t: seq<TimeSlot>, i: nat, b: bool)
    requires i < |t|
    ensures SelectedSeqs(t) == SelectedSeqs(t[..i]) + IfSelected(t[i]) + SelectedSeqs(t[i + 1..])
    ensures SelectedSeqs(SetSelected(t, i, b))
         == SelectedSeqs(t[..i]) + IfSelected(t[i].(isTimeSelected := b)) + SelectedSeqs(t[i + 1..])
  {
    var u := SetSelected(t, i, b);
    SelectedSplit(t, i);
    SelectedSplit(u, i);
    assert u[..i] == t[..i] && u[i + 1..] == t[i + 1..];
  }

  lemma {:induction false} SelectedGrows(t: seq<TimeSlot>, i: nat)
    requires i < |t| && !t[i].isTimeSelected
    ensures |SelectedSeqs(SetSelected(t, i, true))| == |SelectedSeqs(t)| + 1
  {
    SelectedAfterSet(t, i, true);
  }

  lemma {:induction false} SelectedShrinks(t: seq<TimeSlot>, i: nat)
    requires i < |t|
    ensures |SelectedSeqs(SetSelected(t, i, false))|
         == |SelectedSeqs(t)| - (if t[i].isTimeSelected then 1 else 0)
    ensures !t[i].isTimeSelected ==> SetSelected(t, i, false) == t
  {
    SelectedAfterSet(t, i, false);
    if !t[i].isTimeSelected {
      assert t[i].(isTimeSelected := false) == t[i];
    }
  }

  /** The cell an accepted selection marks is not already selected: with
      none selected that is immediate, and with one selected the new
      `timeSeq` is a neighbour of it, so not its own. */
  lemma {:induction false} AcceptedCellUnselected(t: seq<TimeSlot>, timeSeq: int)
    requires HasSlot(t, timeSeq) && |SelectedSeqs(t)| < 2
    requires |SelectedSeqs(t)| == 1 ==> AnyAdjacent(SelectedSeqs(t), timeSeq)
    ensures !t[FirstIndex(t, timeSeq)].isTimeSelected
  {
    var i := FirstIndex(t, timeSeq);
    SelectedIsSelectedCell(t, i);
    if |SelectedSeqs(t)| == 1 {
      var s :| s in SelectedSeqs(t) && Adjacent(timeSeq, s);
      assert SelectedSeqs(t) == [s];
      assert timeSeq !in SelectedSeqs(t);
    }
  }

  /** A selected cell's `timeSeq` is among the selected `timeSeq`s. */
  lemma {:induction false} SelectedIsSelectedCell(t: seq<TimeSlot>, i: nat)
    requires i < |t|
    ensures t[i].isTimeSelected ==> t[i].timeSeq in SelectedSeqs(t)
  {
    SelectedAfterSet(t, i, true);
  }

  /** Every selected `timeSeq` belongs to some selected cell. */
  lemma {:induction false} SelectedComesFromCell(t: seq<TimeSlot>, x: int)
    requires x in SelectedSeqs(t)
    ensures exists k :: 0 <= k < |t| && t[k].isTimeSelected && t[k].timeSeq == x
  {
    if !(t[0].isTimeSelected && t[0].timeSeq == x) {
      SelectedComesFromCell(t[1..], x);
      var k :| 0 <= k < |t[1..]| && t[1..][k].isTimeSelected && t[1..][k].timeSeq == x;
      assert t[k + 1] == t[1..][k];
    }
  }

  /** Writing the same flag twice, as the adjacent-second-slot path does,
      leaves the table as one write does: the second lookup finds the same
      cell, because flags do not move `timeSeq`s. */
  lemma {:induction false} DoubleWriteIdempotent(t: seq<TimeSlot>, timeSeq: int)
    requires HasSlot(t, timeSeq)
    ensures var once := SetSelected(t, FirstIndex(t, timeSeq), true);
            HasSlot(once, timeSeq)
            && FirstIndex(once, timeSeq) == FirstIndex(t, timeSeq)
            && SetSelected(once, FirstIndex(once, timeSeq), true) == once
  {
    var i := FirstIndex(t, timeSeq);
    var once := SetSelected(t, i, true);
    assert once[i].timeSeq == timeSeq;
    FirstIndexAfterSet(t, i, true, timeSeq);
  }

  /** Flag changes keep every cell's `timeSeq`, so lookups find the same
      index before and after. */
  lemma {:induction false} FirstIndexAfterSet(t: seq<TimeSlot>, i: nat, b: bool, timeSeq: int)
    requires i < |t| && HasSlot(t, timeSeq)
    ensures HasSlot(SetSelected(t, i, b), timeSeq)
    ensures FirstIndex(SetSelected(t, i, b), timeSeq) == FirstIndex(t, timeSeq)
  {
    var u := SetSelected(t, i, b);
    var j := FirstIndex(t, timeSeq);
    assert u[j].timeSeq == timeSeq;
    var j' := FirstIndex(u, timeSeq);
    assert u[j'].timeSeq == t[j'].timeSeq;
    assert j <= j';
    assert j' <= j;
  }

  /** A select command keeps the selection well-formed: never more than two
      cells, never a reserved one, a pair only of neighbours. */
  lemma {:induction false} SelectKeepsSelectionOk(t: seq<TimeSlot>, timeSeq: int)
    requires SelectionOk(t)
    requires |SelectedSeqs(t)| >= 2 || HasSlot(t, timeSeq)
    ensures SelectionOk(SelectStep(t, timeSeq).table)
  {
    var r := SelectStep(t, timeSeq);
    if r.table != t {
      var i := FirstIndex(t, timeSeq);
      AcceptedKeepsUnreserved(t, i);
      if |SelectedSeqs(t)| == 1 {
        AcceptedPairAdjacent(t, timeSeq);
      }
    }
  }

  /** Marking an unreserved cell keeps every selected cell unreserved. */
  lemma {:induction false} AcceptedKeepsUnreserved(t: seq<TimeSlot>, i: nat)
    requires i < |t| && !t[i].isReserved
    requires forall k :: 0 <= k < |t| && t[k].isTimeSelected ==> !t[k].isReserved
    ensures var u := SetSelected(t, i, true);
            forall k :: 0 <= k < |u| && u[k].isTimeSelected ==> !u[k].isReserved
  {
  }

  /** A second selection, accepted next to the first, leaves a pair of
      neighbours. */
  lemma {:induction false} AcceptedPairAdjacent(t: seq<TimeSlot>, timeSeq: int)
    requires HasSlot(t, timeSeq) && |SelectedSeqs(t)| == 1
    requires AnyAdjacent(SelectedSeqs(t), timeSeq)
    ensures var u := SetSelected(t, FirstIndex(t, timeSeq), true);
            |SelectedSeqs(u)| == 2 && Adjacent(SelectedSeqs(u)[1], SelectedSeqs(u)[0])
  {
    var i := FirstIndex(t, timeSeq);
    var u := SetSelected(t, i, true);
    var s := SelectedSeqs(t)[0];
    assert SelectedSeqs(t) == [s];
    assert Adjacent(timeSeq, s);
    AcceptedCellUnselected(t, timeSeq);
    SelectedAfterSet(t, i, true);
    var before, after := SelectedSeqs(t[..i]), SelectedSeqs(t[i + 1..]);
    assert before + after == [s];
    assert SelectedSeqs(u) == before + [timeSeq] + after;
    if before == [] {
      assert after == [s];
    } else {
      assert before == [s] && after == [];
    }
  }

  /** A deselect command keeps the selection well-formed. */
  lemma {:induction false} DeselectKeepsSelectionOk(t: seq<TimeSlot>, timeSeq: int)
    requires SelectionOk(t) && HasSlot(t, timeSeq)
    ensures SelectionOk(DeselectStep(t, timeSeq))
  {
    var i := FirstIndex(t, timeSeq);
    var u := DeselectStep(t, timeSeq);
    SelectedShrinks(t, i);
    forall k | 0 <= k < |u| && u[k].isTimeSelected ensures !u[k].isReserved {
      assert k != i && u[k] == t[k];
    }
    if t[i].isTimeSelected && |SelectedSeqs(t)| == 2 {
      assert |SelectedSeqs(u)| == 1;
    }
  }

  /** Whatever sequence of select and deselect commands follows a day
      change, at most two cells are ever selected: a fresh table is
      well-formed and both commands keep it so. */
  lemma {:induction false} FreshTableSelectionOk(times: seq<TimeResponse>)
    ensures SelectionOk(FreshTable(times))
    ensures SelectedSeqs(FreshTable(times)) == []
  {
    SelectedEmptyIff(FreshTable(times));
  }

  /** `times` has an unreserved slot `x`. */
  predicate OffersTime(times: seq<TimeResponse>, x: int)
  {
    exists k :: 0 <= k < |times| && times[k].timeSeq == x && !times[k].isReserved
  }

  /** In a well-formed table for `times`, every selected `timeSeq` is an
      unreserved slot of `times`. */
  lemma {:induction false} SelectedAreOffered(t: seq<TimeSlot>, times: seq<TimeResponse>, x: int)
    requires SelectionOk(t) && ShowsTimes(t, times) && x in SelectedSeqs(t)
    ensures OffersTime(times, x)
  {
    SelectedComesFromCell(t, x);
    var k :| 0 <= k < |t| && t[k].isTimeSelected && t[k].timeSeq == x;
    assert times[k].timeSeq == x && !times[k].isReserved;
  }

  // ---------------------------------------------------------------------
  // Choosing a day.

  predicate HasDay(days: seq<CalendarResponse>, calendarSeq: int)
  {
    exists k :: 0 <= k < |days| && days[k].calendarSeq == calendarSeq
  }

  /** The first day with `calendarSeq`. */
  function FindDay(days: seq<CalendarResponse>, calendarSeq: int): (d: CalendarResponse)
    requires HasDay(days, calendarSeq)
    ensures d.calendarSeq == calendarSeq
    ensures exists k :: (0 <= k < |days| && days[k] == d
                         && forall j :: 0 <= j < k ==> days[j].calendarSeq != calendarSeq)
  {
    if days[0].calendarSeq == calendarSeq then
      days[0]
    else
      assert HasDay(days[1..], calendarSeq) by {
        var k :| 0 <= k < |days| && days[k].calendarSeq == calendarSeq;
        assert days[1..][k - 1].calendarSeq == calendarSeq;
      }
      var d := FindDay(days[1..], calendarSeq);
      ghost var k :| 0 <= k < |days[1..]| && days[1..][k] == d
            && forall j :: 0 <= j < k ==> days[1..][j].calendarSeq != calendarSeq;
      assert days[k + 1] == d;
      assert forall j :: 1 <= j < k + 1 ==> days[j] == days[1..][j - 1];
      d
  }

  /** The first available day, which the screen opens on. */
  function FirstAvailable(days: seq<CalendarResponse>): (r: Option<CalendarResponse>)
    ensures r.None? <==> forall k :: 0 <= k < |days| ==> !days[k].isAvailable
    ensures r.Some? ==>
              r.value.isAvailable && HasDay(days, r.value.calendarSeq)
              && exists k :: (0 <= k < |days| && days[k] == r.value
                              && forall j :: 0 <= j < k ==> !days[j].isAvailable)
  {
    if days == [] then None
    else if days[0].isAvailable then Some(days[0])
    else
      var r := FirstAvailable(days[1..]);
      assert forall j :: 1 <= j < |days| ==> days[j] == days[1..][j - 1];
      if r.Some? then
        ghost var k :| 0 <= k < |days[1..]| && days[1..][k] == r.value
              && forall j :: 0 <= j < k ==> !days[1..][j].isAvailable;
        assert days[k + 1] == r.value;
        r
      else r
  }

  /** The part of the screen a day choice touches: the last `calendarSeq`
      sent (against which repeats are dropped), the day whose times the
      table shows, and the table. */
  datatype DayState = DayState(last: Option<int>, shown: Option<CalendarResponse>, table: seq<TimeSlot>)

  /** Choosing a day. A repeat of the last `calendarSeq` is dropped; a day
      that is not available, or has no times, is remembered as the last sent
      but leaves the table alone; an available day replaces the table. The
      day must be known unless it is a repeat. */
  function ChooseDayStep(days: seq<CalendarResponse>, s: DayState, calendarSeq: int): (r: DayState)
    requires s.last == Some(calendarSeq) || HasDay(days, calendarSeq)
    ensures r.last == Some(calendarSeq)
    // re-sending the same day changes nothing, so the selection survives
    ensures s.last == Some(calendarSeq) ==> r == s
    // only an available day with times replaces the table
    ensures r.table != s.table || r.shown != s.shown ==>
              r.shown.Some? && r.shown.value.calendarSeq == calendarSeq
              && r.shown.value.isAvailable && r.shown.value.times.Some?
              && r.table == FreshTable(r.shown.value.times.value)
    ensures s.last != Some(calendarSeq) && FindDay(days, calendarSeq).isAvailable
            && FindDay(days, calendarSeq).times.Some? ==>
              r.shown == Some(FindDay(days, calendarSeq))
              && ShowsTimes(r.table, FindDay(days, calendarSeq).times.value)
              && NoneSelected(r.table)
    // a new day that is unavailable, or has no times, leaves the table
    ensures s.last != Some(calendarSeq)
            && !(FindDay(days, calendarSeq).isAvailable && FindDay(days, calendarSeq).times.Some?) ==>
              r.shown == s.shown && r.table == s.table
  {
    if s.last == Some(calendarSeq) then s
    else
      var d := FindDay(days, calendarSeq);
      if d.isAvailable && d.times.Some? then DayState(Some(calendarSeq), Some(d), FreshTable(d.times.value))
      else s.(last := Some(calendarSeq))
  }

  // ---------------------------------------------------------------------
  // Policies.

  predicate SortedDesc(ps: seq<PolicyResponse>)
  {
    forall i, j :: 0 <= i < j < |ps| ==> ps[i].policySeq >= ps[j].policySeq
  }

  /** Inserts `p` in front of the first policy whose `policySeq` is not
      higher than its own. */
  function InsertDesc(p: PolicyResponse, ps: seq<PolicyResponse>): (r: seq<PolicyResponse>)
    ensures |r| == |ps| + 1
  {
    if ps == [] || p.policySeq >= ps[0].policySeq then [p] + ps
    else [ps[0]] + InsertDesc(p, ps[1..])
  }

  /** Inserting into a list sorted by descending `policySeq` keeps it
      sorted; the head is the new policy or the old head. */
  lemma {:induction false} InsertDescSorted(p: PolicyResponse, ps: seq<PolicyResponse>)
    requires SortedDesc(ps)
    ensures SortedDesc(InsertDesc(p, ps))
    ensures InsertDesc(p, ps)[0] == p || (|ps| > 0 && InsertDesc(p, ps)[0] == ps[0])
  {
    if ps == [] || p.policySeq >= ps[0].policySeq {
      ConsSorted(p, ps);
    } else {
      var rest := InsertDesc(p, ps[1..]);
      assert SortedDesc(ps[1..]) by {
        forall i, j | 0 <= i < j < |ps[1..]| ensures ps[1..][i].policySeq >= ps[1..][j].policySeq {
          assert ps[1..][i] == ps[i + 1] && ps[1..][j] == ps[j + 1];
        }
      }
      InsertDescSorted(p, ps[1..]);
      assert rest[0].policySeq <= ps[0].policySeq by {
        if rest[0] != p { assert rest[0] == ps[1]; }
      }
      ConsSorted(ps[0], rest);
    }
  }

  /** Inserting adds exactly that policy. */
  lemma {:induction false} InsertDescPermutes(p: PolicyResponse, ps: seq<PolicyResponse>)
    ensures multiset(InsertDesc(p, ps)) == multiset(ps) + multiset{p}
  {
    if ps == [] || p.policySeq >= ps[0].policySeq {
      assert multiset([p] + ps) == multiset{p} + multiset(ps);
    } else {
      var rest := InsertDesc(p, ps[1..]);
      InsertDescPermutes(p, ps[1..]);
      assert ps == [ps[0]] + ps[1..];
      assert multiset(ps) == multiset{ps[0]} + multiset(ps[1..]);
      assert multiset([ps[0]] + rest) == multiset{ps[0]} + multiset(rest);
    }
  }

  /** A policy no lower than the head of a sorted list can go in front. */
  lemma {:induction false} ConsSorted(x: PolicyResponse, rest: seq<PolicyResponse>)
    requires SortedDesc(rest)
    requires |rest| > 0 ==> rest[0].policySeq <= x.policySeq
    ensures SortedDesc([x] + rest)
  {
    var r := [x] + rest;
    forall i, j | 0 <= i < j < |r| ensures r[i].policySeq >= r[j].policySeq {
      assert r[j] == rest[j - 1];
      if i > 0 {
        assert r[i] == rest[i - 1];
      } else {
        assert rest[j - 1].policySeq <= rest[0].policySeq;
      }
    }
  }

  /** The policies in descending `policySeq` order, as they are stored on
      load. */
  function SortDesc(ps: seq<PolicyResponse>): (r: seq<PolicyResponse>)
    ensures SortedDesc(r)
    ensures multiset(r) == multiset(ps)
  {
    if ps == [] then []
    else
      assert ps == [ps[0]] + ps[1..];
      var rest := SortDesc(ps[1..]);
      InsertDescSorted(ps[0], rest);
      InsertDescPermutes(ps[0], rest);
      InsertDesc(ps[0], rest)
  }

  predicate DistinctSeqs(ps: seq<PolicyResponse>)
  {
    forall i, j :: 0 <= i < j < |ps| ==> ps[i].policySeq != ps[j].policySeq
  }

  /** With pairwise distinct `policySeq`s the stored order is strictly
      descending. */
  lemma {:induction false} SortDescStrict(ps: seq<PolicyResponse>)
    requires DistinctSeqs(ps)
    ensures forall i, j :: 0 <= i < j < |SortDesc(ps)| ==> SortDesc(ps)[i].policySeq > SortDesc(ps)[j].policySeq
  {
    var r := SortDesc(ps);
    forall i, j | 0 <= i < j < |r| ensures r[i].policySeq > r[j].policySeq {
      assert r[i] in multiset(ps) && r[j] in multiset(ps);
      var a :| 0 <= a < |ps| && ps[a] == r[i];
      var b :| 0 <= b < |ps| && ps[b] == r[j];
      if r[i].policySeq == r[j].policySeq {
        assert a == b;
        MultisetTwoPositions(r, i, j);
        CountInMultiset(ps, a);
      }
    }
  }

  lemma {:induction false} MultisetTwoPositions<T>(s: seq<T>, i: nat, j: nat)
    requires i < j < |s| && s[i] == s[j]
    ensures multiset(s)[s[i]] >= 2
  {
    var x := s[i];
    assert s == s[..i] + [x] + s[i + 1..j] + [x] + s[j + 1..];
    assert multiset(s) == multiset(s[..i]) + multiset{x} + multiset(s[i + 1..j]) + multiset{x} + multiset(s[j + 1..]);
  }

  lemma {:induction false} CountInMultiset(ps: seq<PolicyResponse>, a: nat)
    requires DistinctSeqs(ps) && a < |ps|
    ensures multiset(ps)[ps[a]] == 1
  {
    var x := ps[a];
    assert ps == ps[..a] + [x] + ps[a + 1..];
    assert forall j :: 0 <= j < |ps| && j != a ==> ps[j] != x;
    assert x !in ps[..a];
    assert x !in ps[a + 1..];
    assert multiset(ps) == multiset(ps[..a]) + multiset{x} + multiset(ps[a + 1..]);
  }

  /** The check boxes for the loaded policies, all unchecked. */
  function PolicyViews(ps: seq<PolicyResponse>): (r: seq<Policy>)
    ensures |r| == |ps|
    ensures forall k :: 0 <= k < |r| ==>
              r[k].policySeq == ps[k].policySeq && r[k].content == ps[k].content && !r[k].isChecked
  {
    seq(|ps|, k requires 0 <= k < |ps| => Policy(ps[k].policySeq, ps[k].content, false))
  }

  /** Ticking or unticking a check box: the policies with `policySeq` take
      `isChecked`; the list keeps its order and every other entry. */
  function CheckPolicies(ps: seq<Policy>, policySeq: int, isChecked: bool): (r: seq<Policy>)
    ensures |r| == |ps|
    ensures forall k :: 0 <= k < |r| ==>
              r[k].policySeq == ps[k].policySeq && r[k].content == ps[k].content
              && r[k].isChecked == (if ps[k].policySeq == policySeq then isChecked else ps[k].isChecked)
  {
    seq(|ps|, k requires 0 <= k < |ps| =>
      if ps[k].policySeq == policySeq then ps[k].(isChecked := isChecked) else ps[k])
  }

  /** The policies not yet ticked, in order. */
  function Unchecked(ps: seq<Policy>): (r: seq<Policy>)
    ensures |r| <= |ps|
    ensures forall k :: 0 <= k < |r| ==> !r[k].isChecked && r[k] in ps
  {
    if ps == [] then []
    else (if ps[0].isChecked then [] else [ps[0]]) + Unchecked(ps[1..])
  }

  /** No policy is left unticked exactly when every policy is ticked. */
  lemma {:induction false} UncheckedEmptyIff(ps: seq<Policy>)
    ensures Unchecked(ps) == [] <==> forall k :: 0 <= k < |ps| ==> ps[k].isChecked
  {
    if ps != [] {
      UncheckedEmptyIff(ps[1..]);
      assert forall k :: 1 <= k < |ps| ==> ps[k] == ps[1..][k - 1];
    }
  }

  /** Ticking a policy twice is ticking it once; ticking leaves the other
      policies' boxes as they were. */
  lemma {:induction false} CheckPoliciesIdempotent(ps: seq<Policy>, policySeq: int, isChecked: bool)
    ensures CheckPolicies(CheckPolicies(ps, policySeq, isChecked), policySeq, isChecked)
         == CheckPolicies(ps, policySeq, isChecked)
  {
  }

  // ---------------------------------------------------------------------
  // Submitting.

  /** Whether the reserve button is enabled. */
  function CanSubmit(phone: string, ps: seq<Policy>, t: seq<TimeSlot>, name: string): (ok: bool)
    ensures ok ==> 11 <= |phone| <= 13 && |name| > 0 && |t| > 0
  {
    PhoneNumber.IsValidPhoneNumber(phone) && Unchecked(ps) == [] && SelectedSeqs(t) != [] && name != ""
  }

  /** The button is enabled exactly when the phone number matches
      `^\d{3}-?\d{4}-?\d{4}$`, every policy is ticked, some slot is selected
      and the name is not empty. */
  lemma {:induction false} CanSubmitIff(phone: string, ps: seq<Policy>, t: seq<TimeSlot>, name: string)
    ensures CanSubmit(phone, ps, t, name)
        <==> PhoneNumber.Matches(PhoneNumber.PhonePattern, phone)
             && (forall k :: 0 <= k < |ps| ==> ps[k].isChecked)
             && (exists k :: 0 <= k < |t| && t[k].isTimeSelected)
             && |name| > 0
  {
    PhoneNumber.PhoneCheckMatchesPattern(phone);
    UncheckedEmptyIff(ps);
    SelectedEmptyIff(t);
  }

  /** Every policy in the list, agreed ("Y"), in list order. */
  function AgreeAll(ps: seq<Policy>): (r: seq<PolicyAgreement>)
    ensures |r| == |ps|
    ensures forall k :: 0 <= k < |r| ==> r[k].policySeq == ps[k].policySeq && r[k].policyAgreeYn == "Y"
  {
    seq(|ps|, k requires 0 <= k < |ps| => PolicyAgreement(ps[k].policySeq, "Y"))
  }

  /** The reservation request from the latest name, phone number and day and
      the current policies and table; no request until a name, a phone
      number and a day have all been given. */
  function BuildRequest(name: Option<string>, phone: Option<string>, day: Option<int>,
                        ps: seq<Policy>, t: seq<TimeSlot>): (r: Option<ReserveRequest>)
    ensures r.Some? <==> name.Some? && phone.Some? && day.Some?
    ensures r.Some? ==>
              r.value.userName == name.value && r.value.phoneNum == phone.value
              && r.value.calendarSeq == day.value
              && r.value.reservationPolicyRequests == AgreeAll(ps)
              && r.value.timeSeqs == SelectedSeqs(t)
  {
    if name.Some? && phone.Some? && day.Some? then
      Some(ReserveRequest(name.value, phone.value, day.value, AgreeAll(ps), SelectedSeqs(t)))
    else None
  }
}
