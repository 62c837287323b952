/** The study-room reservation screen's view model: the state behind the
    day picker, the time table, the policy check boxes and the reserve
    button, and the commands the screen sends it. Each output stream is a
    field: `errors` and `loading` log what was emitted, `successes` counts
    completed reservations. */
module StudyReservation {
  import opened HaramTypes
  import opened ReservationModel
  import opened PhoneNumber

  class StudyReservationViewModel {
    /** The room this screen reserves. */
    const roomSeq: int

    /** The calendar of the last successful inquiry (`model`). */
    var days: seq<CalendarResponse>
    var timeTable: seq<TimeSlot>
    var policies: seq<Policy>
    /** The last `calendarSeq` sent to the day input. */
    var lastCalendarSeq: Option<int>
    /** The day whose times `timeTable` shows. */
    var shownDay: Option<CalendarResponse>
    /** The latest name and phone number typed, if any. */
    var userName: Option<string>
    var phoneNumber: Option<string>

    var errors: seq<HaramError>
    var successes: nat
    var loading: seq<bool>

    /** The time table is well-formed and is a table for the shown day; no
        day shown means no table yet. */
    ghost predicate Valid()
      reads this
    {
      SelectionOk(timeTable)
      && (shownDay.None? ==> timeTable == [])
      && (shownDay.Some? ==>
            shownDay.value.isAvailable && shownDay.value.times.Some?
            && ShowsTimes(timeTable, shownDay.value.times.value))
    }

    function DayView(): DayState
      reads this
    {
      DayState(lastCalendarSeq, shownDay, timeTable)
    }

    constructor (roomSeq: int)
      ensures Valid()
      ensures this.roomSeq == roomSeq
      ensures days == [] && timeTable == [] && policies == []
      ensures lastCalendarSeq == None && shownDay == None
      ensures userName == None && phoneNumber == None
      ensures errors == [] && successes == 0 && loading == []
    {
      this.roomSeq := roomSeq;
      days, timeTable, policies := [], [], [];
      lastCalendarSeq, shownDay := None, None;
      userName, phoneNumber := None, None;
      errors, successes, loading := [], 0, [];
    }

    /** The day input. The day must be one of the loaded calendar unless it
        repeats the last one sent. */
    method ChooseDay(calendarSeq: int)
      requires Valid()
      requires lastCalendarSeq == Some(calendarSeq) || HasDay(days, calendarSeq)
      modifies this`lastCalendarSeq, this`shownDay, this`timeTable
      ensures Valid()
      ensures DayView() == ChooseDayStep(days, old(DayView()), calendarSeq)
    {
      if lastCalendarSeq == Some(calendarSeq) {
        return;
      }
      lastCalendarSeq := Some(calendarSeq);
      var findModel := FindDay(days, calendarSeq);
      if !findModel.isAvailable || findModel.times.None? {
        return;
      }
      timeTable := FreshTable(findModel.times.value);
      shownDay := Some(findModel);
      FreshTableSelectionOk(findModel.times.value);
    }

    /** The select input: the working copy of the table is checked and
        changed, then written back. */
    method SelectTime(timeSeq: int)
      requires Valid()
      requires |SelectedSeqs(timeTable)| >= 2 || HasSlot(timeTable, timeSeq)
      modifies this`timeTable, this`errors
      ensures Valid()
      ensures var step := SelectStep(old(timeTable), timeSeq);
              timeTable == step.table
              && errors == old(errors) + (if step.error.Some? then [step.error.value] else [])
    {
      ghost var t0 := timeTable;
      var timeModel := timeTable;
      if |SelectedSeqs(timeModel)| >= 2 {
        errors := errors + [MaxReservationCount];
        return;
      }
      if timeModel[FirstIndex(timeModel, timeSeq)].isReserved {
        return;
      }
      ghost var i0 := FirstIndex(t0, timeSeq);
      if |SelectedSeqs(timeModel)| == 1 {
        if AnyAdjacent(SelectedSeqs(timeModel), timeSeq) {
          var i := FirstIndex(timeModel, timeSeq);
          timeModel := timeModel[i := timeModel[i].(isTimeSelected := true)];
          timeTable := timeModel;
        } else {
          errors := errors + [NonConsecutiveReservations];
          return;
        }
      }
      assert timeModel == t0 || timeModel == SetSelected(t0, i0, true);
      DoubleWriteIdempotent(t0, timeSeq);
      FirstIndexAfterSet(t0, i0, true, timeSeq);
      var k := FirstIndex(timeModel, timeSeq);
      assert k == i0;
      timeModel := timeModel[k := timeModel[k].(isTimeSelected := true)];
      assert timeModel == SetSelected(t0, i0, true);
      timeTable := timeModel;
      assert SelectStep(t0, timeSeq) == Step(timeModel, None);
      SelectKeepsSelectionOk(t0, timeSeq);
      KeepsShownDay(t0, i0, true);
    }

    /** Changing a selection flag keeps the table a table for the shown
        day. */
    lemma KeepsShownDay(t: seq<TimeSlot>, i: nat, b: bool)
      requires i < |t|
      requires shownDay.Some? && shownDay.value.times.Some? ==> ShowsTimes(t, shownDay.value.times.value)
      ensures shownDay.Some? && shownDay.value.times.Some? ==> ShowsTimes(SetSelected(t, i, b), shownDay.value.times.value)
    {
    }

    /** The deselect input: clears the flag of the named slot, which must be
        in the table. */
    method DeselectTime(timeSeq: int)
      requires Valid()
      requires HasSlot(timeTable, timeSeq)
      modifies this`timeTable
      ensures Valid()
      ensures timeTable == DeselectStep(old(timeTable), timeSeq)
    {
      var timeModel := timeTable;
      var i := FirstIndex(timeModel, timeSeq);
      timeModel := timeModel[i := timeModel[i].(isTimeSelected := false)];
      timeTable := timeModel;
      DeselectKeepsSelectionOk(old(timeTable), timeSeq);
      KeepsShownDay(old(timeTable), i, false);
    }

    method CheckCheckBox(policySeq: int, isChecked: bool)
      modifies this`policies
      ensures policies == CheckPolicies(old(policies), policySeq, isChecked)
    {
      policies := CheckPolicies(policies, policySeq, isChecked);
    }

    method EnterName(name: string)
      modifies this`userName
      ensures userName == Some(name)
    {
      userName := Some(name);
    }

    method EnterPhoneNumber(phone: string)
      modifies this`phoneNumber
      ensures phoneNumber == Some(phone)
    {
      phoneNumber := Some(phone);
    }

    /** The one-time availability inquiry, with the repository's reply as
        input. On success the calendar and the sorted policies are stored and
        the first available day, if any, is sent to the day input; a
        failure is shown only when it is a `HaramError`. */
    method Load(reply: Result<ReservationInfo, RepoFailure>)
      requires Valid()
      modifies this`days, this`policies, this`lastCalendarSeq, this`shownDay, this`timeTable,
               this`errors, this`loading
      ensures Valid()
      ensures reply.Failure? ==>
                days == old(days) && policies == old(policies) && DayView() == old(DayView())
                && loading == old(loading)
                && errors == old(errors) + (if reply.error.Haram? then [reply.error.error] else [])
      ensures reply.Success? ==>
                days == reply.value.calendars
                && policies == PolicyViews(SortDesc(reply.value.policies))
                && loading == old(loading) + [true, false]
                && errors == old(errors)
                && DayView() == match FirstAvailable(days)
                                case None => old(DayView())
                                case Some(d) => ChooseDayStep(days, old(DayView()), d.calendarSeq)
    {
      match reply
      case Failure(failure) =>
        if failure.Haram? {
          errors := errors + [failure.error];
        }
      case Success(info) =>
        ghost var before := DayView();
        loading := loading + [true];
        days := info.calendars;
        policies := PolicyViews(SortDesc(info.policies));
        assert DayView() == before && Valid();
        var first := FirstAvailable(info.calendars);
        if first.Some? {
          ChooseDay(first.value.calendarSeq);
          assert DayView() == ChooseDayStep(days, before, first.value.calendarSeq);
        }
        loading := loading + [false];
    }

    /** The reserve button's state; none until a name and a phone number
        have been typed. */
    function ButtonActivated(): (r: Option<bool>)
      reads this
      ensures r.Some? <==> userName.Some? && phoneNumber.Some?
      ensures r == Some(true) ==>
                IsValidPhoneNumber(phoneNumber.value) && userName.value != ""
                && SelectedSeqs(timeTable) != [] && Unchecked(policies) == []
      ensures r == Some(false) ==>
                !IsValidPhoneNumber(phoneNumber.value) || userName.value == ""
                || SelectedSeqs(timeTable) == [] || Unchecked(policies) != []
    {
      if userName.Some? && phoneNumber.Some? then
        Some(CanSubmit(phoneNumber.value, policies, timeTable, userName.value))
      else None
    }

    /** The request a tap of the reserve button sends, naming the day the
        table shows: it asks for unreserved slots of that very day. */
    function PendingRequest(): (r: Option<ReserveRequest>)
      requires Valid()
      reads this
      ensures r.Some? ==>
                shownDay.Some? && r.value.calendarSeq == shownDay.value.calendarSeq
                && forall x :: x in r.value.timeSeqs ==> OffersTime(shownDay.value.times.value, x)
    {
      var r := BuildRequest(userName, phoneNumber,
                            if shownDay.Some? then Some(shownDay.value.calendarSeq) else None,
                            policies, timeTable);
      if r.Some? then
        assert forall x :: x in r.value.timeSeqs ==> OffersTime(shownDay.value.times.value, x) by {
          forall x | x in r.value.timeSeqs ensures OffersTime(shownDay.value.times.value, x) {
            SelectedAreOffered(timeTable, shownDay.value.times.value, x);
          }
        }
        r
      else r
    }

    /** The request as the view model assembles it: the day is the last
        `calendarSeq` sent, whether or not that day replaced the table. */
    function RequestAsWritten(): (r: Option<ReserveRequest>)
      reads this
      ensures r.Some? ==> lastCalendarSeq.Some? && r.value.calendarSeq == lastCalendarSeq.value
    {
      BuildRequest(userName, phoneNumber, lastCalendarSeq, policies, timeTable)
    }

    /** The reserve button, with the repository's reply as input. Nothing is
        sent before a name, a phone number and a day are known; the button's
        enabled state is not re-checked here. */
    method TapReservation(reply: Result<(), RepoFailure>) returns (sent: Option<ReserveRequest>)
      requires Valid()
      modifies this`successes, this`errors
      ensures sent == PendingRequest()
      // it is the request the view model assembles whenever the last day
      // sent is the day on display
      ensures lastCalendarSeq.Some? && shownDay.Some? && lastCalendarSeq.value == shownDay.value.calendarSeq ==>
                sent == RequestAsWritten()
      ensures sent.None? ==> successes == old(successes) && errors == old(errors)
      ensures sent.Some? && reply.Success? ==> successes == old(successes) + 1 && errors == old(errors)
      ensures sent.Some? && reply.Failure? ==>
                successes == old(successes)
                && errors == old(errors) + (if reply.error.Haram? then [reply.error.error] else [])
    {
      sent := PendingRequest();
      if sent.None? {
        return;
      }
      match reply
      case Success(_) =>
        successes := successes + 1;
      case Failure(failure) =>
        if failure.Haram? {
          errors := errors + [failure.error];
        }
    }
  }
}

/** A session that picks a time on an available day and then taps a day
    that cannot be reserved. The table still shows the first day, but the
    request as the view model assembles it names the second day, with a
    time that day does not offer. The corrected request names the day the
    table shows. */
module StaleDayScenario {
  import opened HaramTypes
  import opened ReservationModel
  import opened StudyReservation

  const Open := CalendarResponse(1, true, Some([TimeResponse(10, false)]))
  const Closed := CalendarResponse(2, false, None)

  /** Loads a calendar whose first day is open and whose second is not;
      the open day is chosen and its table shown. */
  method LoadTwoDays() returns (vm: StudyReservationViewModel)
    ensures fresh(vm) && vm.Valid()
    ensures vm.days == [Open, Closed] && vm.policies == []
    ensures vm.DayView() == DayState(Some(1), Some(Open), [TimeSlot(10, false, false)])
    ensures vm.userName == None && vm.phoneNumber == None
  {
    vm := new StudyReservationViewModel(7);
    assert FirstAvailable([Open, Closed]) == Some(Open);
    assert FindDay([Open, Closed], 1) == Open;
    assert FreshTable([TimeResponse(10, false)]) == [TimeSlot(10, false, false)];
    vm.Load(Success(ReservationInfo([Open, Closed], [])));
  }

  /** Then picks the open day's only time. */
  method PickOpenDay() returns (vm: StudyReservationViewModel)
    ensures fresh(vm) && vm.Valid()
    ensures vm.days == [Open, Closed] && vm.policies == []
    ensures vm.DayView() == DayState(Some(1), Some(Open), [TimeSlot(10, false, true)])
    ensures vm.userName == None && vm.phoneNumber == None
  {
    vm := LoadTwoDays();
    ghost var t0 := [TimeSlot(10, false, false)];
    assert SelectedSeqs(t0) == [] by { assert t0[1..] == []; }
    assert HasSlot(t0, 10) by { assert t0[0].timeSeq == 10; }
    assert FirstIndex(t0, 10) == 0;
    assert SelectStep(t0, 10) == Step([TimeSlot(10, false, true)], None);
    vm.SelectTime(10);
  }

  method Run() returns (asWritten: Option<ReserveRequest>, corrected: Option<ReserveRequest>)
    ensures asWritten == Some(ReserveRequest("Kim", "010-1234-5678", 2, [], [10]))
    ensures asWritten.value.calendarSeq == Closed.calendarSeq && !Closed.isAvailable
    ensures corrected == Some(ReserveRequest("Kim", "010-1234-5678", 1, [], [10]))
  {
    var vm := PickOpenDay();
    ghost var table := vm.timeTable;
    assert SelectedSeqs(table) == [10] by {
      assert table[1..] == [];
    }
    assert HasDay(vm.days, 2) by { assert vm.days[1].calendarSeq == 2; }
    assert FindDay(vm.days, 2) == Closed;
    vm.ChooseDay(2);
    vm.EnterName("Kim");
    vm.EnterPhoneNumber("010-1234-5678");
    asWritten := vm.RequestAsWritten();
    corrected := vm.PendingRequest();
  }
}
